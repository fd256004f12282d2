/** The calculation pipeline of the Streamlit page app.py: how the offered price
    and the legs entered in the sidebar are turned into the displayed metrics.
    The widgets are replaced by the values they would deliver. */
module App {
  import opened Results
  import opened Calculations

  /** The offered parlay price, in the format chosen with the radio button. */
  datatype OfferedOdds = American(ml: real) | Decimal(dec: real)

  /** The metrics shown on the page. */
  datatype ParlayResult = ParlayResult(
    parlayProb: real,
    marketProb: real,
    decimalOdds: real,
    ev: real,
    fullKelly: real,
    quarterKelly: real)

  /** Where the page stops with a ZeroDivisionError: both are a zero moneyline
      reaching moneyline_to_decimal. */
  datatype Fault =
    | OfferedOddsConversion    // American mode, offered moneyline 0
    | ExpectedValueConversion  // Decimal mode, offered decimal odds <= 1

  /** The decimal_to_moneyline defined inside the page: unlike the library's, it
      answers 0 for decimal odds not above 1 instead of dividing. */
  function LocalDecimalToMoneyline(dec: real): (ml: real)
    ensures dec <= 1.0 ==> ml == 0.0
    // above 1 it agrees with the library and is its inverse
    ensures dec > 1.0 ==> ml == DecimalToMoneyline(dec)
    ensures dec > 1.0 ==> ml != 0.0 && MoneylineToDecimal(ml) == dec
  {
    if dec >= 2.0 then
      (dec - 1.0) * 100.0
    else if dec > 1.0 then
      DecimalRoundTrip(dec);
      -100.0 / (dec - 1.0)
    else
      0.0
  }

  /** The market-implied probability 1 / dec, guarded against dec <= 0. */
  function MarketProbability(dec: real): (q: real)
    ensures dec > 0.0 ==> q * dec == 1.0
    ensures dec <= 0.0 ==> q == 0.0
    ensures dec > 1.0 ==> 0.0 < q < 1.0
  {
    if dec > 0.0 then
      var q := 1.0 / dec;
      assert q * dec == 1.0;
      assert dec > 1.0 ==> q < 1.0 by {
        if dec > 1.0 {
          ScalePositive(dec, q, 1.0);
        }
      }
      q
    else
      0.0
  }

  /** Quarter Kelly: a quarter of the full Kelly stake. */
  function QuarterKelly(full: real): (q: real)
    ensures full >= 0.0 ==> 0.0 <= q <= full
    ensures q > 0.0 <==> full > 0.0
    ensures full > 0.0 ==> q < full
    ensures 4.0 * q == full
  {
    full / 4.0
  }

  /** True when the page gets past both conversions of the offered price. */
  predicate Computable(offered: OfferedOdds) {
    match offered
    case American(ml) => ml != 0.0
    case Decimal(dec) => dec > 1.0
  }

  /** How the displayed metrics hang together at offered decimal odds above 1:
      EV per unit stake is p * dec - 1, the market probability is 1 / dec, the
      quarter Kelly stake lies between 0 and the full one, and Kelly recommends a
      stake exactly when the EV is positive. */
  predicate Coherent(m: ParlayResult) {
    && m.decimalOdds > 1.0
    && m.ev == m.parlayProb * m.decimalOdds - 1.0
    && m.marketProb * m.decimalOdds == 1.0
    && 0.0 <= m.quarterKelly <= m.fullKelly
    && (m.fullKelly > 0.0 <==> m.ev > 0.0)
  }

  /** The Kelly stakes shown: kelly_fraction at the offered decimal odds and the
      parlay probability, and a quarter of it. */
  predicate KellyShown(m: ParlayResult) {
    && m.fullKelly == KellyFraction(m.decimalOdds, m.parlayProb)
    && 4.0 * m.quarterKelly == m.fullKelly
  }

  /** The metrics from the parlay probabilities, the offered moneyline handed to
      calculate_ev_of_parlay and the offered decimal odds it stands for. */
  function Metrics(legs: seq<real>, offeredMl: real, dec: real): (m: ParlayResult)
    requires offeredMl != 0.0 && MoneylineToDecimal(offeredMl) == dec
    ensures m.decimalOdds == dec && m.parlayProb == ParlayProbability(legs)
    ensures Coherent(m) && KellyShown(m)
  {
    var p := ParlayProbability(legs);
    var full := KellyFraction(dec, p);
    var ev := ExpectedValue(p, offeredMl, 1.0);
    KellyIffPositiveExpectedValue(p, offeredMl);
    assert ev == p * dec - 1.0 by {
      assert ev == p * ((dec - 1.0) * 1.0) - (1.0 - p) * 1.0;
    }
    ParlayResult(p, MarketProbability(dec), dec, ev, full, QuarterKelly(full))
  }

  /** One run of the page, given the leg probabilities already collected. */
  function Evaluate(offered: OfferedOdds, legs: seq<real>): (r: Result<ParlayResult, Fault>)
    ensures r.Success? <==> Computable(offered)
    ensures r.Success? ==> r.value.parlayProb == ParlayProbability(legs)
    ensures r.Success? ==> Coherent(r.value) && KellyShown(r.value)
    ensures offered.Decimal? && r.Success? ==> r.value.decimalOdds == offered.dec
    ensures offered.American? && r.Success? ==> r.value.decimalOdds == MoneylineToDecimal(offered.ml)
  {
    match offered
    case American(ml) =>
      if ml == 0.0 then Failure(OfferedOddsConversion)
      else
        var m := Metrics(legs, ml, MoneylineToDecimal(ml));
        Success(m)
    case Decimal(dec) =>
      var ml := LocalDecimalToMoneyline(dec);
      if ml == 0.0 then Failure(ExpectedValueConversion)
      else
        assert dec > 1.0;
        var m := Metrics(legs, ml, dec);
        Success(m)
  }

  /** Decimal mode with odds not above 1: the page's guard turns the price into
      moneyline 0, and calculate_ev_of_parlay then divides by zero. */
  lemma DegenerateDecimalFails(dec: real, legs: seq<real>)
    requires dec <= 1.0
    ensures Evaluate(Decimal(dec), legs) == Failure(ExpectedValueConversion)
  {
  }

  /** American mode with moneyline 0 fails at the first conversion. */
  lemma ZeroMoneylineFails(legs: seq<real>)
    ensures Evaluate(American(0.0), legs) == Failure(OfferedOddsConversion)
  {
  }

  /** Entering the same price as American odds or as the equivalent decimal
      odds gives the same metrics, even when the moneyline is not canonical. */
  lemma FormatsAgree(ml: real, legs: seq<real>)
    requires ml != 0.0
    ensures Evaluate(American(ml), legs) == Evaluate(Decimal(MoneylineToDecimal(ml)), legs)
  {
    var dec := MoneylineToDecimal(ml);
    var ml' := LocalDecimalToMoneyline(dec);
    assert MoneylineToDecimal(ml') == dec;
    var p := ParlayProbability(legs);
    assert ExpectedValue(p, ml', 1.0) == ExpectedValue(p, ml, 1.0);
  }

  /** In American mode the market-implied probability is the leg formula
      american_to_probability applied to the offered price. */
  lemma AmericanMarketIsImplied(ml: real, legs: seq<real>)
    requires ml != 0.0
    ensures Evaluate(American(ml), legs).Success?
    ensures Evaluate(American(ml), legs).value.marketProb == AmericanToProbability(ml)
  {
  }

  /** The implied probability of each entered leg, in order. */
  function LegProbabilities(legMls: seq<real>): seq<real> {
    seq(|legMls|, i requires 0 <= i < |legMls| => AmericanToProbability(legMls[i]))
  }

  /** The sidebar loop over the legs: each entered moneyline becomes its implied
      probability, in order. */
  method CollectLegs(legMls: seq<real>) returns (legs: seq<real>)
    ensures |legs| == |legMls|
    ensures forall i :: 0 <= i < |legs| ==> legs[i] == AmericanToProbability(legMls[i])
    ensures AllProbabilities(legs)
    ensures legs == LegProbabilities(legMls)
  {
    legs := [];
    var i := 0;
    while i < |legMls|
      invariant 0 <= i <= |legMls|
      invariant |legs| == i
      invariant forall j :: 0 <= j < i ==> legs[j] == AmericanToProbability(legMls[j])
      invariant AllProbabilities(legs)
    {
      legs := legs + [AmericanToProbability(legMls[i])];
      i := i + 1;
    }
  }

  /** The whole page: collect the legs, then compute the metrics. The leg count
      widget has a minimum of one. */
  method Run(offered: OfferedOdds, legMls: seq<real>) returns (r: Result<ParlayResult, Fault>)
    requires |legMls| >= 1
    ensures r == Evaluate(offered, LegProbabilities(legMls))
    ensures r.Success? <==> Computable(offered)
    ensures r.Success? ==> IsProbability(r.value.parlayProb)
    ensures r.Success? ==> forall i :: 0 <= i < |legMls| ==> r.value.parlayProb <= AmericanToProbability(legMls[i])
    ensures r.Success? ==> Coherent(r.value) && KellyShown(r.value)
    ensures r.Success? ==> (r.value.parlayProb == 0.0 <==> exists i :: 0 <= i < |legMls| && legMls[i] == 0.0)
  {
    var legs := CollectLegs(legMls);
    r := Evaluate(offered, legs);
    if r.Success? {
      forall i | 0 <= i < |legMls| ensures r.value.parlayProb <= AmericanToProbability(legMls[i]) {
        ParlayAtMostEachLeg(legs, i);
      }
      ParlayZeroIff(legs);
      assert (exists i :: 0 <= i < |legs| && legs[i] == 0.0) <==> (exists i :: 0 <= i < |legMls| && legMls[i] == 0.0) by {
        if exists i :: 0 <= i < |legMls| && legMls[i] == 0.0 {
          var i :| 0 <= i < |legMls| && legMls[i] == 0.0;
          assert legs[i] == 0.0;
        }
        if exists i :: 0 <= i < |legs| && legs[i] == 0.0 {
          var i :| 0 <= i < |legs| && legs[i] == 0.0;
          assert AmericanToProbability(legMls[i]) == 0.0;
        }
      }
    }
  }

  /** The worked scenario: two even-money legs and an offered +300 parlay give a
      fair price with zero edge. */
  lemma EvenMoneyParlayScenario()
    ensures Evaluate(American(300.0), [AmericanToProbability(100.0), AmericanToProbability(100.0)])
         == Success(ParlayResult(0.25, 0.25, 4.0, 0.0, 0.0, 0.0))
  {
    assert AmericanToProbability(100.0) == 0.5;
    assert ParlayProbability([0.5, 0.5]) == 0.25;
  }
}
