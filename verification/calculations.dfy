/** The odds arithmetic of parlay_value/calculations.py, over exact reals.

    American (moneyline) odds: a positive price is the profit on a 100 stake,
    a negative price is the stake needed to profit 100. Decimal odds: the total
    payout (stake included) per unit staked. */
module Calculations {

  function Abs(x: real): real {
    if x < 0.0 then -x else x
  }

  predicate IsProbability(p: real) {
    0.0 <= p <= 1.0
  }

  predicate AllProbabilities(s: seq<real>) {
    forall i :: 0 <= i < |s| ==> IsProbability(s[i])
  }

  /** A moneyline that the conversion round trip leaves unchanged: the usual
      convention that no American price lies strictly between -100 and +100
      (with -100 written as +100). */
  predicate IsCanonicalMoneyline(ml: real) {
    ml >= 100.0 || ml < -100.0
  }

  // ---------------------------------------------------------------------------
  // Conversions

  /** moneyline_to_decimal. A zero moneyline falls into the negative branch and
      divides 100 by |0|, so it is excluded. */
  function MoneylineToDecimal(ml: real): (dec: real)
    requires ml != 0.0
    ensures dec > 1.0
    // a positive price is the profit per 100 staked
    ensures ml > 0.0 ==> (dec - 1.0) * 100.0 == ml
    // a negative price is the stake that profits 100
    ensures ml < 0.0 ==> (dec - 1.0) * -ml == 100.0
  {
    if ml > 0.0 then 1.0 + ml / 100.0 else 1.0 + 100.0 / Abs(ml)
  }

  /** decimal_to_moneyline of the library. Decimal odds of exactly 1 divide by
      zero and are excluded; odds below 1 are accepted and give a positive price. */
  function DecimalToMoneyline(dec: real): (ml: real)
    requires dec != 1.0
    ensures ml != 0.0
    ensures dec >= 2.0 ==> ml >= 100.0
    ensures 1.0 < dec < 2.0 ==> ml < -100.0
    ensures dec < 1.0 ==> ml > 0.0
    ensures dec > 1.0 ==> IsCanonicalMoneyline(ml)
  {
    if dec >= 2.0 then
      (dec - 1.0) * 100.0
    else
      var d := dec - 1.0;
      assert 1.0 < dec < 2.0 ==> 0.0 < d < 1.0 && 100.0 < 100.0 / d by {
        if 1.0 < dec < 2.0 {
          assert 100.0 / d * d == 100.0;
        }
      }
      -100.0 / d
  }

  /** Every decimal price above 1 survives a trip through American odds. */
  lemma DecimalRoundTrip(dec: real)
    requires dec > 1.0
    ensures MoneylineToDecimal(DecimalToMoneyline(dec)) == dec
  {
  }

  /** A moneyline survives a trip through decimal odds exactly when it is
      canonical; the others (0 < ml < 100 and -100 <= ml < 0) come back as a
      different, canonical price for the same payout. */
  lemma MoneylineRoundTrip(ml: real)
    requires ml != 0.0
    ensures DecimalToMoneyline(MoneylineToDecimal(ml)) == ml <==> IsCanonicalMoneyline(ml)
    ensures IsCanonicalMoneyline(DecimalToMoneyline(MoneylineToDecimal(ml)))
    ensures MoneylineToDecimal(DecimalToMoneyline(MoneylineToDecimal(ml))) == MoneylineToDecimal(ml)
  {
  }

  /** +100 and -100 are the same even-money price: both convert to 2.0, which
      converts back to +100. */
  lemma EvenMoneyPrices()
    ensures MoneylineToDecimal(100.0) == 2.0 && MoneylineToDecimal(-100.0) == 2.0
    ensures DecimalToMoneyline(2.0) == 100.0
  {
  }

  /** Below 1 the library's inverse returns the positive price 100 / (1 - dec),
      which does not lead back to the decimal odds it started from. */
  lemma SubUnitDecimalNotInverted(dec: real)
    requires dec < 1.0
    ensures DecimalToMoneyline(dec) * (1.0 - dec) == 100.0
    ensures DecimalToMoneyline(dec) > 0.0
    ensures MoneylineToDecimal(DecimalToMoneyline(dec)) != dec
  {
    var d := dec - 1.0;
    assert DecimalToMoneyline(dec) == -100.0 / d;
    assert -100.0 / d * (1.0 - dec) == 100.0 / d * d;
  }

  /** american_to_probability: the break-even win probability of a price. A
      zero price returns 0 instead of failing. */
  function AmericanToProbability(ml: real): (p: real)
    ensures ml == 0.0 ==> p == 0.0
    ensures ml != 0.0 ==> 0.0 < p < 1.0
    // the implied probability is the reciprocal of the decimal odds
    ensures ml != 0.0 ==> p * MoneylineToDecimal(ml) == 1.0
  {
    if ml > 0.0 then
      var p := 100.0 / (ml + 100.0);
      assert p * (ml + 100.0) == 100.0;
      assert p * (1.0 + ml / 100.0) == 1.0;
      p
    else if ml < 0.0 then
      var p := -ml / (-ml + 100.0);
      assert p * (-ml + 100.0) == -ml;
      assert p * (1.0 + 100.0 / -ml) == 1.0 by {
        assert 100.0 / -ml * -ml == 100.0;
        assert p * (1.0 + 100.0 / -ml) * -ml == p * (-ml + 100.0);
      }
      p
    else
      0.0
  }

  // ---------------------------------------------------------------------------
  // Parlay probability

  /** The product of two probabilities is a probability no larger than either. */
  lemma ProbabilityProduct(a: real, b: real)
    ensures IsProbability(a) && IsProbability(b) ==>
              IsProbability(a * b) && a * b <= a && a * b <= b
  {
  }

  lemma TailProbabilities(legs: seq<real>)
    requires |legs| > 0
    ensures AllProbabilities(legs) ==> AllProbabilities(legs[1..])
  {
    forall j | 0 <= j < |legs[1..]| ensures legs[1..][j] == legs[j + 1] {
    }
  }

  /** calculate_parlay_probability: the product of the leg probabilities (legs
      are taken to be independent). The empty product is 1. */
  function ParlayProbability(legs: seq<real>): (p: real)
    ensures |legs| == 0 ==> p == 1.0
    ensures AllProbabilities(legs) ==> IsProbability(p)
  {
    if |legs| == 0 then
      1.0
    else
      var rest := ParlayProbability(legs[1..]);
      TailProbabilities(legs);
      ProbabilityProduct(legs[0], rest);
      legs[0] * rest
  }

  /** Adding a leg multiplies the parlay probability by that leg's probability. */
  lemma {:induction false} ParlayAppend(legs: seq<real>, p: real)
    ensures ParlayProbability(legs + [p]) == ParlayProbability(legs) * p
  {
    if |legs| == 0 {
      assert ParlayProbability([p]) == p * ParlayProbability([]);
    } else {
      assert (legs + [p])[1..] == legs[1..] + [p];
      ParlayAppend(legs[1..], p);
    }
  }

  /** A parlay is never more likely than any one of its legs. */
  lemma {:induction false} ParlayAtMostEachLeg(legs: seq<real>, i: int)
    requires AllProbabilities(legs)
    requires 0 <= i < |legs|
    ensures ParlayProbability(legs) <= legs[i]
  {
    var tail := legs[1..];
    var rest := ParlayProbability(tail);
    TailProbabilities(legs);
    var a := legs[0];
    var prod := ParlayProbability(legs);
    assert prod == a * rest;
    ProbabilityProduct(a, rest);
    assert prod <= a && prod <= rest;
    if i > 0 {
      ParlayAtMostEachLeg(tail, i - 1);
      assert rest <= tail[i - 1];
      assert tail[i - 1] == legs[i];
    }
  }

  /** The parlay probability is zero exactly when some leg has probability zero. */
  lemma {:induction false} ParlayZeroIff(legs: seq<real>)
    ensures ParlayProbability(legs) == 0.0 <==> exists i :: 0 <= i < |legs| && legs[i] == 0.0
  {
    if |legs| > 0 {
      var rest := ParlayProbability(legs[1..]);
      assert ParlayProbability(legs) == legs[0] * rest;
      ParlayZeroIff(legs[1..]);
      if legs[0] == 0.0 || rest == 0.0 {
        assert ParlayProbability(legs) == 0.0;
      } else {
        assert ParlayProbability(legs) != 0.0;
      }
      if exists i :: 0 <= i < |legs[1..]| && legs[1..][i] == 0.0 {
        var i :| 0 <= i < |legs[1..]| && legs[1..][i] == 0.0;
        assert legs[i + 1] == 0.0;
      }
      if exists i :: 0 <= i < |legs| && legs[i] == 0.0 {
        var i :| 0 <= i < |legs| && legs[i] == 0.0;
        if i > 0 {
          assert legs[1..][i - 1] == 0.0;
        }
      }
    }
  }

  // ---------------------------------------------------------------------------
  // Expected value and Kelly

  /** calculate_ev_of_parlay: expected profit of a stake at the offered price
      when the bet wins with probability p. */
  function ExpectedValue(p: real, offeredMl: real, stake: real): (ev: real)
    requires offeredMl != 0.0
    // win the profit (dec - 1) * stake with probability p, lose the stake otherwise
    ensures ev == p * ((MoneylineToDecimal(offeredMl) - 1.0) * stake) - (1.0 - p) * stake
    ensures 0.0 <= p && 0.0 <= stake ==> ev >= -stake
  {
    var dec := MoneylineToDecimal(offeredMl);
    assert 0.0 <= p && 0.0 <= stake ==> p * dec * stake >= 0.0;
    p * dec * stake - stake
  }

  /** The bet has non-negative (positive) expected value exactly when the fair
      probability is at least (above) the probability implied by the price. */
  lemma ExpectedValueSign(p: real, offeredMl: real, stake: real)
    requires offeredMl != 0.0
    requires stake > 0.0
    ensures ExpectedValue(p, offeredMl, stake) >= 0.0 <==> p * MoneylineToDecimal(offeredMl) >= 1.0
    ensures ExpectedValue(p, offeredMl, stake) >= 0.0 <==> p >= AmericanToProbability(offeredMl)
    ensures ExpectedValue(p, offeredMl, stake) > 0.0 <==> p > AmericanToProbability(offeredMl)
  {
    var dec := MoneylineToDecimal(offeredMl);
    var q := AmericanToProbability(offeredMl);
    var ev := ExpectedValue(p, offeredMl, stake);
    var edge := p * dec - 1.0;
    assert ev == stake * edge;
    ScalePositive(stake, 0.0, edge);
    assert stake * 0.0 == 0.0;
    assert ev > 0.0 <==> edge > 0.0;
    assert q * dec == 1.0;
    ScalePositive(dec, q, p);
    assert dec * q == 1.0 && dec * p == p * dec;
    assert edge > 0.0 <==> p > q;
  }

  /** Multiplying by a positive factor keeps signs and order. */
  lemma ScalePositive(c: real, x: real, y: real)
    requires c > 0.0
    ensures x <= y <==> c * x <= c * y
    ensures x < y <==> c * x < c * y
  {
    assert c * y - c * x == c * (y - x);
  }

  function Max(a: real, b: real): real {
    if a >= b then a else b
  }

  /** kelly_fraction: the full Kelly stake as a fraction of the bankroll, floored
      at zero; no bet when the decimal odds are not above 1. */
  function KellyFraction(dec: real, p: real): (f: real)
    ensures f >= 0.0
    ensures f > 0.0 <==> dec > 1.0 && dec * p > 1.0
    // a positive stake is the edge dec * p - 1 divided by the net odds dec - 1
    ensures f > 0.0 ==> (dec - 1.0) * f == dec * p - 1.0
    ensures IsProbability(p) ==> f <= p
  {
    if dec > 1.0 then
      var raw := (dec * p - 1.0) / (dec - 1.0);
      assert raw * (dec - 1.0) == dec * p - 1.0;
      ScalePositive(dec - 1.0, 0.0, raw);
      ScalePositive(dec - 1.0, raw, p);
      Max(raw, 0.0)
    else
      0.0
  }

  /** The first-order condition of the expected log-growth
      G(f) = p * log(1 + b f) + (1 - p) * log(1 - f), b = dec - 1, whose
      derivative is p b / (1 + b f) - (1 - p) / (1 - f). A positive Kelly stake
      satisfies it cross-multiplied. For p < 1 both denominators are positive
      there, so G is defined at the stake and its derivative vanishes. At p >= 1
      the stake is at least 1: both sides are 0 at p = 1, log(1 - f) is
      undefined, and the identity is then only algebra. */
  lemma KellyStationaryPoint(dec: real, p: real)
    requires KellyFraction(dec, p) > 0.0
    ensures var f := KellyFraction(dec, p);
            p * (dec - 1.0) * (1.0 - f) == (1.0 - p) * (1.0 + (dec - 1.0) * f)
    ensures var f := KellyFraction(dec, p);
            p < 1.0 ==> 0.0 < 1.0 - f && 0.0 < 1.0 + (dec - 1.0) * f
    ensures p >= 1.0 ==> KellyFraction(dec, p) >= 1.0
  {
    var f := KellyFraction(dec, p);
    var b := dec - 1.0;
    assert b > 0.0 && b * f == dec * p - 1.0;
    FirstOrderAlgebra(p, b, f);
    if p < 1.0 {
      assert f <= p;
      ScalePositive(b, 0.0, f);
      assert b * 0.0 == 0.0;
    } else {
      ScalePositive(dec, 1.0, p);
      assert dec * 1.0 == dec;
      ScalePositive(b, 1.0, f);
      assert b * 1.0 == b;
    }
  }

  /** The algebra behind KellyStationaryPoint: b f == p (b + 1) - 1 makes the
      cross-multiplied derivative vanish. */
  lemma FirstOrderAlgebra(p: real, b: real, f: real)
    requires b * f == p * b + p - 1.0
    ensures p * b * (1.0 - f) == (1.0 - p) * (1.0 + b * f)
  {
    calc {
      p * b * (1.0 - f);
      p * b - p * (b * f);
      p * b - p * (p * b + p - 1.0);
      (1.0 - p) * (1.0 + b * f);
    }
  }

  lemma KellyPositiveIffEdge(dec: real, p: real)
    requires dec > 1.0
    ensures KellyFraction(dec, p) > 0.0 <==> dec * p > 1.0
  {
  }

  /** At a price given in American odds, Kelly recommends a stake exactly when
      the bet has positive expected value. */
  lemma KellyIffPositiveExpectedValue(p: real, offeredMl: real)
    requires offeredMl != 0.0
    ensures KellyFraction(MoneylineToDecimal(offeredMl), p) > 0.0 <==> ExpectedValue(p, offeredMl, 1.0) > 0.0
  {
    var dec := MoneylineToDecimal(offeredMl);
    KellyPositiveIffEdge(dec, p);
    var ev := ExpectedValue(p, offeredMl, 1.0);
    assert ev == p * dec - 1.0;
    assert dec * p == p * dec;
  }
}
