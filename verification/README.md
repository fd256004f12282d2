# Parlay EV calculator — a Dafny model of the odds arithmetic

This project models the calculation core of a small parlay calculator: the
conversions between American (moneyline) and decimal odds, the implied win
probability of a price, the parlay probability as the product of independent
leg probabilities, the expected value of a stake at the offered price, and the
full Kelly stake fraction floored at zero (module `Calculations`, from
`parlay_value/calculations.py`). It also models the part of the Streamlit page
that has logic (module `App`, from `app.py`): the page's own
`decimal_to_moneyline`, which answers 0 for decimal odds not above 1; the
market-implied probability `1 / dec` guarded against `dec <= 0`; quarter Kelly;
the loop that turns the entered leg moneylines into probabilities; and the order
in which the page wires the library together (`App.Evaluate`, `App.Run`).

All quantities are exact Dafny `real`s, so the round trips and bounds are proved
outright, not up to a tolerance.

Division by zero in the library is a precondition: `MoneylineToDecimal`
requires a non-zero moneyline (`100.0 / abs(0)` raises), and
`DecimalToMoneyline` requires decimal odds other than 1. The page itself does
not guard these, so `App.Evaluate` returns `Failure(fault)` exactly where the
page would stop with a `ZeroDivisionError`:

- American mode with offered moneyline 0: `moneyline_to_decimal(0)` at
  `app.py:32` (`OfferedOddsConversion`);
- Decimal mode with offered decimal odds `<= 1`: the page's
  `decimal_to_moneyline` answers 0, which `calculate_ev_of_parlay` passes to
  `moneyline_to_decimal` at `app.py:69` (`ExpectedValueConversion`). The
  guard meant to avoid the division therefore only moves it.

The code has no error value for invalid odds: a zero moneyline or decimal odds
of exactly 1 raise `ZeroDivisionError` in the conversions, and
`american_to_probability(0)` returns 0 for a leg, which the parlay product then
turns into a parlay probability of 0. The library's `decimal_to_moneyline`
accepts decimal odds below 1 and returns a positive price that does not convert
back (`Calculations.SubUnitDecimalNotInverted`).

`Calculations.KellyFraction` bounds the stake by the win probability only for
`0 <= p <= 1`: for a negative `p` the floored stake 0 is above `p`.

Files: `results.dfy` (the `Result` type), `calculations.dfy`, `app.dfy`.

## Model

| member | source | states |
|---|---|---|
| Calculations.MoneylineToDecimal | parlay_value/calculations.py:3-12 | for a non-zero moneyline the decimal odds exceed 1; a positive price is the profit `(dec-1)*100` on a 100 stake, a negative price is the stake `-ml` that profits 100 at `dec` |
| Calculations.DecimalToMoneyline | parlay_value/calculations.py:14-21 | for decimal odds other than 1 the price is never 0; at least 100 from 2.0 up, below -100 between 1 and 2, positive below 1; canonical for every decimal above 1 |
| Calculations.DecimalRoundTrip | parlay_value/calculations.py:9-21 | every decimal price above 1 converts to American odds and back to itself |
| Calculations.MoneylineRoundTrip | parlay_value/calculations.py:9-21 | a moneyline converts to decimal and back to itself exactly when it is at least 100 or below -100; otherwise it comes back as a canonical price with the same decimal odds |
| Calculations.EvenMoneyPrices | parlay_value/calculations.py:9-21 | +100 and -100 both convert to 2.0, and 2.0 converts back to +100 |
| Calculations.SubUnitDecimalNotInverted | parlay_value/calculations.py:18-21 | decimal odds below 1 give the positive price `100/(1-dec)`, whose decimal odds are not the ones it came from |
| Calculations.AmericanToProbability | parlay_value/calculations.py:49-60 | a zero price gives 0; any other price gives a probability strictly between 0 and 1 that is the reciprocal of its decimal odds |
| Calculations.ParlayProbability | parlay_value/calculations.py:23-28 | the empty product (no legs) is 1, as for `math.prod`; the product of leg probabilities in [0,1] lies in [0,1] |
| Calculations.ParlayAppend | parlay_value/calculations.py:23-28 | adding a leg multiplies the parlay probability by that leg's probability |
| Calculations.ParlayAtMostEachLeg | parlay_value/calculations.py:23-28 | with every leg in [0,1], the parlay is no more likely than any single leg |
| Calculations.ParlayZeroIff | parlay_value/calculations.py:23-28 | the parlay probability is 0 exactly when some leg's probability is 0 |
| Calculations.ExpectedValue | parlay_value/calculations.py:30-37 | the EV is the profit `(dec-1)*stake` won with probability p minus the stake lost with probability `1-p`; with p and stake non-negative it never goes below `-stake` |
| Calculations.ExpectedValueSign | parlay_value/calculations.py:30-37 | for a positive stake the EV is non-negative exactly when `p*dec >= 1`, i.e. when p is at least the price's implied probability, and positive exactly when p exceeds it |
| Calculations.KellyFraction | parlay_value/calculations.py:39-47 | the stake is never negative; it is positive exactly when `dec > 1` and `dec*p > 1`, and then `(dec-1)*f == dec*p - 1`; for a probability p it is at most p |
| Calculations.KellyStationaryPoint | parlay_value/calculations.py:39-47 | a positive Kelly stake satisfies the cross-multiplied first-order condition `p*b*(1-f) == (1-p)*(1+b*f)` (b = dec-1) of the expected log-growth `p*log(1+b f) + (1-p)*log(1-f)`; for p < 1 both denominators `1-f` and `1+b f` are positive, so the growth is defined there and its derivative vanishes; for p >= 1 the stake is at least 1 |
| Calculations.KellyIffPositiveExpectedValue | parlay_value/calculations.py:39-47 | at a price given in American odds Kelly recommends a stake exactly when the EV per unit stake is positive |
| App.LocalDecimalToMoneyline | app.py:39-45 | for decimal odds not above 1 it answers 0; above 1 it agrees with the library's conversion and converts back to the decimal odds it started from |
| App.MarketProbability | app.py:67 | for positive decimal odds it is their reciprocal, otherwise 0; above 1 it lies strictly between 0 and 1 |
| App.QuarterKelly | app.py:71-72 | the quarter stake is exactly a quarter of the full stake (`4*q == full`); for a non-negative full stake it lies between 0 and the full stake, is positive exactly when the full stake is, and is then smaller |
| App.Metrics | app.py:66-72 | the displayed metrics carry the parlay probability of the legs and the offered decimal odds, and are coherent: EV is `p*dec - 1`, market probability `1/dec`, `0 <= quarter <= full`, Kelly positive exactly when EV positive; and the Kelly stakes shown are `KellyFraction(dec, p)` and exactly a quarter of it |
| App.Evaluate | app.py:27-72 | the page produces metrics exactly when the offered moneyline is non-zero (American mode) or the offered decimal odds exceed 1 (Decimal mode); the decimal odds shown are the offered ones (converted in American mode), the parlay probability is the product of the legs, the Kelly stakes are `KellyFraction` at those odds and a quarter of it, and the metrics are coherent, so in Decimal mode the round-tripped moneyline still gives EV `p*dec - 1` |
| App.DegenerateDecimalFails | app.py:39-69 | in Decimal mode, odds not above 1 become moneyline 0 and the EV conversion divides by zero |
| App.ZeroMoneylineFails | app.py:27-32 | in American mode an offered moneyline of 0 fails at the first conversion |
| App.FormatsAgree | app.py:27-47 | entering a price as American odds or as its decimal odds gives identical metrics, also for non-canonical moneylines |
| App.AmericanMarketIsImplied | app.py:67 | in American mode the market probability equals the implied probability of the offered price |
| App.CollectLegs | app.py:52-63 | one probability per entered leg, in order, each the implied probability of that leg's moneyline and each in [0,1] |
| App.Run | app.py:27-72 | with at least one leg, the result is the pipeline applied to the legs' implied probabilities; it succeeds exactly for a computable offer; the parlay probability lies in [0,1], is at most every leg's implied probability, is 0 exactly when some leg's moneyline is 0, and the metrics are coherent with the Kelly stakes fixed |
| App.EvenMoneyParlayScenario | app.py:66-72 | two +100 legs at an offered +300 give parlay and market probability 0.25, decimal odds 4, EV 0 and no Kelly stake |

## Left out

- The Streamlit widgets, sidebar layout, metric rendering and percentage formatting (`app.py:16-91`): presentation only. The values the widgets deliver become the parameters of `App.Run`.
- `reset_all` and the rerun it triggers (`app.py:10-13`): session-state handling of a UI framework that is not part of this model.
- Floating-point rounding, NaN and infinities: every quantity is an exact `real`.
- Whole-number inputs: the page's number inputs for moneylines step by 1; the model accepts any real moneyline, a superset.
- `math.prod` is modelled as a recursive product over `seq<real>`; the order of multiplication does not matter over exact reals.
- The `stake` default of 1.0 in `calculate_ev_of_parlay` is an explicit parameter; the page always passes the default, so `App.Metrics` uses 1.0.
