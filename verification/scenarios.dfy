/**
 * The four market scenarios of the result screen. Each scenario has a pair of
 * dollar-per-token factors; multiplying the allocation by them gives the
 * range the scenario shows.
 */
module Scenarios {

  datatype Scenario = Ideal | Bull | SuperBull | GigaBull

  /** The order the result screen lists the scenarios in. */
  const Order: seq<Scenario> := [Ideal, Bull, SuperBull, GigaBull]

  /** The low and high factor of one scenario. */
  datatype Factors = Factors(low: real, high: real)

  /** A dollar range: the allocation times each factor. */
  datatype Range = Range(low: real, high: real)

  /** The `cases` object: one range per scenario. */
  datatype Cases = Cases(ideal: Range, bull: Range, superbull: Range, gigabull: Range)

  /** The multiplier table; every scenario's factors are positive and increasing. */
  function Multipliers(s: Scenario): (f: Factors)
    ensures 0.0 < f.low < f.high
  {
    match s
    case Ideal => Factors(0.05, 0.075)
    case Bull => Factors(0.075, 0.1)
    case SuperBull => Factors(0.12, 0.17)
    case GigaBull => Factors(0.17, 0.2)
  }

  /** The range stored for scenario s. */
  function CaseOf(c: Cases, s: Scenario): (r: Range) {
    match s
    case Ideal => c.ideal
    case Bull => c.bull
    case SuperBull => c.superbull
    case GigaBull => c.gigabull
  }

  /** The ranges for an allocation: each scenario's factors scaled by the allocation. */
  function CasesFor(allocation: int): (c: Cases)
    ensures forall s :: CaseOf(c, s) ==
                        Range(allocation as real * Multipliers(s).low, allocation as real * Multipliers(s).high)
  {
    var a := allocation as real;
    Cases(
      Range(a * Multipliers(Ideal).low, a * Multipliers(Ideal).high),
      Range(a * Multipliers(Bull).low, a * Multipliers(Bull).high),
      Range(a * Multipliers(SuperBull).low, a * Multipliers(SuperBull).high),
      Range(a * Multipliers(GigaBull).low, a * Multipliers(GigaBull).high))
  }

  /** Each scenario's factors sit at or above the previous scenario's: the factor ranges never overlap. */
  lemma FactorsOrdered(i: int)
    requires 0 < i < |Order|
    ensures Multipliers(Order[i - 1]).high <= Multipliers(Order[i]).low
  {
  }

  /** Ideal/bull and superbull/gigabull share an end point; bull and superbull leave a gap. */
  lemma FactorsTouch()
    ensures Multipliers(Ideal).high == Multipliers(Bull).low
    ensures Multipliers(Bull).high < Multipliers(SuperBull).low
    ensures Multipliers(SuperBull).high == Multipliers(GigaBull).low
  {
  }

  /** For a non-negative allocation every range is ordered, and strictly so for a positive one. */
  lemma {:induction false} RangesOrdered(allocation: int, s: Scenario)
    requires allocation >= 0
    ensures CaseOf(CasesFor(allocation), s).low <= CaseOf(CasesFor(allocation), s).high
    ensures allocation > 0 ==> CaseOf(CasesFor(allocation), s).low < CaseOf(CasesFor(allocation), s).high
  {
    var a := allocation as real;
    var f := Multipliers(s);
    ScaleMonotone(a, f.low, f.high);
  }

  /** Listed in order, each range starts at or above where the previous one ends. */
  lemma {:induction false} RangesIncrease(allocation: int, i: int)
    requires allocation >= 0
    requires 0 < i < |Order|
    ensures CaseOf(CasesFor(allocation), Order[i - 1]).high <= CaseOf(CasesFor(allocation), Order[i]).low
  {
    FactorsOrdered(i);
    ScaleMonotone(allocation as real, Multipliers(Order[i - 1]).high, Multipliers(Order[i]).low);
  }

  /** Dividing any scenario's range by a non-zero allocation gives back that scenario's factors. */
  lemma CasesRecoverFactors(allocation: int, s: Scenario)
    requires allocation != 0
    ensures CaseOf(CasesFor(allocation), s).low / allocation as real == Multipliers(s).low
    ensures CaseOf(CasesFor(allocation), s).high / allocation as real == Multipliers(s).high
  {
    var a, f, r := allocation as real, Multipliers(s), CaseOf(CasesFor(allocation), s);
    DivideBack(a, f.low, r.low);
    DivideBack(a, f.high, r.high);
  }

  /** y == a * x with a non-zero gives back x as y / a. */
  lemma DivideBack(a: real, x: real, y: real)
    requires a != 0.0 && y == a * x
    ensures y / a == x
  {
  }

  /** Scaling by a non-negative amount keeps order, strictly when the amount is positive. */
  lemma ScaleMonotone(a: real, x: real, y: real)
    requires a >= 0.0
    requires x <= y
    ensures a * x <= a * y
    ensures a > 0.0 && x < y ==> a * x < a * y
  {
  }
}
