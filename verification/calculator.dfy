/**
 * The allocation calculator behind the "calculate" button: validate the
 * form, look up the tester's tier and compute the estimated token allocation
 * and its four scenario ranges; then the result screen's choice between
 * showing those ranges and showing placeholders.
 */
module Calculator {
  import opened Wrappers
  import opened Rounding
  import opened Username
  import opened Tiers
  import opened Scenarios

  /** The one error the form reports, whatever rule failed. */
  datatype Error = InvalidDetails

  /** Levels below this get a zero allocation without an XP check. */
  const LowestTiered := 4
  /** The XP the top level requires, written as a literal in the handler. */
  const TopMinXP := 1155
  /** The top level's flat allocation. */
  const TopAllocation := 375_000

  /** The result handed to the result screen. Levels 1 to 3 carry no cases. */
  datatype Estimate = Estimate(username: string, allocation: int, cases: Option<Cases>)

  /** What the result screen shows in the four scenario slots. */
  datatype ScenarioView = Placeholders | Ranges(cases: Cases)

  /**
   * The unrounded tiered (4 to 9) allocation, as the handler writes it: the
   * tier's mean share scaled by 1 + the tester's position inside the XP band.
   */
  function ScaledMeanShare(t: Tier, xp: int): (share: real)
    requires WellFormed(t)
    ensures xp == t.minXP ==> share == t.pool as real / t.users as real
    ensures xp == t.maxXP ==> share == 2.0 * (t.pool as real / t.users as real)
  {
    var meanToken := t.pool as real / t.users as real;
    var xpScore := (xp - t.minXP) as real / (t.maxXP - t.minXP) as real;
    meanToken * (1.0 + xpScore)
  }

  /**
   * The same allocation in integers: the rounded quotient of
   * pool * (band + offset) by users * band, where band is the width of the
   * tier's XP range and offset is xp's distance from its bottom.
   */
  function TieredShare(t: Tier, xp: int): (a: int)
    requires WellFormed(t)
    ensures t.minXP <= xp && t.users <= t.pool ==> a > 0
  {
    var band := t.maxXP - t.minXP;
    TieredSharePositive(t, xp);
    RoundDiv(t.pool * (band + (xp - t.minXP)), t.users * band)
  }

  /**
   * The XP test of the handler: the top level needs 1155 or more, the others
   * the tier's band. On the table's own rows, 1155 is the top tier's minXP, so
   * every level rejects XP below its minXP, and only levels below the top
   * also reject XP above their maxXP.
   */
  function XPRejected(level: int, t: Tier, xp: int): (rejected: bool)
    ensures TierOf(level) == Some(t) ==> (rejected <==> xp < t.minXP || (level != TopLevel && xp > t.maxXP))
  {
    (level == TopLevel && xp < TopMinXP) || (level != TopLevel && (xp < t.minXP || xp > t.maxXP))
  }

  /**
   * The calculate handler on already parsed inputs: None stands for a field
   * parseInt read as NaN.
   */
  function Calculate(username: string, level: Option<int>, xp: Option<int>): (r: Result<Estimate, Error>)
    ensures r.Success? ==> level.Some? && xp.Some? && 1 <= level.value <= TopLevel
    ensures r.Success? ==> r.value.username == Normalize(username) && |r.value.username| > 0
    ensures r.Success? ==> (r.value.allocation == 0 <==> level.value < LowestTiered)
    ensures r.Success? ==> (r.value.cases.Some? <==> level.value >= LowestTiered)
    ensures r.Success? && r.value.cases.Some? ==> r.value.cases.value == CasesFor(r.value.allocation)
  {
    var name := Normalize(username);
    if level.None? || xp.None? || |name| == 0 || level.value < 1 || level.value > TopLevel then
      Failure(InvalidDetails)
    else if level.value < LowestTiered then
      Success(Estimate(name, 0, None))
    else
      match TierOf(level.value)
      case None => Failure(InvalidDetails)
      case Some(t) =>
        if XPRejected(level.value, t, xp.value) then
          Failure(InvalidDetails)
        else
          var allocation := if level.value == TopLevel then TopAllocation else TieredShare(t, xp.value);
          Success(Estimate(name, allocation, Some(CasesFor(allocation))))
  }

  /** The `!allocation` test of the result screen: a zero allocation shows placeholders. */
  function View(e: Estimate): (v: ScenarioView)
    requires e.allocation != 0 ==> e.cases.Some?
    ensures v.Ranges? ==> Some(v.cases) == e.cases
    ensures v.Placeholders? <==> e.allocation == 0
  {
    if e.allocation == 0 then Placeholders else Ranges(e.cases.value)
  }

  /** The integer form is exactly Math.round of the handler's expression, evaluated on exact rationals. */
  lemma {:induction false} TieredShareIsRounded(t: Tier, xp: int)
    requires WellFormed(t)
    ensures TieredShare(t, xp) == Round(ScaledMeanShare(t, xp))
  {
    var b, e := t.maxXP - t.minXP, xp - t.minXP;
    var P, U, B, E := t.pool as real, t.users as real, b as real, e as real;
    var x := ScaledMeanShare(t, xp);
    assert x == (P / U) * (1.0 + E / B);
    QuotientProduct(P, U, E, B);
    var N, D := t.pool * (b + e), t.users * b;
    CastProduct(t.pool, b + e);
    CastProduct(t.users, b);
    assert (b + e) as real == B + E;
    assert x == N as real / D as real;
    RoundDivIsRound(N, D);
  }

  /** (p / u) * (1 + e / b) is the single quotient p * (b + e) / (u * b). */
  lemma QuotientProduct(p: real, u: real, e: real, b: real)
    requires u > 0.0 && b > 0.0
    ensures (p / u) * (1.0 + e / b) == (p * (b + e)) / (u * b)
  {
    var m, s := p / u, e / b;
    assert m * u == p;
    assert s * b == e;
    assert (1.0 + s) * b == b + e;
    calc {
      (m * (1.0 + s)) * (u * b);
      (m * u) * ((1.0 + s) * b);
      p * (b + e);
    }
    DivideOut(m * (1.0 + s), p * (b + e), u * b);
  }

  /** The real value of an integer product is the product of the real values. */
  lemma CastProduct(x: int, y: int)
    ensures (x * y) as real == x as real * y as real
  {
  }

  /** From the bottom of the band up, a tier whose mean share is at least one token pays a positive amount. */
  lemma {:induction false} TieredSharePositive(t: Tier, xp: int)
    requires WellFormed(t)
    ensures t.minXP <= xp && t.users <= t.pool ==>
      RoundDiv(t.pool * ((t.maxXP - t.minXP) + (xp - t.minXP)), t.users * (t.maxXP - t.minXP)) > 0
  {
    if t.minXP <= xp && t.users <= t.pool {
      var b := t.maxXP - t.minXP;
      var d := t.users * b;
      var n := t.pool * (b + (xp - t.minXP));
      MulMonotone(t.pool, b, b + (xp - t.minXP));
      MulMonotone(b, t.users, t.pool);
      assert t.pool * b == b * t.pool && t.users * b == b * t.users;
      assert d <= n;
      RoundDivPositive(n, d);
    }
  }

  /** A missing level or XP, an empty name or a level outside 1..10 is rejected with the one error. */
  lemma RejectsMalformed(username: string, level: Option<int>, xp: Option<int>)
    requires level.None? || xp.None? || Normalize(username) == [] || !(1 <= level.value <= TopLevel)
    ensures Calculate(username, level, xp) == Failure(InvalidDetails)
  {
  }

  /** Levels 1 to 3 are accepted with a zero allocation for any XP, and show placeholders. */
  lemma LowLevelsGetZero(username: string, level: int, xp: int)
    requires 1 <= level < LowestTiered
    requires Normalize(username) != []
    ensures Calculate(username, Some(level), Some(xp)) == Success(Estimate(Normalize(username), 0, None))
    ensures View(Calculate(username, Some(level), Some(xp)).value) == Placeholders
  {
  }

  /** The top level needs XP 1155, the tier's own minimum, and then pays a flat 375000 with no upper XP bound. */
  lemma TopLevelFlat(username: string, xp: int)
    requires Normalize(username) != []
    ensures TopMinXP == TierOf(TopLevel).value.minXP
    ensures Calculate(username, Some(TopLevel), Some(xp)).Success? <==> xp >= TopMinXP
    ensures xp >= TopMinXP ==>
      Calculate(username, Some(TopLevel), Some(xp)).value.allocation
        == TopAllocation == TierOf(TopLevel).value.pool / TierOf(TopLevel).value.users
  {
    TopShareExact();
  }

  /** For levels 4 to 9, exactly the XP values inside the tier's band are accepted. */
  lemma TieredXPBounds(username: string, level: int, xp: int)
    requires LowestTiered <= level < TopLevel
    requires Normalize(username) != []
    ensures Calculate(username, Some(level), Some(xp)).Success?
        <==> TierOf(level).value.minXP <= xp <= TierOf(level).value.maxXP
  {
  }

  /** An accepted tiered estimate: Math.round of mean share times (1 + XP score), and the ranges for it. */
  lemma {:induction false} TieredAllocation(username: string, level: int, xp: int)
    requires LowestTiered <= level < TopLevel
    requires Normalize(username) != []
    requires TierOf(level).value.minXP <= xp <= TierOf(level).value.maxXP
    ensures var a := Round(ScaledMeanShare(TierOf(level).value, xp));
      Calculate(username, Some(level), Some(xp)) == Success(Estimate(Normalize(username), a, Some(CasesFor(a))))
  {
    TieredShareIsRounded(TierOf(level).value, xp);
  }

  /** An accepted tiered estimate carries the tier's share for that XP and the ranges for it. */
  lemma TieredResult(username: string, level: int, xp: int)
    requires LowestTiered <= level < TopLevel
    requires Normalize(username) != []
    requires TierOf(level).value.minXP <= xp <= TierOf(level).value.maxXP
    ensures var a := TieredShare(TierOf(level).value, xp);
      Calculate(username, Some(level), Some(xp)) == Success(Estimate(Normalize(username), a, Some(CasesFor(a))))
  {
  }

  /** At the bottom of the band the allocation is the tier's mean share, at the top twice it, both rounded. */
  lemma {:induction false} AllocationAtBandEnds(username: string, level: int)
    requires LowestTiered <= level < TopLevel
    requires Normalize(username) != []
    ensures var t := TierOf(level).value;
      && Calculate(username, Some(level), Some(t.minXP)).value.allocation == Round(t.pool as real / t.users as real)
      && Calculate(username, Some(level), Some(t.maxXP)).value.allocation == Round(2.0 * t.pool as real / t.users as real)
  {
    var t := TierOf(level).value;
    TieredResult(username, level, t.minXP);
    TieredResult(username, level, t.maxXP);
    ShareAtBandEnds(t);
    RoundDivIsRound(t.pool, t.users);
    RoundDivIsRound(2 * t.pool, t.users);
    assert (2 * t.pool) as real == 2.0 * t.pool as real;
  }

  /** The tier's share at the ends of its band: the rounded mean share, and the rounded double of it. */
  lemma {:induction false} ShareAtBandEnds(t: Tier)
    requires WellFormed(t)
    ensures TieredShare(t, t.minXP) == RoundDiv(t.pool, t.users)
    ensures TieredShare(t, t.maxXP) == RoundDiv(2 * t.pool, t.users)
  {
    var b := t.maxXP - t.minXP;
    assert t.pool * (b + 0) == t.pool * b;
    RoundDivScale(t.pool, t.users, b);
    assert t.pool * (b + b) == (2 * t.pool) * b;
    RoundDivScale(2 * t.pool, t.users, b);
  }

  /** Within a tier, more XP never means a smaller allocation. */
  lemma {:induction false} AllocationMonotone(username: string, level: int, xp1: int, xp2: int)
    requires LowestTiered <= level < TopLevel
    requires Normalize(username) != []
    requires TierOf(level).value.minXP <= xp1 <= xp2 <= TierOf(level).value.maxXP
    ensures Calculate(username, Some(level), Some(xp1)).value.allocation
         <= Calculate(username, Some(level), Some(xp2)).value.allocation
  {
    TieredResult(username, level, xp1);
    TieredResult(username, level, xp2);
    ShareMonotone(TierOf(level).value, xp1, xp2);
  }

  /** A tier's share grows with XP. */
  lemma {:induction false} ShareMonotone(t: Tier, xp1: int, xp2: int)
    requires WellFormed(t)
    requires xp1 <= xp2
    ensures TieredShare(t, xp1) <= TieredShare(t, xp2)
  {
    var b := t.maxXP - t.minXP;
    MulMonotone(t.pool, b + (xp1 - t.minXP), b + (xp2 - t.minXP));
    RoundDivMonotone(t.pool * (b + (xp1 - t.minXP)), t.pool * (b + (xp2 - t.minXP)), t.users * b);
  }

  /** Every accepted estimate from level 4 up is positive, so its scenario ranges are shown. */
  lemma TieredShowsRanges(username: string, level: int, xp: int)
    requires Calculate(username, Some(level), Some(xp)).Success?
    ensures var e := Calculate(username, Some(level), Some(xp)).value;
      && (e.allocation != 0 ==> e.cases.Some?)
      && (level >= LowestTiered ==> e.allocation > 0 && View(e) == Ranges(CasesFor(e.allocation)))
      && (level < LowestTiered ==> View(e) == Placeholders)
  {
  }

  /** Every XP from 150 up is accepted at exactly one of the levels 4 to 10; below 150 at none of them. */
  lemma BandsPartition(username: string, xp: int)
    requires Normalize(username) != []
    ensures xp < TierOf(LowestTiered).value.minXP ==>
      forall level :: LowestTiered <= level <= TopLevel ==> Calculate(username, Some(level), Some(xp)).Failure?
    ensures xp >= TierOf(LowestTiered).value.minXP ==>
      exists level :: LowestTiered <= level <= TopLevel && Calculate(username, Some(level), Some(xp)).Success?
    ensures forall l1, l2 ::
      LowestTiered <= l1 <= TopLevel && LowestTiered <= l2 <= TopLevel &&
      Calculate(username, Some(l1), Some(xp)).Success? && Calculate(username, Some(l2), Some(xp)).Success?
      ==> l1 == l2
  {
    NoLevelBelowBands(username, xp);
    SomeLevelAccepts(username, xp);
    AtMostOneLevel(username, xp);
  }

  /** Below the lowest band no tiered level accepts the XP. */
  lemma NoLevelBelowBands(username: string, xp: int)
    requires Normalize(username) != []
    ensures xp < TierOf(LowestTiered).value.minXP ==>
      forall level :: LowestTiered <= level <= TopLevel ==> Calculate(username, Some(level), Some(xp)).Failure?
  {
    forall level | LowestTiered <= level <= TopLevel
      ensures xp < TierOf(LowestTiered).value.minXP ==> Calculate(username, Some(level), Some(xp)).Failure?
    {
      AcceptedIffInBand(username, level, xp);
    }
  }

  /** From the lowest band up, the level BandOf picks accepts the XP. */
  lemma SomeLevelAccepts(username: string, xp: int)
    requires Normalize(username) != []
    ensures xp >= TierOf(LowestTiered).value.minXP ==>
      exists level :: LowestTiered <= level <= TopLevel && Calculate(username, Some(level), Some(xp)).Success?
  {
    if xp >= TierOf(LowestTiered).value.minXP {
      var level := BandOf(xp);
      AcceptedIffInBand(username, level, xp);
      assert Calculate(username, Some(level), Some(xp)).Success?;
    }
  }

  /** Two tiered levels that both accept the XP are the same level. */
  lemma AtMostOneLevel(username: string, xp: int)
    requires Normalize(username) != []
    ensures forall l1, l2 ::
      LowestTiered <= l1 <= TopLevel && LowestTiered <= l2 <= TopLevel &&
      Calculate(username, Some(l1), Some(xp)).Success? && Calculate(username, Some(l2), Some(xp)).Success?
      ==> l1 == l2
  {
    forall l1, l2 | LowestTiered <= l1 <= TopLevel && LowestTiered <= l2 <= TopLevel &&
      Calculate(username, Some(l1), Some(xp)).Success? && Calculate(username, Some(l2), Some(xp)).Success?
      ensures l1 == l2
    {
      AcceptedIffInBand(username, l1, xp);
      AcceptedIffInBand(username, l2, xp);
      BandUnique(l1, l2, xp);
    }
  }

  /** A tiered level accepts exactly the XP values of its band. */
  lemma AcceptedIffInBand(username: string, level: int, xp: int)
    requires Normalize(username) != []
    requires LowestTiered <= level <= TopLevel
    ensures Calculate(username, Some(level), Some(xp)).Success? <==> InBand(level, xp)
  {
    if level < TopLevel {
      TieredXPBounds(username, level, xp);
    } else {
      TopLevelFlat(username, xp);
    }
  }

  /** No XP value lies in two bands. */
  lemma BandUnique(l1: int, l2: int, xp: int)
    requires LowestTiered <= l1 <= TopLevel && LowestTiered <= l2 <= TopLevel
    requires InBand(l1, xp) && InBand(l2, xp)
    ensures l1 == l2
  {
  }

  /** Every allocation the calculator produces stays below one million tokens. */
  lemma {:induction false} AllocationBelowMillion(username: string, level: int, xp: int)
    requires Calculate(username, Some(level), Some(xp)).Success?
    ensures 0 <= Calculate(username, Some(level), Some(xp)).value.allocation < 1_000_000
  {
    if LowestTiered <= level < TopLevel {
      var t := TierOf(level).value;
      var b := t.maxXP - t.minXP;
      var top := Calculate(username, Some(level), Some(t.maxXP)).value.allocation;
      assert Calculate(username, Some(level), Some(xp)).value.allocation <= top by {
        TieredXPBounds(username, level, xp);
        AllocationMonotone(username, level, xp, t.maxXP);
      }
      assert top == RoundDiv(2 * t.pool, t.users) by {
        TieredResult(username, level, t.maxXP);
        ShareAtBandEnds(t);
      }
      DoubleShareBound(level);
    }
  }

  /** Twice the mean share of tiers 4 to 9, rounded, is at most 306818 (tier 9's). */
  lemma DoubleShareBound(level: int)
    requires LowestTiered <= level < TopLevel
    ensures RoundDiv(2 * TierOf(level).value.pool, TierOf(level).value.users) <= 306_818
  {
    var t := TierOf(level).value;
    assert RoundDiv(2 * t.pool, t.users) == (4 * t.pool + t.users) / (2 * t.users);
  }

  /**
   * Shares are not ordered across the first band boundaries: the top of
   * level 4 pays more than the bottom of level 5, and the top of level 5 more
   * than the bottom of level 6 (TieredResult makes these the allocations).
   */
  lemma BoundaryInversions()
    ensures TieredShare(TierOf(4).value, 299) == 3300 > TieredShare(TierOf(5).value, 300) == 3226
    ensures TieredShare(TierOf(5).value, 454) == 6452 > TieredShare(TierOf(6).value, 455) == 5485
  {
    BandTopShare(4, 3300);
    BandBottomShare(5, 3226);
    BandTopShare(5, 6452);
    BandBottomShare(6, 5485);
  }

  /** The share at the bottom of a tier's band, given its rounding bounds for pool / users. */
  lemma BandBottomShare(level: int, a: int)
    requires LowestTiered <= level < TopLevel
    requires var t := TierOf(level).value; 2 * t.users * a - t.users <= 2 * t.pool < 2 * t.users * a + t.users
    ensures TieredShare(TierOf(level).value, TierOf(level).value.minXP) == a
  {
    var t := TierOf(level).value;
    ShareAtBandEnds(t);
    NearestQuotientUnique(t.pool, t.users, a, RoundDiv(t.pool, t.users));
  }

  /** The share at the top of a tier's band, given its rounding bounds for 2 * pool / users. */
  lemma BandTopShare(level: int, a: int)
    requires LowestTiered <= level < TopLevel
    requires var t := TierOf(level).value; 2 * t.users * a - t.users <= 2 * (2 * t.pool) < 2 * t.users * a + t.users
    ensures TieredShare(TierOf(level).value, TierOf(level).value.maxXP) == a
  {
    var t := TierOf(level).value;
    ShareAtBandEnds(t);
    NearestQuotientUnique(2 * t.pool, t.users, a, RoundDiv(2 * t.pool, t.users));
  }

  /** The XP band a level accepts, the top band open above. */
  predicate InBand(level: int, xp: int)
    requires LowestTiered <= level <= TopLevel
  {
    if level == TopLevel then xp >= TopMinXP
    else TierOf(level).value.minXP <= xp <= TierOf(level).value.maxXP
  }

  /** The level whose band holds xp, for xp from 150 up. */
  function BandOf(xp: int): (level: int)
    requires xp >= TierOf(LowestTiered).value.minXP
    ensures LowestTiered <= level <= TopLevel && InBand(level, xp)
  {
    if xp >= TierOf(10).value.minXP then 10
    else if xp >= TierOf(9).value.minXP then 9
    else if xp >= TierOf(8).value.minXP then 8
    else if xp >= TierOf(7).value.minXP then 7
    else if xp >= TierOf(6).value.minXP then 6
    else if xp >= TierOf(5).value.minXP then 5
    else 4
  }
}
