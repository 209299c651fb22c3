/**
 * The static tier table of the allocation logic: for each tester level from
 * 4 to 10, the XP band it covers, how many testers share it and the token
 * pool set aside for it (750 million tokens in all).
 */
module Tiers {
  import opened Wrappers

  /** One row of the level table. */
  datatype Tier = Tier(title: string, minXP: int, maxXP: int, users: int, pool: int)

  /** The lowest level that has a row in the table. */
  const FirstTier := 4
  /** The highest level, the flat-rate "Top 100" tier. */
  const TopLevel := 10
  /** The total token pool the table distributes. */
  const TotalPool := 750_000_000

  /** A usable row: a non-empty XP band, testers to share it and a pool to share. */
  predicate WellFormed(t: Tier) {
    t.minXP < t.maxXP && 0 < t.users && 0 < t.pool
  }

  /** The table lookup levelData[level]: a row for exactly the levels 4 to 10. */
  function TierOf(level: int): (t: Option<Tier>)
    ensures t.Some? <==> FirstTier <= level <= TopLevel
    ensures t.Some? ==> WellFormed(t.value)
    ensures t.Some? ==> t.value.users <= t.value.pool
  {
    match level
    case 10 => Some(Tier("Top 100", 1155, 1500, 100, 37_500_000))
    case 9 => Some(Tier("Sr. Lt & Up", 955, 1154, 440, 67_500_000))
    case 8 => Some(Tier("Lieutenant", 780, 954, 3090, 127_500_000))
    case 7 => Some(Tier("Junior Lt", 630, 779, 9570, 150_000_000))
    case 6 => Some(Tier("Starshina", 455, 629, 45120, 247_500_000))
    case 5 => Some(Tier("Sr. Sgt", 300, 454, 23250, 75_000_000))
    case 4 => Some(Tier("Sgt", 150, 299, 27270, 45_000_000))
    case _ => None
  }

  /** The sum of the pools of the levels from `from` up to the top level. */
  function PoolsFrom(from: int): (total: int)
    requires FirstTier <= from
    ensures from <= TopLevel ==> total >= TierOf(from).value.pool
    ensures from > TopLevel ==> total == 0
    decreases TopLevel - from
  {
    if from > TopLevel then 0 else TierOf(from).value.pool + PoolsFrom(from + 1)
  }

  /** The pools of the seven tiers add up to the advertised 750M total. */
  lemma PoolsAddUp()
    ensures PoolsFrom(FirstTier) == TotalPool
  {
  }

  /** Consecutive XP bands meet without a gap or an overlap. */
  lemma BandsContiguous(level: int)
    requires FirstTier <= level < TopLevel
    ensures TierOf(level).value.maxXP + 1 == TierOf(level + 1).value.minXP
  {
  }

  /** The top tier's pool divides evenly among its testers, 375000 tokens each. */
  lemma TopShareExact()
    ensures TierOf(TopLevel).value.pool % TierOf(TopLevel).value.users == 0
    ensures TierOf(TopLevel).value.pool / TierOf(TopLevel).value.users == 375_000
  {
  }
}
