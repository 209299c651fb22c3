# Union testers allocation calculator, modelled in Dafny

The project models the estimator behind the testers' airdrop page. The user
enters a handle, a tester level and an XP score. The "calculate" handler:

- normalises the handle;
- checks the level and the XP against a static tier table;
- works out a token allocation out of a 750 million token pool;
- derives four dollar ranges for the scenarios ideal, bull, superbull and gigabull.

The result screen then picks between those ranges and placeholders. It prints
amounts with `formatNum`, which uses an M, K or plain suffix.

The modules follow the script's parts:

| module | file | what it holds |
|---|---|---|
| `Wrappers` | wrappers.dfy | `Option` and `Result` |
| `Rounding` | rounding.dfy | `Math.round` on exact reals (`Round`) and its integer form (`RoundDiv`) |
| `Username` | username.dfy | `String.prototype.trim` over the ECMAScript white-space and line-terminator set, then removal of one leading `@` |
| `Tiers` | tiers.dfy | the `levelData` table as a lookup from level to `Tier` |
| `Scenarios` | scenarios.dfy | the `multipliers` table and the `cases` object built from an allocation |
| `Calculator` | calculator.dfy | the handler as a pure function `Calculate` returning `Result<Estimate, Error>`, and the result screen's choice `View` |
| `Format` | format.dfy | `formatNum`, with `toFixed`, the `.00`/`.0` removal and the plain integer printing, plus a reader that parses its output back |

Numbers are exact:

- Every `/` in the script is a rational division.
- `Math.round(x)` is `floor(x + 1/2)`.
- The tiered allocation is defined with the handler's own expression, `pool / users * (1 + (xp - minXP) / (maxXP - minXP))`.
- `TieredShareIsRounded` proves that expression equal to the integer quotient that `Calculate` uses.

Two facts about the output that a reader might not expect:

- `formatNum` removes only an all-zero `.00`, so 1,500,000 prints as "1.50M" (`Format.MillionAndAHalfExample`).
- The scenario ranges are not strictly increasing: ideal/bull and superbull/gigabull share an end point, at 0.075 and 0.17 (`Scenarios.FactorsTouch`). Only bull/superbull leave a gap.

Further facts about the table that the proofs bring out:

- Allocations are not ordered across the first band boundaries. The top of level 4 pays 3300 but the bottom of level 5 pays 3226. The top of level 5 pays 6452 but the bottom of level 6 pays 5485 (`Calculator.BoundaryInversions`).
- Every allocation stays below one million tokens (`Calculator.AllocationBelowMillion`), so for allocations the M branch of `formatNum` is never taken.
- Just under a million, the K branch rounds up to "1000K" (`Format.RoundsUpToThousandK`).

## Model

| member | source | states |
|---|---|---|
| Rounding.Round | script.js:140 | `Math.round`: the result lies within half a unit of x, with ties going up |
| Rounding.RoundDiv | script.js:140 | the integer r nearest to n / d, ties up: 2dr - d <= 2n < 2dr + d; non-negative for n >= 0 |
| Rounding.RoundDivIsRound | script.js:140 | the integer rounding of n / d equals `Math.round` of the exact quotient |
| Rounding.RoundDivMonotone | script.js:140 | rounding the quotient never reverses the order of numerators |
| Rounding.RoundDivScale | script.js:138-140 | scaling numerator and denominator by the same positive factor leaves the rounded quotient unchanged |
| Username.Trim | script.js:104 | the result has no trimmable character at either end, and it is a slice of the input with only trimmable characters cut off on each side |
| Username.Normalize | script.js:104-107 | the name is the trimmed field, less its first character exactly when that character is '@' |
| Username.TrimPadded | script.js:104 | any white space around an already trimmed string is removed, leaving that string |
| Username.TrimIdempotent | script.js:104 | trimming twice gives the same as trimming once |
| Username.AtSignOptional | script.js:104-107 | "alice" and "@alice", with any white space around them, both give "alice" |
| Username.SingleAtRemoved | script.js:107 | only one '@' is removed: "@@alice" gives "@alice" |
| Username.BlankIsEmpty | script.js:104-109 | a field of white space, with or without one '@', gives the empty name that the handler rejects |
| Tiers.TierOf | script.js:70-78 | exactly levels 4 to 10 have a row; every row has a non-empty XP band (so line 139 never divides by zero), testers, and at least one token per tester |
| Tiers.PoolsAddUp | script.js:69-78 | the seven pools add up to 750,000,000 |
| Tiers.BandsContiguous | script.js:71-77 | each band's maxXP + 1 is the next band's minXP: no gap and no overlap |
| Tiers.TopShareExact | script.js:71 | the top tier's pool divides evenly into 375,000 tokens per tester |
| Scenarios.Multipliers | script.js:80-85 | every scenario's two factors are positive and the low one is below the high one |
| Scenarios.FactorsOrdered | script.js:80-85 | in display order, each scenario's low factor is at or above the previous scenario's high factor |
| Scenarios.FactorsTouch | script.js:81-84 | ideal/bull and superbull/gigabull share an end point; bull/superbull leave a gap |
| Scenarios.RangesOrdered | script.js:143-148 | for an allocation >= 0 every range has low <= high, strictly when the allocation is positive |
| Scenarios.RangesIncrease | script.js:143-148 | for an allocation >= 0, each listed range starts at or above where the previous one ends |
| Scenarios.CasesFor | script.js:143-148 | each scenario's range runs from the allocation times that scenario's low factor to the allocation times its high factor |
| Scenarios.CasesRecoverFactors | script.js:143-148 | dividing any scenario's range by a non-zero allocation gives back that scenario's factors |
| Calculator.TieredShare | script.js:138-140 | the tier's share is positive from the bottom of its band up |
| Calculator.ScaledMeanShare | script.js:138-140 | the unrounded allocation is the mean share pool / users at the bottom of the band and twice it at the top |
| Calculator.TieredShareIsRounded | script.js:138-140 | the integer share equals `Math.round(pool / users * (1 + xpScore))` evaluated exactly |
| Calculator.XPRejected | script.js:128 | for a level with a table row, the XP is rejected exactly when it is below that row's minXP (for level 10 too: its literal 1155 is the row's minXP) or, below level 10 only, above the row's maxXP |
| Calculator.Calculate | script.js:103-148 | success only with a level in 1..10, an XP, and a non-empty normalised name, which it carries; the allocation is zero exactly for levels 1 to 3; ranges exist exactly from level 4 up and are the allocation times the multipliers |
| Calculator.View | script.js:176-185 | placeholders exactly when the allocation is zero, and otherwise the estimate's own ranges |
| Calculator.RejectsMalformed | script.js:104-112 | a missing level or XP, an empty name, or a level outside 1..10 gives the one error |
| Calculator.LowLevelsGetZero | script.js:114-120 | levels 1 to 3 are accepted for every XP, with allocation 0 and no ranges, and show placeholders |
| Calculator.TopLevelFlat | script.js:128-136 | level 10 is accepted exactly when XP >= 1155, which is its table minimum; there is no upper bound, and it pays 375,000, which is pool / users |
| Calculator.TieredXPBounds | script.js:128-131 | a level from 4 to 9 accepts an XP exactly when it lies in [minXP, maxXP] |
| Calculator.TieredAllocation | script.js:133-148 | an accepted level 4 to 9 gets `Math.round(pool / users * (1 + xpScore))`, and the ranges for that amount |
| Calculator.TieredResult | script.js:133-148 | an accepted level 4 to 9 gets the tier's integer share for that XP, and the ranges for it |
| Calculator.AllocationAtBandEnds | script.js:138-140 | at minXP the allocation is round(pool / users); at maxXP it is round(2 * pool / users) |
| Calculator.ShareAtBandEnds | script.js:138-140 | the integer share at the band ends is the rounded mean share and the rounded double mean share |
| Calculator.AllocationMonotone | script.js:138-140 | within a tier, more XP never means a smaller allocation |
| Calculator.ShareMonotone | script.js:138-140 | the integer share is non-decreasing in XP |
| Calculator.TieredShowsRanges | script.js:176-185 | every accepted estimate from level 4 up is positive and shows its ranges; levels 1 to 3 show placeholders |
| Calculator.BandsPartition | script.js:128-131 | an XP below 150 is accepted by no level from 4 to 10; any other XP is accepted by exactly one |
| Calculator.BandOf | script.js:71-77 | for XP >= 150, a level from 4 to 10 whose band holds that XP |
| Calculator.AllocationBelowMillion | script.js:133-141 | every allocation lies in [0, 1,000,000) |
| Calculator.BoundaryInversions | script.js:75-77 | the top of level 4 pays 3300 > 3226, the bottom of level 5; the top of level 5 pays 6452 > 5485, the bottom of level 6 |
| Format.DigitsRoundTrip | script.js:192 | reading the decimal numeral of n gives back n |
| Format.Padded | script.js:190-191 | the zero-padded fraction digits have the requested width and denote n |
| Format.ToFixed | script.js:190-191 | with no places, the digits denote q; otherwise digits denoting q / 10^places, a '.', then exactly `places` digits denoting q mod 10^places |
| Format.DropSuffix | script.js:190-191 | the result is the input, or the input with the suffix removed when it ends with it |
| Format.Plain | script.js:192 | for r >= 0 the digits denote r; for r < 0 a '-' followed by digits denoting -r |
| Format.FormatNum | script.js:188-193 | the output ends in 'M' exactly when the rounded amount is >= 1,000,000, in 'K' exactly when it is in [1,000, 1,000,000), and in a digit otherwise |
| Format.FixedForm | script.js:190-191 | `toFixed(places)` of q / 10^places with an all-zero fraction removed is the whole digits alone when 10^places divides q, and otherwise the whole digits, '.', and every fraction digit, trailing zeros kept |
| Format.MillionsForm | script.js:190 | for every amount of a million or more, with q the rounded amount in hundredths of a million: q / 100 in digits, then "." and the two digits of q mod 100 unless both are zero, then "M" |
| Format.ThousandsForm | script.js:191 | for every amount in [1,000, 1,000,000), with q the rounded amount in tenths of a thousand: q / 10 in digits, then "." and the digit q mod 10 unless it is zero, then "K" |
| Format.FormatNumReadsBack | script.js:188-192 | the output parses back to the rounded amount: within 5,000 in millions, within 50 in thousands, exactly below a thousand |
| Format.MillionsReadBack | script.js:190 | the M form, with ".00" dropped, reads back within 5,000 |
| Format.ThousandsReadBack | script.js:191 | the K form, with ".0" dropped, reads back within 50 |
| Format.PlainReadsBack | script.js:192 | the plain form, with its sign, reads back exactly |
| Format.FixedReadsBack | script.js:190-191 | `toFixed(places)` of q / 10^places, with an all-zero fraction removed, parses to exactly q / 10^places |
| Format.OneMillionExample | script.js:190 | 1,000,000 prints as "1M" |
| Format.MillionAndAHalfExample | script.js:190 | 1,500,000 prints as "1.50M"; a trailing zero other than ".00" is kept |
| Format.ThousandsExample | script.js:191 | 2,500 prints as "2.5K" |
| Format.HalfTenthExample | script.js:191 | in exact arithmetic, 1,650 prints as "1.7K": an amount exactly half-way between tenths of a thousand rounds up (JavaScript's double gives "1.6K") |
| Format.PlainExample | script.js:192 | 999 prints as "999" |
| Format.RoundsUpToThousandK | script.js:191 | 999,960 prints as "1000K", not "1M" |

## Left out

- Confetti animation (script.js:1-67): random numbers, float trigonometry and canvas drawing, with no integer behaviour to state.
- DOM wiring (script.js:88-101, 150-153, 171-175): the click handlers, showing and hiding boxes, and writing text and image sources. The model returns the `Estimate` and the `ScenarioView` those writes consume.
- Avatar fetch (script.js:156-167): network I/O with a fixed fallback URL.
- Share and maths-thread buttons (script.js:199-215): URL templating and `window.open`.
- `parseInt` (script.js:105-106): level and XP arrive already parsed as `Option<int>`, where `None` stands for NaN. Partial inputs such as "4.5" or "7abc" are not modelled.
- The `toUSD` template (script.js:194-196): only the `formatNum` it calls on each end is modelled.
- IEEE-754 doubles: `pool / users`, `xpScore`, the multiplier products, `n / 1e6` and `n / 1e3` are exact rationals here. Near a .5 tie, JavaScript's doubles can round the other way. For the allocation itself this does not happen: no level and XP in the table puts `pool / users * (1 + xpScore)` on or near a .5 tie.
- Format.FormatNum: `n / 1e3` and `toFixed(1)` are exact here, so a thousands amount ending in 50 rounds its tenth up. With doubles it can round down: level 4 at XP 150 gets 1650, which the model prints as "1.7K" (`Format.HalfTenthExample`) and JavaScript as "1.6K", because the double nearest 1.65 lies below it. The allocations 7850, 57150, 82050 and 197350 behave the same way; 82050 prints as "82K" rather than "82.1K".
- Format.HalfTenthExample: it states the exact-arithmetic result "1.7K". JavaScript computes `1650 / 1e3` as a double just below 1.65, so `toFixed(1)` gives "1.6" and the page shows "1.6K"; doubles are not modelled (see the line above).
- Format.FormatNum: `toLocaleString` is modelled as a plain numeral with an ASCII minus sign. Not modelled: the locale's digit grouping, which applies only to amounts of -1,000 or less; locales with their own digits or a U+2212 minus sign; and negative zero, since `Math.round` of an amount in (-0.5, 0) is -0, which prints as "-0" where `Plain` gives "0". The calculator formats only allocations and their ranges, which are never negative, so it reaches none of these.
- Format.FormatNum: exponent notation of `toFixed` at 1e21 and above is not modelled.
- Nothing is left out of the `!d` branch (script.js:123-126): it is kept as the `None` case of the table lookup, which `Tiers.TierOf` shows no level from 4 to 10 reaches.
