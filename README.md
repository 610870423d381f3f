# stats_utils in Dafny

A verified model of the integer core of the `stats_utils` crate
(`stats_utils/src/lib.rs`). The model covers:

- `n50` and `n90`, the assembly length statistics. Each one checks that every
  length is positive, totals the lengths in 64 bits, and sorts an owned copy
  in ascending order. It then walks the copy with a running sum. It returns
  the length at which the running sum first reaches one half (n50) or nine
  tenths (n90) of the total. On an exact hit, when a next length exists, it
  returns the truncated average of the two adjacent lengths instead.
- `abs_diff`, the usize distance that never underflows.
- `make_random_vec`, which resizes the caller's `Vec<i64>` and fills it with
  a 64-bit wrapping linear-congruential sequence starting at 0.

Files:

- `machine.dfy` (module `Machine`): Rust integer semantics. It has the i32,
  i64 and usize ranges, two's-complement wrap-around (`wrapping_mul`,
  `wrapping_add`, a release-build `+`), truncating division, and the outcome
  of a call that may panic.
- `sorting.dfy` (module `Sorting`): `sort_unstable`, known only by its
  contract (ascending, a permutation). It also shows that a multiset has
  exactly one ascending arrangement.
- `stats_utils.dfy` (module `StatsUtils`): the four functions of the core.

`n50` and `n90` are methods with the source's loops: the positivity check,
the summing loop, and the threshold search with its early returns. Each
method is proved equal to one specification, `Statistic(v, num, den)`. That
function returns 0 for no lengths and `Panics` when a length is not
positive. Otherwise it takes the first index of the sorted copy whose running
sum reaches `num/den` of the total (`Crossing`), and picks that element or
the tie midpoint (`Pick`). Lemmas about `Statistic` give the properties the
source relies on. The result lies between the smallest and largest length.
The exact-tie rule holds. The sort order of the input does not matter. The
loop always returns, so the trailing `0 // never executed` is never reached.
The N90 crossing index is never before the N50 one.

The input slice is a Dafny `seq`, an immutable value, so the model, like the
source, cannot change the caller's slice; the sort works on the copy `vs`.

`make_random_vec` is a method that takes a `Vec` whose `elems: seq<Int64>`
field it reassigns in place. It is proved to leave exactly `n` elements, each
equal to the generator applied that many times to 0. The result therefore
does not depend on the vector's old contents.

With `n == 0`, `x.resize(0, 0)` empties the vector, and the store
`x[0] = 0` (stats_utils/src/lib.rs:141) then panics on an index out of
bounds. The model returns `panicked == true` there, with the vector empty.
For `n >= 1` the loop (stats_utils/src/lib.rs:142-146) overwrites every index
from 1 up, so nothing of the old contents survives.

## Model

| member | source | states |
|---|---|---|
| `Machine.Wrap64` | stats_utils/src/lib.rs:143-145 | the result is the unique i64 congruent to the argument modulo 2^64, and an argument already in the i64 range is unchanged |
| `Machine.Wrap64Unique` | stats_utils/src/lib.rs:143-145 | any i64 congruent to x modulo 2^64 is `Wrap64(x)`, so 64-bit wrapping is fully determined |
| `Machine.WrappingMul` | stats_utils/src/lib.rs:144 | `wrapping_mul` on i64 returns an i64 congruent to the exact product modulo 2^64 |
| `Machine.WrappingAdd` | stats_utils/src/lib.rs:145 | `wrapping_add` on i64 returns an i64 congruent to the exact sum modulo 2^64 |
| `Machine.Wrap32` | stats_utils/src/lib.rs:27 | the i32 whose bit pattern is the low 32 bits of the argument: congruent modulo 2^32, and unchanged when already in the i32 range (a release-build i32 `+`) |
| `Machine.TruncDiv` | stats_utils/src/lib.rs:27 | Rust's signed `/`: the quotient truncated toward zero, with the remainder taking the dividend's sign |
| `Machine.WrappingMulAdd` | stats_utils/src/lib.rs:143-145 | wrapping after the multiply and again after the add equals one reduction of `m * x + c` |
| `Sorting.SortUnstable` | stats_utils/src/lib.rs:22-23 | the owned copy after `sort_unstable` is ascending and a permutation of the input |
| `Sorting.SortedPermutationUnique` | stats_utils/src/lib.rs:23 | two ascending sequences with the same multiset are equal, so an unstable sort gives the same copy as any other |
| `Sorting.SortedCopyIsUnique` | stats_utils/src/lib.rs:22-23 | every ascending permutation of the input is the single sorted copy that the specification names |
| `StatsUtils.SumPermutation` | stats_utils/src/lib.rs:19-23 | the total of the input equals the total of the sorted copy |
| `StatsUtils.SumsFitInt64` | stats_utils/src/lib.rs:17-21 | with at most 2^32 i32 lengths the 64-bit total cannot overflow; with at most 429496729 lengths neither can `10 * sum` (hence n90's `9 * sum`) |
| `StatsUtils.Crossing` | stats_utils/src/lib.rs:24-31 | the first index whose running sum reaches num/den of the total: every earlier index stays below, and the index reaches unless it is the end |
| `StatsUtils.Pick` | stats_utils/src/lib.rs:26-31 | the value returned at the crossing index: at the last index that element itself, and otherwise, on ascending lengths, a value between that element and the next |
| `StatsUtils.Statistic` | stats_utils/src/lib.rs:10-34 | what n50 (1/2) and n90 (9/10) return: 0 for no lengths, a panic exactly when some length is not positive, otherwise `Pick` at the `Crossing` of the sorted copy |
| `StatsUtils.Midpoint` | stats_utils/src/lib.rs:27 | the tie value lies between the two lengths and is their sum halved and truncated |
| `StatsUtils.SortedCopyFacts` | stats_utils/src/lib.rs:14-23 | the sorted copy of positive lengths is as long, all positive, and has the same positive total |
| `StatsUtils.LastIndexReaches` | stats_utils/src/lib.rs:24-33 | the last index always reaches the fraction, so the search returns inside the loop and line 33 is unreachable |
| `StatsUtils.StatisticAt` | stats_utils/src/lib.rs:24-31 | an index that reaches the fraction while no earlier one does fixes the result: the tie midpoint or that element |
| `StatsUtils.N50` | stats_utils/src/lib.rs:10-34 | returns 0 for no lengths, panics exactly when some length is not positive, and otherwise returns the half-total statistic of the sorted copy |
| `StatsUtils.N90` | stats_utils/src/lib.rs:36-60 | returns 0 for no lengths, panics exactly when some length is not positive, and otherwise returns the nine-tenths statistic, with the tie test `10 * part == 9 * sum` checked first |
| `StatsUtils.StatisticWithinLengths` | stats_utils/src/lib.rs:24-31 | a returned statistic is at least some input length and at most some input length |
| `StatsUtils.StatisticIsInt32` | stats_utils/src/lib.rs:10 | on i32 lengths a returned statistic is itself an i32 |
| `StatsUtils.TieRule` | stats_utils/src/lib.rs:26-27 | when the running sum at a non-last index equals the fraction of the total exactly, the result is the truncated midpoint of that element and the next |
| `StatsUtils.N90CrossesNoEarlier` | stats_utils/src/lib.rs:50-57 | the index where nine tenths is reached is never before the index where one half is reached |
| `StatsUtils.PositiveIgnoresOrder` | stats_utils/src/lib.rs:14-16 | the positivity check passes for every rearrangement of lengths that pass it |
| `StatsUtils.EarlierFallShort` | stats_utils/src/lib.rs:24-31 | positive lengths make the running sum strictly increasing, so no index before an exact hit reaches the fraction |
| `StatsUtils.StatisticIgnoresOrder` | stats_utils/src/lib.rs:22-23 | two inputs with the same multiset of lengths have the same statistic |
| `StatsUtils.SingleLength` | stats_utils/src/lib.rs:24-31 | a single positive length is its own N50 and N90 |
| `StatsUtils.N50OfFourTwos` | stats_utils/src/lib.rs:24-28 | n50 of four lengths of 2 is 2, through the tie at index 1 |
| `StatsUtils.WrappingMidpoint` | stats_utils/src/lib.rs:27 | the tie average as written, an i32 addition followed by the truncating `/ 2`: it agrees with `Midpoint` when the sum fits in i32, and is negative when the sum passes `i32::MAX` |
| `StatsUtils.DoubledHalfFitsInt64` | stats_utils/src/lib.rs:24-30 | for up to 2^32 lengths `2 * half` stays below 2^63 at every index the n50 loop reaches, that is every index no earlier one of which reaches half the total |
| `StatsUtils.TenfoldPartFitsInt64` | stats_utils/src/lib.rs:50-57 | every running prefix of the sorted copy is at most the total, so for up to 429496729 lengths `10 * part` stays below 2^63 at every index of the n90 loop |
| `StatsUtils.N50TieAverageWraps` | stats_utils/src/lib.rs:27 | two lengths of 1500000000 tie at index 0; the corrected result is 1500000000, but the i32 sum wraps to -647483648 |
| `StatsUtils.N90TieAverageWraps` | stats_utils/src/lib.rs:53 | ten lengths of 1200000000 tie at index 8; the corrected result is 1200000000, but the i32 sum wraps to -947483648 |
| `StatsUtils.AbsDiff` | stats_utils/src/lib.rs:116-121 | the result is a usize that, added to the smaller argument, gives the larger one |
| `StatsUtils.AbsDiffSymmetric` | stats_utils/src/lib.rs:116-121 | the distance is symmetric and is zero exactly when the arguments are equal |
| `StatsUtils.LcgStep` | stats_utils/src/lib.rs:143-145 | one generator step is `6364136223846793005 * x + 1442695040888963407` reduced into the signed 64-bit range |
| `StatsUtils.LcgRunValues` | stats_utils/src/lib.rs:141-146 | in a sequence that starts at 0 and follows the recurrence, element i is the step applied i times to 0 |
| `StatsUtils.LcgRunUnique` | stats_utils/src/lib.rs:139-147 | two such sequences of the same length are equal, so the output depends on n alone |
| `StatsUtils.Vec.Resize` | stats_utils/src/lib.rs:140 | `resize(n, 0)` leaves n elements: the old prefix kept, new positions filled with the value |
| `StatsUtils.MakeRandomVec` | stats_utils/src/lib.rs:139-147 | panics exactly when n == 0, leaving the vector empty; otherwise leaves n elements starting at 0, each the wrapped affine image of the one before, equal to the generator's i-th value |

## Left out

- `mean`, `len_weighted_mean`, `cv`, `abs_diff_f64`, `percent_ratio` and `binomial_sum` (stats_utils/src/lib.rs:62-170) are not modelled. They are floating-point accumulations, divisions, a square root and a naive `(1-p)^n` recurrence, and Dafny has no IEEE 754 arithmetic to model them with.
- StatsUtils.N90: the crossing test `part as f64 / sum as f64 >= 0.9` is modelled as the integer test `10 * part >= 9 * sum`. The two agree except when rounding the quotient or the constant 0.9 to a double decides the comparison. That needs a fraction within a few units in the last place of 0.9, so a total of very roughly 10^15 or more.
- StatsUtils.N50: `sum: i64` and `half: i64` are unbounded integers in the model. For up to 2^32 lengths `SumsFitInt64` shows the total stays below 2^63, and `DoubledHalfFitsInt64` shows the same for `2 * half` at every index the loop reaches. From 2^32 + 3 lengths on, the source's i64 `sum` can overflow (a debug build panics, a release build wraps); that is not modelled.
- StatsUtils.N90: in the same way, `10 * part` and `9 * sum` are unbounded. `TenfoldPartFitsInt64` shows `10 * part` fits in i64 at every index for at most 429496729 lengths, and `SumsFitInt64` shows the same for `10 * sum`, hence for `9 * sum`. Beyond that, with all lengths near `i32::MAX`, the source's i64 product could overflow; that is not modelled.
- StatsUtils.N50, StatsUtils.N90: the tie average is the corrected `Midpoint`, computed without i32 overflow. The source's i32 addition is modelled separately as `WrappingMidpoint`; see Findings.
- Sorting.SortUnstable: the internals of the library `sort_unstable` are not modelled. Only its result is specified, and an insertion sort shows that the contract can be met. The in-place rearrangement of the owned copy `vs` is modelled as a new sequence value.
- StatsUtils.MakeRandomVec: the `Vec`'s capacity and reallocation are not modelled, and neither is the usize range of `n` (a `nat` here). The vector's contents are a `seq` field that the method reassigns.
- A Rust panic is modelled as a result (`Outcome.Panics`, or the flag `panicked`), not as unwinding. The choice between debug-build overflow panics and release-build wrapping is made explicitly where it matters (Findings).

## Findings

| source | as written | input that shows it | evidently intended | confidence | as-written member | corrected member |
|---|---|---|---|---|---|---|
| stats_utils/src/lib.rs:27 | `(vs[i] + vs[i + 1]) / 2` adds two i32 lengths in i32. A release build wraps; a debug build panics. | `n50(&[1500000000, 1500000000])`: the tie at index 0 adds to 3000000000, which wraps to -1294967296, so the result is -647483648 | the midpoint of the two lengths, 1500000000, which always fits in i32 | likely; not executed | `StatsUtils.N50TieAverageWraps` | `StatsUtils.Midpoint` |
| stats_utils/src/lib.rs:53 | the same i32 addition in the n90 tie branch | `n90` of ten lengths of 1200000000: the tie at index 8 adds to 2400000000, which wraps, so the result is -947483648 | 1200000000 | likely; not executed | `StatsUtils.N90TieAverageWraps` | `StatsUtils.Midpoint` |
