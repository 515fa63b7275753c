# tukeyized in Dafny

A model of `tukeyized`, a Rust library that removes outliers from a sample of numbers with
Tukey's fences. Here is how the library works:

- It sorts a copy of the sample.
- It computes the hinges Q1 and Q3 as the medians of the lower and upper halves of the
  sorted copy. For odd length, the middle element belongs to neither half.
- It keeps every value of the original sample that lies in the inclusive fence
  `[Q1 - 1.5 * (Q3 - Q1), Q3 + 1.5 * (Q3 - Q1)]`, in the original order.
- It returns samples of fewer than three values unchanged.

Samples are `seq<real>`. Reals are totally ordered and have no "not a number" value, so the
sort's comparator can never fail. Arithmetic is exact.

Two files:

- `sorting.dfy` (module `Sorting`) covers the ordering step.
  - `Sorted` is the ascending-order predicate.
  - `SortedCopy` is a reference sort by repeated insertion. It is proved to give an ascending
    permutation of its input.
  - `SortedPermutationUnique` proves that a sample has only one ascending arrangement.
  - `SortInPlace` is an in-place insertion sort on an `array<real>`. It is proved to leave
    exactly `SortedCopy` of the array's old contents.
- `tukeyized.dfy` (module `Tukeyized`) covers the rest.
  - `Middle` is the median. `Halves` splits a sample into halves. `Hinge` gives the hinges.
    `Fences` gives the fence from the hinges, and `Filter` keeps the values inside it.
  - `Inliers` is the specification of the whole filter.
  - `Trim` is the driver as the library writes it: it copies the sample into an array, sorts
    the array in place, takes the hinges and filters the original sample. `Tukeyize` is the
    public entry point and delegates to `Trim`.
  - Both methods are proved to return `Inliers(values)`. The lemmas about `Inliers` state
    what the library promises.

The model follows the code in two places where a prose reading of the library could suggest
otherwise:

- Equal hinges do not keep every value in general. The fence collapses to `[Q1, Q3]`, and
  values outside it are still removed. `EqualHingesCanDrop` shows this on
  `[1, 5, 5, 5, 5, 5, 9]`, where 1 and 9 are dropped. The library's own test covers only a
  sample of identical values (`AllIdenticalKept`).
- The hinge computation needs only two values: both halves are then non-empty. The driver
  calls it only on three or more values. `Hinge` requires `|s| >= 2`, which is what the code
  needs.

## Model

| member | source | states |
|---|---|---|
| `Sorting.Insert` | src/lib.rs:39-44 | one insertion step of the reference sort: the result is one longer than the sequence; `InsertPermutation` and `InsertSorted` fix its contents |
| `Sorting.InsertPermutation` | src/lib.rs:39-44 | inserting a value adds exactly that value to the multiset of the sequence |
| `Sorting.InsertSorted` | src/lib.rs:39-44 | inserting into an ascending sequence keeps it ascending |
| `Sorting.SortedCopy` | src/lib.rs:39-44 | the reference sorted copy of the sample has the sample's length; `SortedCopySortedPermutation` and `SortedPermutationUnique` make it the one ascending permutation |
| `Sorting.SortedCopySortedPermutation` | src/lib.rs:39-44 | the sorted copy is ascending and is a permutation of the sample: same multiset, hence same length |
| `Sorting.SortedPermutationUnique` | src/lib.rs:40-44 | two ascending sequences with the same multiset are equal, so the hinges do not depend on the sorting algorithm or its stability |
| `Sorting.SortedCopyOfSorted` | src/lib.rs:39-44 | sorting an already ascending sample returns it unchanged |
| `Sorting.InsertInto` | src/lib.rs:39-44 | one pass of the in-place sort: when the first `i` array elements are ascending, afterwards the first `i + 1` are, the array holds the same multiset, and nothing after position `i` changes |
| `Sorting.SortInPlace` | src/lib.rs:39-44 | after the in-place sort the array is ascending, is a permutation of its old contents and equals the reference sorted copy of them |
| `Tukeyized.Middle` | src/lib.rs:66-75 | requires a non-empty argument (the source panics on an empty one); the median lies between the two central values `values[(n-1)/2]` and `values[n/2]`, and for odd length it is exactly `values[n/2]` |
| `Tukeyized.MiddleSplits` | src/lib.rs:66-75 | on non-empty ascending input the median has the first half (rounded up) of the values at or below it and the second half (rounded up) at or above it |
| `Tukeyized.MiddleWithinRange` | src/lib.rs:66-75 | on non-empty ascending input the median lies between the first and the last value |
| `Tukeyized.Halves` | src/lib.rs:57-63 | the two halves each have length n/2; the lower half is the slice `[0, n/2)` and the upper half the slice `[n - n/2, n)`, so for odd n the middle value is in neither |
| `Tukeyized.Hinge` | src/lib.rs:57-63 | requires at least two values, so both halves are non-empty; Q1 is the median of the first n/2 values and Q3 the median of the last n/2 values, in one formula for both parities |
| `Tukeyized.LowerHingeWithinHalf` | src/lib.rs:57-63 | on ascending input Q1 lies between the first value and the last value of the lower half |
| `Tukeyized.UpperHingeWithinHalf` | src/lib.rs:57-63 | on ascending input Q3 lies between the first value and the last value of the upper half |
| `Tukeyized.HingeOrdered` | src/lib.rs:57-63 | on ascending input of length at least 2, `s[0] <= Q1 <= Q3 <= s[n-1]`, and the hinges bracket the median of the whole sample |
| `Tukeyized.Fences` | src/lib.rs:46-48 | the fence is centred on the midhinge `(Q1+Q3)/2` and is `4 * (Q3-Q1)` wide; when `Q1 <= Q3` it contains `[Q1, Q3]` |
| `Tukeyized.Filter` | src/lib.rs:49-53 | the filtered sequence is never longer than the input |
| `Tukeyized.FilterMultiplicity` | src/lib.rs:49-53 | a value occurs in the result as often as in the input when it lies in the inclusive fence, and not at all otherwise |
| `Tukeyized.FilterPositions` | src/lib.rs:49-53 | there is an increasing list of input positions that spells out the result, and it holds exactly the positions whose values lie in the fence: the result is the order-preserving subsequence of in-fence values |
| `Tukeyized.FilterKeepsAll` | src/lib.rs:49-53 | when every value lies in the fence, the filter returns its input |
| `Tukeyized.Quartiles` | src/lib.rs:39-45 | the hinges of the sorted copy satisfy `Q1 <= Q3`; some sample value is at or below Q1 and some sample value is at or above Q3 |
| `Tukeyized.Bounds` | src/lib.rs:45-48 | the fence of a sample satisfies `min <= Q1 <= Q3 <= max` |
| `Tukeyized.Inliers` | src/lib.rs:35-54 | samples of fewer than three values are returned unchanged; the result is never longer than the sample |
| `Tukeyized.InliersMultiplicity` | src/lib.rs:45-53 | for three or more values, a value occurs in the result, with its multiplicity, exactly when it lies in `[min, max]` with both ends inclusive |
| `Tukeyized.InliersAreSubsequence` | src/lib.rs:35-54 | the result is an order-preserving subsequence of the sample; for three or more values, its positions are exactly those of the in-fence values |
| `Tukeyized.CentralValuesKept` | src/lib.rs:45-52 | every sample value between Q1 and Q3 is kept |
| `Tukeyized.Trim` | src/lib.rs:35-54 | the driver, which sorts an array copy in place, returns exactly `Inliers(values)` |
| `Tukeyized.Tukeyize` | src/lib.rs:18-29 | the public entry point returns exactly `Inliers(values)` |
| `Tukeyized.AllIdenticalKept` | src/lib.rs:116-127 | a sample whose values are all equal is returned unchanged, whatever its length |
| `Tukeyized.UsageExampleSorted` | src/lib.rs:39-44 | the sorted copy of `[1, 6, 3, 8888, 3, 2, 8, -19292]` is `[-19292, 1, 2, 3, 3, 6, 8, 8888]` |
| `Tukeyized.UsageExampleHinges` | src/lib.rs:57-63 | the hinges of `[-19292, 1, 2, 3, 3, 6, 8, 8888]` are 1.5 and 7 |
| `Tukeyized.UsageExampleFence` | src/lib.rs:7-9 | for `[1, 6, 3, 8888, 3, 2, 8, -19292]` the hinges are 1.5 and 7 and the fence is `[-6.75, 15.25]` |
| `Tukeyized.UsageExample` | src/lib.rs:7-9 | `[1, 6, 3, 8888, 3, 2, 8, -19292]` filters to `[1, 6, 3, 3, 2, 8]` |
| `Tukeyized.EqualHingesCanDrop` | src/lib.rs:46-52 | `[1, 5, 5, 5, 5, 5, 9]` has both hinges at 5 and filters to `[5, 5, 5, 5, 5]`: equal hinges do not keep every value |

## Left out

- The "not a number" panic in the sort comparator (src/lib.rs:41-43) is not modelled. Reals are totally ordered and have no such value.
- IEEE-754 arithmetic is not modelled. The model computes with exact reals. Three things follow:
  - Rounding in `q3 - q1`, `1.5 * range` and `/ 2.0` is not modelled.
  - Overflow to infinity is not modelled. In the source, the sum `values[mid - 1] + values[mid]` in `middle` (src/lib.rs:74) can overflow, and so can the range and fence arithmetic (src/lib.rs:46-48). For example, five copies of 1e308 give Q1 = Q3 = +inf. Then `range` is `inf - inf`, which is NaN, so both fence ends are NaN. Every comparison at src/lib.rs:52 is then false, and the source returns an empty vector.
  - Infinite sample values are not modelled. The comparator at src/lib.rs:41-43 accepts them, and they flow into the same NaN fence arithmetic.
- AllIdenticalKept: holds for exact reals only. In f64, a sample of identical values whose half-sum overflows comes back empty (see above).
- CentralValuesKept: holds for exact reals only. In f64, a NaN fence keeps nothing.
- InliersMultiplicity: holds for exact reals only. In f64, a NaN fence keeps nothing and infinite values take part in the arithmetic.
- The algorithm and stability of Rust's `sort_by` are not modelled. `SortInPlace` is an insertion sort. By `SortedPermutationUnique`, every correct sort gives the same sorted copy.
- Middle: the panic on an empty argument (src/lib.rs:67-69) is a precondition. `Hinge` and `Trim` are proved never to call it with an empty argument.
- The two trait implementations, for slices and for vectors (src/lib.rs:18-30), are one method, `Tukeyize`. Both only delegate to `trim`.
- The test helpers `roll` and `make` (src/lib.rs:82-101) are not modelled. They build floats from bit patterns with wrapping 64-bit arithmetic. The random-sample test that uses them (src/lib.rs:103-113) is therefore not stated either.
- The concurrency test (src/lib.rs:139-153) is not modelled. Dafny functions are deterministic, and threads are outside the model.
