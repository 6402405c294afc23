# FunctionalUtilities in Dafny

A model of `futilities`, a header-only C++ toolbox of generic higher-order
helpers. They work over a container, or over an integer index range, and each
one is a short deterministic loop:

- index-aware maps (`for_each*`), either in place or into a fresh vector;
- forward and backward scans and folds (`reduce*`, `cumulative_sum*`);
- sums (`sum`, `sum_subset`, `sum(begin, end, fn)`);
- bounded iteration (`recurse`, `recurse_move`);
- integer power by recursion (`const_power`).

Files and modules:

- `power.dfy` (`Power`): `const_power` as a recursive function, with lemmas.
- `maps.dfy` (`Maps`): the `for_each` family.
- `scans.dfy` (`Scans`): the `reduce` family and its specification functions `Fold`, `ScanLeft`, `FoldBack` and `ScanRight`.
- `sums.dfy` (`Sums`): the sums and the cumulative sums, which are built on `reduce`.
- `recursion.dfy` (`Recursion`): `recurse` and `recurse_move`.

How the C++ is rendered:

- **Callables.** A callable becomes a total Dafny function value, such as `(T, nat) -> T`.
- **Indices.** The index handed to a callable is a `nat`. The bounds of index ranges and the counts of `recurse` are `int`.
- **Number types.** The templates are generic over the number type. Sums, cumulative sums and powers are modelled on unbounded `int`.
- **In-place helpers.** These take the caller's container as an `array` and modify it. `return std::move(array)` hands back the same storage.
- **Exclude-last variants.** These also return the shrunk vector after `pop_back`, as a `seq` equal to the first n-1 slots.
- **Copy helpers.** These take a `const&` container, so the Dafny method has no `modifies` clause and the input cannot change. They return a fresh result as a `seq`, which is value semantics like the returned container. Most of them fill a fresh array of the final size `new U[n]`, just as `std::vector<...>(n)` needs a default-constructible element type. The exception is `for_each_copy`: it copies its input (`Array tmpArr=array`) and returns a container of the input's own type, so `ForEachCopy` builds a fresh array initialised from `a` and needs no default value.
- **Parallel variants.** Each `#pragma omp parallel for` loop writes slot i from slot i's own inputs only. It is modelled by a Dafny `forall` statement, in which every assignment reads the state from before the loop. The sequential variants are `while` loops in ascending order with invariants. Both kinds are proved against the same element-wise contract, so the parallel and sequential maps agree.

Some behaviours of the code are easy to misread; the model keeps each as written:

- **Seedless scans.** `reduce(a, f)`, `reduce_copy(a, f)` and `reduce_to_single(a, f)` seed with `a.front()`. So `a[0]` is folded with itself, with slot 0 = f(a[0], a[0], 0), rather than accumulation starting at the second element.
- **Seedless reverse scans.** `reduce_reverse(a, f)` and `reduce_reverse_copy(a, f)` also seed with `a.front()`, the first element, even though they fold from the last.
- **`recurse(n, v, f)`.** It applies f max(n, 1) times, not n times. Its keep-going overload also applies f once before it tests the predicate. `recurse_move` applies f n times, or none when n <= 0.
- **`sum_subset`.** If the range [beginFrom, n - endFrom) is empty, it still returns fn(a[beginFrom], beginFrom).
- **`sum(begin, end, fn)`.** If end <= begin, it returns fn(begin).

## Model

| member | source | states |
|---|---|---|
| `Power.ConstPower` | FunctionalUtilities.h:14-19 | const_power(x, N) for N >= 1, the only exponents whose recursion terminates; it is x when N == 1, and it stays 0 for base 0 and 1 for base 1 |
| `Power.ConstPowerIsRepeatedProduct` | FunctionalUtilities.h:14-19 | for every N >= 1, const_power(x, N) is the product of N copies of x, and it is x when N == 1 |
| `Power.ConstPowerAdd` | FunctionalUtilities.h:14-19 | exponents add: const_power(x, m + n) == const_power(x, m) * const_power(x, n) for m, n >= 1 |
| `Maps.ForEach` | FunctionalUtilities.h:173-179 | in place, every slot i becomes f(old slot i, i); the length is unchanged |
| `Maps.ForEachParallel` | FunctionalUtilities.h:28-38 | the parallel in-place map gives the same result as the sequential one: slot i becomes f(old slot i, i) |
| `Maps.ForEachSubset` | FunctionalUtilities.h:83-89 | slots in [begin, n - fromEnd) become f(old slot, i); every other slot is unchanged |
| `Maps.ForEachParallelSubset` | FunctionalUtilities.h:66-76 | the parallel subset map: same result as the sequential subset map |
| `Maps.ForEachExcludeLast` | FunctionalUtilities.h:114-121 | the returned vector has length n - 1 and out[i] == f(a[i], a[i+1], i), using the ORIGINAL a[i+1] because slots are written in ascending order; the popped last slot keeps its value |
| `Maps.ForEachParallelExcludeLast` | FunctionalUtilities.h:96-107 | the returned vector has length n - 1 and out[i] == f(a[i], i) |
| `Maps.ForEachParallelCopy` | FunctionalUtilities.h:128-142 | a fresh vector of length n with out[i] == f(a[i], i); the input is not modified |
| `Maps.ForEachParallelIndex` | FunctionalUtilities.h:152-165 | for end > begin, a vector of length end - begin with out[k] == f(begin + k), in index order |
| `Maps.ForEachIndex` | FunctionalUtilities.h:207-216 | the sequential range map: length end - begin and out[k] == f(begin + k) |
| `Maps.ForEachProvideArray` | FunctionalUtilities.h:186-192 | slot i becomes f(old slot i, i, new a[..i] + old a[i..]): f sees the container with the slots below i already rewritten and the others original |
| `Maps.ProvideArrayResult` | FunctionalUtilities.h:188-190 | slot by slot, the provide-array result is f(original slot i, i, result[..i] + original[i..]) |
| `Maps.RewrittenBelowFrame` | FunctionalUtilities.h:188-190 | in the provide-array loop, a slot never changes again once written, and slots at or after the current index still hold the input |
| `Maps.ProvideArraySees` | FunctionalUtilities.h:186-192 | at index i, the container f is given has its slots below i final and its slots from i on original |
| `Maps.ForEachCopy` | FunctionalUtilities.h:198-205 | a fresh vector with out[i] == f(a[i], i, original a); the input is not modified |
| `Maps.ProvideArrayMatchesCopy` | FunctionalUtilities.h:186-205 | if f reads the container only at its own index or above, provide-array and copy produce the same vector |
| `Scans.FoldSnoc` | FunctionalUtilities.h:244-246 | one more fold step: the fold of the first k+1 elements is f(fold of the first k, a[k], k) |
| `Scans.ScanLeftRecurrence` | FunctionalUtilities.h:258-267 | the forward scan has out[0] == f(seed, a[0], 0) and out[i] == f(out[i-1], a[i], i), and its last slot is the whole fold |
| `Scans.ScanRightRecurrence` | FunctionalUtilities.h:282-291 | the backward scan has out[n-1] == f(seed, a[n-1], 0) and out[j] == f(out[j+1], a[j], n-1-j), in original index order |
| `Scans.FoldBackIsFoldOfReverse` | FunctionalUtilities.h:282-291 | the backward fold of a sequence equals the forward fold of its reversal |
| `Scans.ScanRightIsReversedScanLeft` | FunctionalUtilities.h:282-291 | with the same seed s, reduce_reverse(a, f, s) is reduce(reverse(a), f, s) read backwards |
| `Scans.SeedlessReverseIsNotReversedSeedless` | FunctionalUtilities.h:273-300 | the seedless overloads do not have that property, because reduce_reverse(a, f) seeds with a[0] and reduce(reverse(a), f) seeds with a[n-1]: for a = [1, 2] and a running sum they give [4, 3] and reversed [5, 4] |
| `Scans.ReduceToSingleFrom` | FunctionalUtilities.h:240-248 | returns the fold of the whole container from the seed, which is the last slot of the forward scan with that seed |
| `Scans.ReduceToSingle` | FunctionalUtilities.h:249-252 | the seedless overload is the last slot of the forward scan seeded with a[0] |
| `Scans.ReduceFrom` | FunctionalUtilities.h:258-267 | in place, a becomes the forward scan: a[0] == f(seed, old a[0], 0) and a[i] == f(new a[i-1], old a[i], i) |
| `Scans.Reduce` | FunctionalUtilities.h:273-276 | the seedless in-place scan seeds with old a[0], so a[0] == f(a[0], a[0], 0) |
| `Scans.ReduceReverseFrom` | FunctionalUtilities.h:282-291 | in place, a becomes the backward scan: last slot f(seed, old last, 0), then a[j] == f(new a[j+1], old a[j], n-1-j) |
| `Scans.ReduceReverse` | FunctionalUtilities.h:297-300 | the seedless in-place backward scan seeds with a.front(), the first element |
| `Scans.ReduceCopyFrom` | FunctionalUtilities.h:306-315 | a fresh vector equal to the forward scan, with element-wise recurrence; agrees with ReduceFrom; input unchanged |
| `Scans.ReduceCopy` | FunctionalUtilities.h:321-324 | the seedless copy scan seeds with a[0]: out[0] == f(a[0], a[0], 0) |
| `Scans.ReduceReverseCopyFrom` | FunctionalUtilities.h:330-340 | a fresh vector equal to the backward scan, with element-wise recurrence; agrees with ReduceReverseFrom; input unchanged |
| `Scans.ReduceReverseCopy` | FunctionalUtilities.h:346-349 | the seedless copy backward scan seeds with a.front(): out[n-1] == f(a[0], a[n-1], 0) |
| `Sums.SumOverSplit` | FunctionalUtilities.h:407-416 | a sum over [lo, hi) splits at any mid point, so a subset sum is part of the whole sum |
| `Sums.SumOverIsSumBetween` | FunctionalUtilities.h:391-430 | sum(a, f) over [lo, hi) equals sum(lo, hi, i -> f(a[i], i)) |
| `Sums.Sum` | FunctionalUtilities.h:391-400 | returns the sum of f(a[i], i) over all i; the container is not modified |
| `Sums.SumSubset` | FunctionalUtilities.h:407-416 | returns the sum of f(a[i], i) over [beginFrom, n - endFrom) when that range is non-empty, and f(a[beginFrom], beginFrom) otherwise |
| `Sums.SumIndex` | FunctionalUtilities.h:423-430 | returns the sum of f(i) over [begin, end) when end > begin, and f(begin) otherwise |
| `Sums.FoldCumulative` | FunctionalUtilities.h:358-382 | folding the first k elements with `CumulativeStep`, the lambda that `cumulative_sum` (358-366) and `cumulative_sum_copy` (375-382) hand to reduce, gives the sum of their f values, whatever the seed |
| `Sums.CumulativeScanIsPrefixSums` | FunctionalUtilities.h:356-383 | a forward scan with the cumulative-sum step is the sequence of running totals |
| `Sums.CumulativeSum` | FunctionalUtilities.h:356-367 | in place, a[0] == f(old a[0], 0) and a[i] == a[i-1] + f(old a[i], i), and the last slot equals sum(old a, f) |
| `Sums.CumulativeSumCopy` | FunctionalUtilities.h:373-383 | a fresh vector of running totals: out[0] == f(a[0], 0) and out[i] == out[i-1] + f(a[i], i), and the last element equals sum(a, f) |
| `Recursion.FirstStopIsFirst` | FunctionalUtilities.h:442-460 | the stopping count lies within the limit; the predicate held after every earlier count; and it fails at the stopping count unless the limit was reached |
| `Recursion.FirstStopWhenAlwaysGoing` | FunctionalUtilities.h:442-467 | when the predicate always holds, iteration runs to the limit, so the predicate overloads agree with the plain ones |
| `Recursion.Recurse` | FunctionalUtilities.h:432-440 | returns f applied exactly max(n, 1) times, with indices 0, 1, ... |
| `Recursion.RecurseWhile` | FunctionalUtilities.h:442-451 | applies f once, then again while i < n - 1 and kpg holds of the accumulator; the count is the first stop in [1, max(n, 1)] |
| `Recursion.RecurseMoveWhile` | FunctionalUtilities.h:452-460 | checks kpg before each application; the count is the first stop in [0, max(n, 0)] |
| `Recursion.RecurseMove` | FunctionalUtilities.h:461-467 | returns f applied exactly n times, or not at all when n <= 0 |
| `Recursion.RepeatedMultiplyIsConstPower` | FunctionalUtilities.h:432-440 | iterating acc -> acc * x from 1, k times, equals const_power(x, k); so recurse(6, 1, v -> 2v) == 64 |

## Left out

- Concurrency: OpenMP thread teams, scheduling, chunking and barriers are not modelled. Each parallel loop is its index-disjoint simultaneous assignment (a `forall` statement). Races and callables with side effects are out of scope.
- `for_each_parallel_generic`: its callable mutates the caller's object by side effect, through accessor functions the model cannot see.
- `for_emplace_back`: its sampling step `(end-init)/(double)(n-1)` is floating-point arithmetic.
- Move semantics, rvalue references and `decltype` return types: in-place helpers modify the array they are given, and copy helpers return a value.
- The type-probing call `fn(array.front(), 0)` in `for_each_parallel_copy`: its value is never used. Its only trace in the model is `requires a.Length >= 1`.
- The commented-out `recurse_move` without a count.
- Empty containers: `front()`, `begin()` dereferences, `end()-1` and `pop_back()` on an empty container are undefined behaviour. The affected members require a non-empty array, or valid offsets for the subset variants.
- Integer width: sums, cumulative sums and powers are on mathematical integers, so overflow of a fixed-width number type is not modelled.
- Floating-point number types: `sum`, `sum_subset`, `sum(begin, end, fn)`, the cumulative sums and `const_power` also accept floating-point numbers, which are not modelled. Rounding is not modelled either. Sums.SumOverSplit relies on exact, associative addition, which floating-point addition does not have.
- Callables that throw: a callable is a total function. In the sequential in-place helpers (`for_each`, `for_each_subset`, `for_each_exclude_last`, `for_each_provide_array`, `reduce`, `reduce_reverse`, `cumulative_sum`), a throw at index i leaves the slots already visited rewritten and propagates the exception. That partial state is not modelled.
- Power.ConstPower: only integer bases are modelled, not every type with `*`. Exponents N <= 0, for which the C++ recursion never reaches its terminal case, are excluded by `requires n >= 1`.
- Sums.CumulativeSumCopy: the container holds integers, as the in-place `cumulative_sum` must. The model does not cover other element types with an integer-valued fn.
- Maps.ForEachExcludeLast: `pop_back` is shown by the returned first n-1 slots. The array keeps its allocated length and its untouched last slot.
- Maps.ForEachParallelExcludeLast: the same rendering of `pop_back` as ForEachExcludeLast.
- Scans.ReduceCopyFrom: the seed's type is the accumulator's type. The C++ template lets the seed have another type that the first call of fn converts.
- Scans.ReduceReverseCopyFrom: the same seed-type restriction as ReduceCopyFrom.
- Scans.ReduceToSingleFrom: the same seed-type restriction as ReduceCopyFrom.
- Scans.ReduceFrom: the seed has the element type. The C++ `OptionalFirstItem` may be any type fn accepts as its first argument.
- Scans.ReduceReverseFrom: the same seed-type restriction as ReduceFrom.
- Scans.ReduceToSingle, Scans.ReduceCopy, Scans.ReduceReverseCopy: these seedless overloads take `f: (T, T, nat) -> T`, so the accumulator has the element type. In C++ only the seed `array.front()` is fixed to the element type, and the accumulator is whatever fn returns.
- Recursion.Recurse, Recursion.RecurseWhile: `f: (T, nat) -> T` gives the accumulator the type of the initial value. In C++ the accumulator has type `decltype(fn(initValue, 0))`, which may differ from the initial value's type.
- Recursion.RecurseWhile: the count n is a mathematical integer. With an unsigned count type and n == 0, `n-1` wraps around in C++, and the loop runs until kpg fails instead of stopping after one application. That case is not modelled.
