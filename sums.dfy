/** The sums: `sum`, `sum_subset`, `sum(begin, end, fn)`, and the cumulative
    sums, which are forward scans whose step adds fn(element, index) to the
    running total. Numbers are unbounded integers. */
module Sums {
  import opened Scans

  /** Sum of fn(s[k], k) for k in [lo, hi). */
  function SumOver<T>(s: seq<T>, f: (T, nat) -> int, lo: nat, hi: nat): int
    requires hi <= |s|
    decreases hi
  {
    if hi <= lo then 0 else SumOver(s, f, lo, hi - 1) + f(s[hi - 1], hi - 1)
  }

  /** Sum of fn(i) for i in [lo, hi). */
  function SumBetween(f: int -> int, lo: int, hi: int): int
    decreases hi - lo
  {
    if hi <= lo then 0 else SumBetween(f, lo, hi - 1) + f(hi - 1)
  }

  /** Running totals: slot i is the sum of fn(s[k], k) for k <= i. */
  function PrefixSums<T>(s: seq<T>, f: (T, nat) -> int): seq<int>
  {
    seq(|s|, i requires 0 <= i < |s| => SumOver(s, f, 0, i + 1))
  }

  /** A sum over [lo, hi) splits at any mid point. */
  lemma {:induction false} SumOverSplit<T>(s: seq<T>, f: (T, nat) -> int, lo: nat, mid: nat, hi: nat)
    requires lo <= mid <= hi <= |s|
    ensures SumOver(s, f, lo, hi) == SumOver(s, f, lo, mid) + SumOver(s, f, mid, hi)
    decreases hi
  {
    if hi > mid {
      SumOverSplit(s, f, lo, mid, hi - 1);
    }
  }

  /** `sum(array, fn)` is `sum(0, n, i -> fn(array[i], i))`: the sum over a
      container is the index-range sum of fn applied at each position. */
  lemma {:induction false} SumOverIsSumBetween<T>(s: seq<T>, f: (T, nat) -> int, lo: nat, hi: nat)
    requires hi <= |s|
    ensures SumOver(s, f, lo, hi) == SumBetween(i => if 0 <= i < |s| then f(s[i], i) else 0, lo, hi)
    decreases hi
  {
    if hi > lo {
      SumOverIsSumBetween(s, f, lo, hi - 1);
    }
  }

  /** `sum(array, fn)`: fn(array[0], 0) plus fn(array[i], i) for every later i. */
  method Sum<T>(a: array<T>, f: (T, nat) -> int) returns (r: int)
    requires a.Length >= 1
    ensures r == SumOver(a[..], f, 0, a.Length)
  {
    ghost var s := a[..];
    var myNum := f(a[0], 0);
    var it := 1;
    while it < a.Length
      invariant 1 <= it <= a.Length
      invariant myNum == SumOver(s, f, 0, it)
    {
      myNum := myNum + f(a[it], it);
      it := it + 1;
    }
    r := myNum;
  }

  /** `sum_subset(array, beginFrom, endFrom, fn)`: starts from
      fn(array[beginFrom], beginFrom) and adds fn(array[i], i) for
      beginFrom < i < n - endFrom. When [beginFrom, n - endFrom) is empty,
      the first term is still taken. */
  method SumSubset<T>(a: array<T>, beginFrom: nat, endFrom: nat, f: (T, nat) -> int) returns (r: int)
    requires beginFrom < a.Length && endFrom <= a.Length
    ensures beginFrom < a.Length - endFrom ==> r == SumOver(a[..], f, beginFrom, a.Length - endFrom)
    ensures beginFrom >= a.Length - endFrom ==> r == f(a[beginFrom], beginFrom)
  {
    ghost var s := a[..];
    var hi := a.Length - endFrom;
    var myNum := f(a[beginFrom], beginFrom);
    var it := beginFrom + 1;
    while it < hi
      invariant beginFrom + 1 <= it <= a.Length
      invariant it <= hi || it == beginFrom + 1
      invariant myNum == SumOver(s, f, beginFrom, it)
    {
      myNum := myNum + f(a[it], it);
      it := it + 1;
    }
    r := myNum;
  }

  /** `sum(begin, end, fn)`: fn(begin) plus fn(i) for begin < i < end; the sum
      of fn over [begin, end) when that range is non-empty, and fn(begin) otherwise. */
  method SumIndex(begin: int, end: int, f: int -> int) returns (r: int)
    ensures end > begin ==> r == SumBetween(f, begin, end)
    ensures end <= begin ==> r == f(begin)
  {
    var myNum := f(begin);
    var i := begin + 1;
    while i < end
      invariant begin + 1 <= i && (i <= end || i == begin + 1)
      invariant myNum == SumBetween(f, begin, i)
    {
      myNum := myNum + f(i);
      i := i + 1;
    }
    r := myNum;
  }

  /** The accumulator both cumulative sums pass to `reduce`: at index 0 it
      ignores the seed and yields fn(curr, 0); after that prev + fn(curr, index). */
  function CumulativeStep(f: (int, nat) -> int): (int, int, nat) -> int
  {
    (prev: int, curr: int, index: nat) => if index == 0 then f(curr, index) else prev + f(curr, index)
  }

  /** Folding the first k elements with the cumulative step gives the sum of
      their fn values, whatever the seed. */
  lemma {:induction false} FoldCumulative(s: seq<int>, f: (int, nat) -> int, seed: int, k: nat)
    requires 1 <= k <= |s|
    ensures Fold(s[..k], CumulativeStep(f), seed) == SumOver(s, f, 0, k)
    decreases k
  {
    FoldSnoc(s, CumulativeStep(f), seed, k - 1);
    if k > 1 {
      FoldCumulative(s, f, seed, k - 1);
    }
  }

  /** A forward scan with the cumulative step is the sequence of running totals. */
  lemma CumulativeScanIsPrefixSums(s: seq<int>, f: (int, nat) -> int, seed: int)
    ensures ScanLeft(s, CumulativeStep(f), seed) == PrefixSums(s, f)
  {
    forall i | 0 <= i < |s|
      ensures ScanLeft(s, CumulativeStep(f), seed)[i] == PrefixSums(s, f)[i]
    {
      FoldCumulative(s, f, seed, i + 1);
    }
  }

  /** `cumulative_sum(array, fn)`: in place, slot 0 becomes fn(slot 0, 0) and
      slot i becomes new slot i - 1 + fn(slot i, i); the last slot is
      `sum(array, fn)` of the original. */
  method CumulativeSum(a: array<int>, f: (int, nat) -> int)
    requires a.Length >= 1
    modifies a
    ensures a[..] == PrefixSums(old(a[..]), f)
    ensures a[0] == f(old(a[0]), 0)
    ensures forall i :: 1 <= i < a.Length ==> a[i] == a[i - 1] + f(old(a[i]), i)
    ensures a[a.Length - 1] == SumOver(old(a[..]), f, 0, a.Length)
  {
    ghost var s := a[..];
    Reduce(a, CumulativeStep(f));
    CumulativeScanIsPrefixSums(s, f, s[0]);
  }

  /** `cumulative_sum_copy(array, fn)`: the running totals in a fresh vector;
      the input is left untouched. */
  method CumulativeSumCopy(a: array<int>, f: (int, nat) -> int) returns (r: seq<int>)
    requires a.Length >= 1
    ensures r == PrefixSums(a[..], f)
    ensures |r| == a.Length && r[0] == f(a[0], 0)
    ensures forall i :: 1 <= i < a.Length ==> r[i] == r[i - 1] + f(a[i], i)
    ensures r[a.Length - 1] == SumOver(a[..], f, 0, a.Length)
  {
    r := ReduceCopy(a, CumulativeStep(f));
    CumulativeScanIsPrefixSums(a[..], f, a[0]);
  }
}
