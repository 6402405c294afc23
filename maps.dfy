/** The `for_each*` family: index-aware maps over a container, in place or
    into a fresh pre-sized vector, sequential or parallel.

    A parallel loop (an OpenMP `parallel for`) writes each slot from that
    slot's own old value only, so it is modelled as a Dafny `forall`
    statement: every assignment reads the state from before the loop, which
    is exactly the result of any schedule of index-disjoint workers. A
    sequential loop is a `while` loop in ascending index order. */
module Maps {

  /** The slots rewritten by a subset map: `[lo, hi)`, every other slot kept. */
  function MapIndexedWithin<T>(s: seq<T>, lo: int, hi: int, f: (T, nat) -> T): seq<T>
  {
    seq(|s|, i requires 0 <= i < |s| => if lo <= i < hi then f(s[i], i) else s[i])
  }

  /** `for_each(array, fn)`: every slot i becomes fn(old slot i, i), in ascending order. */
  method ForEach<T>(a: array<T>, f: (T, nat) -> T)
    modifies a
    ensures forall i :: 0 <= i < a.Length ==> a[i] == f(old(a[i]), i)
  {
    var i := 0;
    while i < a.Length
      invariant 0 <= i <= a.Length
      invariant forall k :: 0 <= k < i ==> a[k] == f(old(a[k]), k)
      invariant forall k :: i <= k < a.Length ==> a[k] == old(a[k])
    {
      a[i] := f(a[i], i);
      i := i + 1;
    }
  }

  /** `for_each_parallel(array, fn)`: the same map, each index assigned independently. */
  method ForEachParallel<T>(a: array<T>, f: (T, nat) -> T)
    modifies a
    ensures forall i :: 0 <= i < a.Length ==> a[i] == f(old(a[i]), i)
  {
    forall i | 0 <= i < a.Length {
      a[i] := f(a[i], i);
    }
  }

  /** `for_each_subset(array, begin, fromEnd, fn)`: rewrites the slots in
      `[begin, n - fromEnd)` in ascending order and leaves the others alone
      (nothing at all when that range is empty). */
  method ForEachSubset<T>(a: array<T>, begin: nat, fromEnd: nat, f: (T, nat) -> T)
    requires begin <= a.Length && fromEnd <= a.Length
    modifies a
    ensures a[..] == MapIndexedWithin(old(a[..]), begin, a.Length - fromEnd, f)
    ensures forall i :: 0 <= i < a.Length && begin <= i < a.Length - fromEnd ==> a[i] == f(old(a[i]), i)
    ensures forall i :: 0 <= i < a.Length && !(begin <= i < a.Length - fromEnd) ==> a[i] == old(a[i])
  {
    var hi := a.Length - fromEnd;
    var i := begin;
    while i < hi
      invariant begin <= i && (i <= hi || i == begin)
      invariant forall k :: 0 <= k < a.Length ==> a[k] == (if begin <= k < i then f(old(a[k]), k) else old(a[k]))
    {
      a[i] := f(a[i], i);
      i := i + 1;
    }
  }

  /** `for_each_parallel_subset(array, begin, fromEnd, fn)`: the subset map, each index independently. */
  method ForEachParallelSubset<T>(a: array<T>, begin: nat, fromEnd: nat, f: (T, nat) -> T)
    requires begin <= a.Length && fromEnd <= a.Length
    modifies a
    ensures a[..] == MapIndexedWithin(old(a[..]), begin, a.Length - fromEnd, f)
    ensures forall i :: 0 <= i < a.Length && begin <= i < a.Length - fromEnd ==> a[i] == f(old(a[i]), i)
    ensures forall i :: 0 <= i < a.Length && !(begin <= i < a.Length - fromEnd) ==> a[i] == old(a[i])
  {
    forall i | begin <= i < a.Length - fromEnd {
      a[i] := f(a[i], i);
    }
  }

  /** The values a pairwise exclude-last map produces: slot i from slots i and i + 1. */
  function PairwiseMapped<T>(s: seq<T>, f: (T, T, nat) -> T): seq<T>
    requires |s| >= 1
  {
    seq(|s| - 1, i requires 0 <= i < |s| - 1 => f(s[i], s[i + 1], i))
  }

  /** `for_each_exclude_last(array, fn)`: slot i becomes fn(slot i, slot i + 1, i)
      for every i < n - 1, in ascending order, so slot i + 1 still holds its
      original value when slot i is written; then the last slot is popped.
      The returned vector is the first n - 1 slots. */
  method ForEachExcludeLast<T>(a: array<T>, f: (T, T, nat) -> T) returns (r: seq<T>)
    requires a.Length >= 1
    modifies a
    ensures r == PairwiseMapped(old(a[..]), f)
    ensures |r| == a.Length - 1
    ensures forall i :: 0 <= i < a.Length - 1 ==> r[i] == f(old(a[i]), old(a[i + 1]), i)
    ensures r == a[..a.Length - 1] && a[a.Length - 1] == old(a[a.Length - 1])
  {
    var i := 0;
    while i < a.Length - 1
      invariant 0 <= i <= a.Length - 1
      invariant forall k :: 0 <= k < i ==> a[k] == f(old(a[k]), old(a[k + 1]), k)
      invariant forall k :: i <= k < a.Length ==> a[k] == old(a[k])
    {
      a[i] := f(a[i], a[i + 1], i);
      i := i + 1;
    }
    r := a[..a.Length - 1];
  }

  /** `for_each_parallel_exclude_last(array, fn)`: slot i becomes fn(slot i, i)
      for every i < n - 1, each index independently; then the last slot is popped. */
  method ForEachParallelExcludeLast<T>(a: array<T>, f: (T, nat) -> T) returns (r: seq<T>)
    requires a.Length >= 1
    modifies a
    ensures |r| == a.Length - 1
    ensures forall i :: 0 <= i < a.Length - 1 ==> r[i] == f(old(a[i]), i)
    ensures r == a[..a.Length - 1] && a[a.Length - 1] == old(a[a.Length - 1])
  {
    forall i | 0 <= i < a.Length - 1 {
      a[i] := f(a[i], i);
    }
    r := a[..a.Length - 1];
  }

  /** `for_each_parallel_copy(array, fn)`: a fresh vector of the same length,
      pre-sized before the parallel loop, with out[i] = fn(array[i], i). */
  method ForEachParallelCopy<T, U(0)>(a: array<T>, f: (T, nat) -> U) returns (r: seq<U>)
    requires a.Length >= 1
    ensures |r| == a.Length
    ensures forall i :: 0 <= i < a.Length ==> r[i] == f(a[i], i)
  {
    var v := new U[a.Length];
    forall i | 0 <= i < a.Length {
      v[i] := f(a[i], i);
    }
    r := v[..];
  }

  /** `for_each_parallel(begin, end, fn)`: a fresh vector of length end - begin
      with out[k] = fn(begin + k); slot 0 is filled before the parallel loop. */
  method ForEachParallelIndex<U(0)>(begin: int, end: int, f: int -> U) returns (r: seq<U>)
    requires end > begin
    ensures |r| == end - begin
    ensures forall k :: 0 <= k < end - begin ==> r[k] == f(begin + k)
  {
    var v := new U[end - begin];
    v[0] := f(begin);
    forall it | begin + 1 <= it < end {
      v[it - begin] := f(it);
    }
    r := v[..];
  }

  /** `for_each(begin, end, fn)`: the index-range map, filled in ascending order. */
  method ForEachIndex<U(0)>(begin: int, end: int, f: int -> U) returns (r: seq<U>)
    requires end > begin
    ensures |r| == end - begin
    ensures forall k :: 0 <= k < end - begin ==> r[k] == f(begin + k)
  {
    var v := new U[end - begin];
    v[0] := f(begin);
    var it := begin + 1;
    while it < end
      invariant begin + 1 <= it <= end
      invariant forall k :: 0 <= k < it - begin ==> v[k] == f(begin + k)
    {
      v[it - begin] := f(it);
      it := it + 1;
    }
    r := v[..];
  }

  /** The container a provide-array map hands to fn at step k: the input
      with slots below k already rewritten and the others original. */
  function RewrittenBelow<T>(s: seq<T>, f: (T, nat, seq<T>) -> T, k: nat): (t: seq<T>)
    requires k <= |s|
    ensures |t| == |s|
    decreases k
  {
    if k == 0 then s
    else
      var t := RewrittenBelow(s, f, k - 1);
      t[k - 1 := f(t[k - 1], k - 1, t)]
  }

  /** `for_each_provide_array(array, fn)`: slot i becomes fn(slot i, i, array)
      in ascending order, where fn sees the container as it is at that moment. */
  method ForEachProvideArray<T>(a: array<T>, f: (T, nat, seq<T>) -> T)
    modifies a
    ensures a[..] == RewrittenBelow(old(a[..]), f, a.Length)
    ensures forall i :: 0 <= i < a.Length ==> a[i] == f(old(a[i]), i, RewrittenBelow(old(a[..]), f, i))
    ensures forall i :: 0 <= i < a.Length ==> a[i] == f(old(a[i]), i, a[..i] + old(a[..])[i..])
  {
    ghost var s := a[..];
    var i := 0;
    while i < a.Length
      invariant 0 <= i <= a.Length
      invariant a[..] == RewrittenBelow(s, f, i)
    {
      a[i] := f(a[i], i, a[..]);
      i := i + 1;
    }
    ProvideArrayResult(s, f, a[..]);
  }

  /** Once step k is done, later steps leave slots below k alone, and
      slots from k onwards still hold the input's values. */
  lemma {:induction false} RewrittenBelowFrame<T>(s: seq<T>, f: (T, nat, seq<T>) -> T, k: nat, m: nat)
    requires k <= m <= |s|
    ensures RewrittenBelow(s, f, m)[..k] == RewrittenBelow(s, f, k)[..k]
    ensures RewrittenBelow(s, f, k)[k..] == s[k..]
    decreases m
  {
    if m > k {
      RewrittenBelowFrame(s, f, k, m - 1);
    } else if k > 0 {
      RewrittenBelowFrame(s, f, k - 1, k - 1);
      var t := RewrittenBelow(s, f, k - 1);
      assert t[k - 1..] == s[k - 1..];
      assert RewrittenBelow(s, f, k)[k..] == t[k..];
    }
  }

  /** What fn sees in `for_each_provide_array`: at index i, slots below i
      are already final, slots from i on are the originals, and slot i
      gets fn(original slot i, i, that container). */
  lemma ProvideArraySees<T>(s: seq<T>, f: (T, nat, seq<T>) -> T, i: nat)
    requires i < |s|
    ensures RewrittenBelow(s, f, i)[i..] == s[i..]
    ensures RewrittenBelow(s, f, i)[..i] == RewrittenBelow(s, f, |s|)[..i]
    ensures RewrittenBelow(s, f, |s|)[i] == f(s[i], i, RewrittenBelow(s, f, i))
    ensures RewrittenBelow(s, f, i) == RewrittenBelow(s, f, |s|)[..i] + s[i..]
  {
    RewrittenBelowFrame(s, f, i, |s|);
    RewrittenBelowFrame(s, f, i + 1, |s|);
    RewrittenBelowFrame(s, f, i, i);
    assert RewrittenBelow(s, f, |s|)[i] == RewrittenBelow(s, f, |s|)[..i + 1][i];
    assert RewrittenBelow(s, f, i)[i] == s[i..][0];
    var t := RewrittenBelow(s, f, i);
    assert t == t[..i] + t[i..];
  }

  /** The result of the provide-array loop, slot by slot: slot i is fn of
      the original slot i, i, and the container whose slots below i are the
      final ones and whose slots from i on are the originals. */
  lemma ProvideArrayResult<T>(s: seq<T>, f: (T, nat, seq<T>) -> T, r: seq<T>)
    requires r == RewrittenBelow(s, f, |s|)
    ensures forall i :: 0 <= i < |s| ==> r[i] == f(s[i], i, RewrittenBelow(s, f, i))
    ensures forall i :: 0 <= i < |s| ==> r[i] == f(s[i], i, r[..i] + s[i..])
  {
    forall i | 0 <= i < |s|
      ensures r[i] == f(s[i], i, RewrittenBelow(s, f, i))
      ensures RewrittenBelow(s, f, i) == r[..i] + s[i..]
    {
      ProvideArraySees(s, f, i);
    }
  }

  /** `for_each_copy(array, fn)`: copies the container, then rewrites the copy
      in ascending order with fn(slot i, i, original array); the input is
      left untouched. */
  method ForEachCopy<T>(a: array<T>, f: (T, nat, seq<T>) -> T) returns (r: seq<T>)
    ensures |r| == a.Length
    ensures forall i :: 0 <= i < a.Length ==> r[i] == f(a[i], i, a[..])
  {
    var tmp := new T[a.Length](k requires 0 <= k < a.Length reads a => a[k]);
    var i := 0;
    while i < tmp.Length
      invariant 0 <= i <= tmp.Length == a.Length
      invariant forall k :: 0 <= k < i ==> tmp[k] == f(a[k], k, a[..])
      invariant forall k :: i <= k < tmp.Length ==> tmp[k] == a[k]
    {
      tmp[i] := f(tmp[i], i, a[..]);
      i := i + 1;
    }
    r := tmp[..];
  }

  /** fn reads the container only at its own index and above. */
  ghost predicate ReadsOnlyFromOwnIndex<T(!new)>(f: (T, nat, seq<T>) -> T)
  {
    forall x: T, i: nat, u: seq<T>, w: seq<T> ::
      i <= |u| == |w| && u[i..] == w[i..] ==> f(x, i, u) == f(x, i, w)
  }

  /** When fn reads the container only at its own index and above,
      `for_each_provide_array` and `for_each_copy` compute the same vector:
      the slots fn can see are still the originals in both. */
  lemma ProvideArrayMatchesCopy<T(!new)>(s: seq<T>, f: (T, nat, seq<T>) -> T)
    requires ReadsOnlyFromOwnIndex(f)
    ensures RewrittenBelow(s, f, |s|) == seq(|s|, i requires 0 <= i < |s| => f(s[i], i, s))
  {
    forall i | 0 <= i < |s|
      ensures RewrittenBelow(s, f, |s|)[i] == f(s[i], i, s)
    {
      ProvideArraySees(s, f, i);
    }
  }
}
