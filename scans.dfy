/** The `reduce*` family: forward and backward prefix folds (scans) with an
    explicit seed, in place or into a fresh vector, and the fold that keeps
    only its final value. Each seedless overload passes the container's
    first element as the seed. */
module Scans {

  /** Left fold of a whole sequence: element k is combined as fn(acc, s[k], k). */
  function Fold<T, U>(s: seq<T>, f: (U, T, nat) -> U, seed: U): U
    decreases |s|
  {
    if s == [] then seed else f(Fold(s[..|s| - 1], f, seed), s[|s| - 1], |s| - 1)
  }

  /** Forward scan: slot i holds the fold of the first i + 1 elements. */
  function ScanLeft<T, U>(s: seq<T>, f: (U, T, nat) -> U, seed: U): seq<U>
  {
    seq(|s|, i requires 0 <= i < |s| => Fold(s[..i + 1], f, seed))
  }

  /** Right fold of a suffix: its first element is combined last, with the
      index counted from the back (0 for the very last element). */
  function FoldBack<T, U>(t: seq<T>, f: (U, T, nat) -> U, seed: U): U
    decreases |t|
  {
    if t == [] then seed else f(FoldBack(t[1..], f, seed), t[0], |t| - 1)
  }

  /** Backward scan: slot j holds the right fold of the suffix from j, in
      the original index order. */
  function ScanRight<T, U>(s: seq<T>, f: (U, T, nat) -> U, seed: U): seq<U>
  {
    seq(|s|, j requires 0 <= j < |s| => FoldBack(s[j..], f, seed))
  }

  function Reverse<T>(s: seq<T>): seq<T>
  {
    seq(|s|, i requires 0 <= i < |s| => s[|s| - 1 - i])
  }

  /** Folding one more element: the fold of s[..k + 1] is fn(fold of s[..k], s[k], k). */
  lemma FoldSnoc<T, U>(s: seq<T>, f: (U, T, nat) -> U, seed: U, k: nat)
    requires k < |s|
    ensures Fold(s[..k + 1], f, seed) == f(Fold(s[..k], f, seed), s[k], k)
  {
    assert s[..k + 1][..k] == s[..k];
  }

  /** The forward scan starts with fn(seed, s[0], 0) and then combines each
      element with the value just produced to its left. */
  lemma ScanLeftRecurrence<T, U>(s: seq<T>, f: (U, T, nat) -> U, seed: U)
    requires |s| >= 1
    ensures |ScanLeft(s, f, seed)| == |s|
    ensures ScanLeft(s, f, seed)[0] == f(seed, s[0], 0)
    ensures forall i :: 1 <= i < |s| ==> ScanLeft(s, f, seed)[i] == f(ScanLeft(s, f, seed)[i - 1], s[i], i)
    ensures ScanLeft(s, f, seed)[|s| - 1] == Fold(s, f, seed)
  {
    FoldSnoc(s, f, seed, 0);
    forall i | 1 <= i < |s|
      ensures ScanLeft(s, f, seed)[i] == f(ScanLeft(s, f, seed)[i - 1], s[i], i)
    {
      FoldSnoc(s, f, seed, i);
    }
    assert s[..|s|] == s;
  }

  /** The backward scan starts at the last slot with fn(seed, s[n - 1], 0) and
      then combines slot j with the value just produced to its right, at
      index n - 1 - j. */
  lemma ScanRightRecurrence<T, U>(s: seq<T>, f: (U, T, nat) -> U, seed: U)
    requires |s| >= 1
    ensures |ScanRight(s, f, seed)| == |s|
    ensures ScanRight(s, f, seed)[|s| - 1] == f(seed, s[|s| - 1], 0)
    ensures forall j :: 0 <= j < |s| - 1 ==>
      ScanRight(s, f, seed)[j] == f(ScanRight(s, f, seed)[j + 1], s[j], |s| - 1 - j)
  {
    var last := s[|s| - 1..];
    assert last[1..] == [] && last[0] == s[|s| - 1];
    assert FoldBack(last, f, seed) == f(FoldBack([], f, seed), s[|s| - 1], 0);
    forall j | 0 <= j < |s| - 1
      ensures ScanRight(s, f, seed)[j] == f(ScanRight(s, f, seed)[j + 1], s[j], |s| - 1 - j)
    {
      assert s[j..][1..] == s[j + 1..];
    }
  }

  /** A right fold is a left fold of the reversed sequence. */
  lemma {:induction false} FoldBackIsFoldOfReverse<T, U>(t: seq<T>, f: (U, T, nat) -> U, seed: U)
    ensures FoldBack(t, f, seed) == Fold(Reverse(t), f, seed)
    decreases |t|
  {
    if t != [] {
      var r := Reverse(t);
      assert r[..|r| - 1] == Reverse(t[1..]);
      FoldBackIsFoldOfReverse(t[1..], f, seed);
    }
  }

  /** The backward scan of s is the forward scan of reversed s, read backwards:
      both folds count indices from the element they start at. */
  lemma ScanRightIsReversedScanLeft<T, U>(s: seq<T>, f: (U, T, nat) -> U, seed: U)
    ensures ScanRight(s, f, seed) == Reverse(ScanLeft(Reverse(s), f, seed))
  {
    var n := |s|;
    forall j | 0 <= j < n
      ensures ScanRight(s, f, seed)[j] == Reverse(ScanLeft(Reverse(s), f, seed))[j]
    {
      assert Reverse(s[j..]) == Reverse(s)[..n - 1 - j + 1];
      FoldBackIsFoldOfReverse(s[j..], f, seed);
    }
  }

  /** The seedless overloads break the reversal property: `reduce_reverse(a, f)`
      seeds with a[0], while `reduce(reverse(a), f)` seeds with a[n - 1].
      For a = [1, 2] and a running sum, the first gives [4, 3] and the
      reversed second gives [5, 4]. */
  lemma SeedlessReverseIsNotReversedSeedless()
    ensures var a, add := [1, 2], (acc: int, x: int, _: nat) => acc + x;
      ScanRight(a, add, a[0]) == [4, 3] &&
      Reverse(ScanLeft(Reverse(a), add, Reverse(a)[0])) == [5, 4]
  {
    var a, add := [1, 2], (acc: int, x: int, _: nat) => acc + x;
    assert a[1..] == [2] && a[1..][1..] == [];
    assert FoldBack(a[1..], add, 1) == 3;
    assert FoldBack(a, add, 1) == 4;
    var r := Reverse(a);
    assert r == [2, 1];
    assert r[..1] == [2] && r[..1][..0] == [] && r[..2] == r && r[..2][..1] == [2];
    assert Fold(r[..1], add, 2) == 4;
    assert Fold(r[..2], add, 2) == 5;
  }

  /** `reduce_to_single(array, fn, item)`: curr = fn(item, array[0], 0), then
      curr = fn(curr, array[i], i) for i = 1 .. n - 1; the last value of the
      forward scan seeded with item. */
  method ReduceToSingleFrom<T, U>(a: array<T>, f: (U, T, nat) -> U, item: U) returns (r: U)
    requires a.Length >= 1
    ensures r == Fold(a[..], f, item)
    ensures r == ScanLeft(a[..], f, item)[a.Length - 1]
  {
    ghost var s := a[..];
    var curr := f(item, a[0], 0);
    FoldSnoc(s, f, item, 0);
    var i := 1;
    while i < a.Length
      invariant 1 <= i <= a.Length
      invariant curr == Fold(s[..i], f, item)
    {
      FoldSnoc(s, f, item, i);
      curr := f(curr, a[i], i);
      i := i + 1;
    }
    assert s[..a.Length] == s;
    r := curr;
  }

  /** `reduce_to_single(array, fn)`: seeded with array[0], so array[0] is
      first folded with itself. */
  method ReduceToSingle<T>(a: array<T>, f: (T, T, nat) -> T) returns (r: T)
    requires a.Length >= 1
    ensures r == ScanLeft(a[..], f, a[0])[a.Length - 1]
  {
    r := ReduceToSingleFrom(a, f, a[0]);
  }

  /** `reduce(array, fn, item)`: in place, slot 0 becomes fn(item, slot 0, 0)
      and each later slot i becomes fn(new slot i - 1, slot i, i). */
  method ReduceFrom<T>(a: array<T>, f: (T, T, nat) -> T, item: T)
    requires a.Length >= 1
    modifies a
    ensures a[..] == ScanLeft(old(a[..]), f, item)
    ensures a[0] == f(item, old(a[0]), 0)
    ensures forall i :: 1 <= i < a.Length ==> a[i] == f(a[i - 1], old(a[i]), i)
  {
    ghost var s := a[..];
    FoldSnoc(s, f, item, 0);
    a[0] := f(item, a[0], 0);
    var i := 1;
    while i < a.Length
      invariant 1 <= i <= a.Length
      invariant forall k :: 0 <= k < i ==> a[k] == Fold(s[..k + 1], f, item)
      invariant forall k :: i <= k < a.Length ==> a[k] == s[k]
    {
      FoldSnoc(s, f, item, i);
      a[i] := f(a[i - 1], a[i], i);
      i := i + 1;
    }
    ScanLeftRecurrence(s, f, item);
  }

  /** `reduce(array, fn)`: seeded with array[0] as it was on entry. */
  method Reduce<T>(a: array<T>, f: (T, T, nat) -> T)
    requires a.Length >= 1
    modifies a
    ensures a[..] == ScanLeft(old(a[..]), f, old(a[0]))
    ensures a[0] == f(old(a[0]), old(a[0]), 0)
  {
    ReduceFrom(a, f, a[0]);
  }

  /** One step of the right fold of the suffix from j, whose index is n - 1 - j. */
  lemma FoldBackStep<T, U>(s: seq<T>, f: (U, T, nat) -> U, seed: U, j: nat)
    requires j < |s|
    ensures FoldBack(s[j..], f, seed) ==
      f(if j + 1 == |s| then seed else FoldBack(s[j + 1..], f, seed), s[j], |s| - 1 - j)
  {
    assert s[j..][1..] == s[j + 1..];
  }

  /** A sequence whose slot j is the right fold of the suffix from j is the
      backward scan, and so satisfies its recurrence. */
  lemma ScanRightFromFolds<T, U>(s: seq<T>, f: (U, T, nat) -> U, seed: U, r: seq<U>)
    requires |s| >= 1 && |r| == |s|
    requires forall j :: 0 <= j < |s| ==> r[j] == FoldBack(s[j..], f, seed)
    ensures r == ScanRight(s, f, seed)
    ensures r[|s| - 1] == f(seed, s[|s| - 1], 0)
    ensures forall j :: 0 <= j < |s| - 1 ==> r[j] == f(r[j + 1], s[j], |s| - 1 - j)
  {
    assert r == ScanRight(s, f, seed);
    ScanRightRecurrence(s, f, seed);
  }

  /** `reduce_reverse(array, fn, item)`: in place, walking from the back: the
      last slot becomes fn(item, last, 0) and slot n - 1 - k becomes
      fn(new slot n - k, slot n - 1 - k, k). */
  method ReduceReverseFrom<T>(a: array<T>, f: (T, T, nat) -> T, item: T)
    requires a.Length >= 1
    modifies a
    ensures a[..] == ScanRight(old(a[..]), f, item)
    ensures a[a.Length - 1] == f(item, old(a[a.Length - 1]), 0)
    ensures forall j :: 0 <= j < a.Length - 1 ==> a[j] == f(a[j + 1], old(a[j]), a.Length - 1 - j)
  {
    ghost var s := a[..];
    var n := a.Length;
    FoldBackStep(s, f, item, n - 1);
    a[n - 1] := f(item, a[n - 1], 0);
    var k := 1;
    while k < n
      invariant 1 <= k <= n
      invariant forall j :: n - k <= j < n ==> a[j] == FoldBack(s[j..], f, item)
      invariant forall j :: 0 <= j < n - k ==> a[j] == s[j]
    {
      var j := n - 1 - k;
      FoldBackStep(s, f, item, j);
      a[j] := f(a[j + 1], a[j], k);
      k := k + 1;
    }
    ScanRightFromFolds(s, f, item, a[..]);
  }

  /** `reduce_reverse(array, fn)`: seeded with array.front(), the FIRST
      element, although the fold starts from the last. */
  method ReduceReverse<T>(a: array<T>, f: (T, T, nat) -> T)
    requires a.Length >= 1
    modifies a
    ensures a[..] == ScanRight(old(a[..]), f, old(a[0]))
    ensures a[a.Length - 1] == f(old(a[0]), old(a[a.Length - 1]), 0)
  {
    ReduceReverseFrom(a, f, a[0]);
  }

  /** `reduce_copy(array, fn, item)`: the forward scan into a fresh vector;
      the input is left untouched. */
  method ReduceCopyFrom<T, U(0)>(a: array<T>, f: (U, T, nat) -> U, item: U) returns (r: seq<U>)
    requires a.Length >= 1
    ensures r == ScanLeft(a[..], f, item)
    ensures |r| == a.Length && r[0] == f(item, a[0], 0)
    ensures forall i :: 1 <= i < a.Length ==> r[i] == f(r[i - 1], a[i], i)
  {
    ghost var s := a[..];
    FoldSnoc(s, f, item, 0);
    var v := new U[a.Length];
    v[0] := f(item, a[0], 0);
    var it := 1;
    while it < a.Length
      invariant 1 <= it <= a.Length
      invariant forall k :: 0 <= k < it ==> v[k] == Fold(s[..k + 1], f, item)
    {
      FoldSnoc(s, f, item, it);
      v[it] := f(v[it - 1], a[it], it);
      it := it + 1;
    }
    r := v[..];
    ScanLeftRecurrence(s, f, item);
  }

  /** `reduce_copy(array, fn)`: seeded with array[0]. */
  method ReduceCopy<T(0)>(a: array<T>, f: (T, T, nat) -> T) returns (r: seq<T>)
    requires a.Length >= 1
    ensures r == ScanLeft(a[..], f, a[0])
    ensures |r| == a.Length && r[0] == f(a[0], a[0], 0)
  {
    r := ReduceCopyFrom(a, f, a[0]);
  }

  /** `reduce_reverse_copy(array, fn, item)`: the backward scan into a fresh
      vector, filled from the last slot down; the input is left untouched. */
  method ReduceReverseCopyFrom<T, U(0)>(a: array<T>, f: (U, T, nat) -> U, item: U) returns (r: seq<U>)
    requires a.Length >= 1
    ensures r == ScanRight(a[..], f, item)
    ensures |r| == a.Length && r[a.Length - 1] == f(item, a[a.Length - 1], 0)
    ensures forall j :: 0 <= j < a.Length - 1 ==> r[j] == f(r[j + 1], a[j], a.Length - 1 - j)
  {
    ghost var s := a[..];
    var n := a.Length;
    assert s[n - 1..][1..] == [];
    var v := new U[n];
    v[n - 1] := f(item, a[n - 1], 0);
    var it := n - 1;
    while it > 0
      invariant 0 <= it <= n - 1
      invariant forall j :: it <= j < n ==> v[j] == FoldBack(s[j..], f, item)
    {
      assert s[it - 1..][1..] == s[it..];
      v[it - 1] := f(v[it], a[it - 1], n - it);
      it := it - 1;
    }
    r := v[..];
    ScanRightRecurrence(s, f, item);
  }

  /** `reduce_reverse_copy(array, fn)`: seeded with array.front(), the FIRST element. */
  method ReduceReverseCopy<T(0)>(a: array<T>, f: (T, T, nat) -> T) returns (r: seq<T>)
    requires a.Length >= 1
    ensures r == ScanRight(a[..], f, a[0])
    ensures |r| == a.Length && r[a.Length - 1] == f(a[0], a[a.Length - 1], 0)
  {
    r := ReduceReverseCopyFrom(a, f, a[0]);
  }
}
