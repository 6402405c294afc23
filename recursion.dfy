/** Bounded iteration: `recurse` and `recurse_move`, which apply
    fn(accumulator, index) with indices 0, 1, ... up to a count, optionally
    stopping early when a keep-going predicate fails. */
module Recursion {
  import opened Power

  /** The accumulator after k applications of fn to v, with indices 0 .. k - 1. */
  function Iterate<T>(f: (T, nat) -> T, v: T, k: nat): T
    decreases k
  {
    if k == 0 then v else f(Iterate(f, v, k - 1), k - 1)
  }

  /** The first application count j' >= j at which iteration stops: either
      the limit is reached or the keep-going predicate fails on the
      accumulator after j' applications. */
  function FirstStop<T>(f: (T, nat) -> T, keepGoing: T -> bool, v: T, j: nat, limit: nat): nat
    decreases limit - j
  {
    if j >= limit || !keepGoing(Iterate(f, v, j)) then j
    else FirstStop(f, keepGoing, v, j + 1, limit)
  }

  /** FirstStop is the first stopping point: never beyond the limit, the
      predicate held at every count before it, and it fails there unless
      the limit was reached. */
  lemma {:induction false} FirstStopIsFirst<T>(f: (T, nat) -> T, keepGoing: T -> bool, v: T, j: nat, limit: nat)
    requires j <= limit
    ensures j <= FirstStop(f, keepGoing, v, j, limit) <= limit
    ensures forall m :: j <= m < FirstStop(f, keepGoing, v, j, limit) ==> keepGoing(Iterate(f, v, m))
    ensures FirstStop(f, keepGoing, v, j, limit) < limit ==>
      !keepGoing(Iterate(f, v, FirstStop(f, keepGoing, v, j, limit)))
    decreases limit - j
  {
    if j < limit && keepGoing(Iterate(f, v, j)) {
      FirstStopIsFirst(f, keepGoing, v, j + 1, limit);
    }
  }

  /** With a predicate that always holds, iteration runs to the limit, so
      `recurse(n, v, fn, kpg)` and `recurse_move(n, v, fn, kpg)` then agree
      with the overloads that take no predicate. */
  lemma {:induction false} FirstStopWhenAlwaysGoing<T>(f: (T, nat) -> T, keepGoing: T -> bool, v: T, j: nat, limit: nat)
    requires j <= limit
    requires forall x :: keepGoing(x)
    ensures FirstStop(f, keepGoing, v, j, limit) == limit
    decreases limit - j
  {
    if j < limit {
      FirstStopWhenAlwaysGoing(f, keepGoing, v, j + 1, limit);
    }
  }

  /** `recurse(n, v, fn)`: fn(v, 0) first, then fn(acc, i) for i = 1 .. n - 1,
      so fn is applied max(n, 1) times. */
  method Recurse<T>(n: int, v: T, f: (T, nat) -> T) returns (r: T)
    ensures r == Iterate(f, v, if n >= 1 then n else 1)
  {
    var fnVal := f(v, 0);
    var i := 1;
    while i < n
      invariant 1 <= i && (i <= n || i == 1)
      invariant fnVal == Iterate(f, v, i)
    {
      fnVal := f(fnVal, i);
      i := i + 1;
    }
    r := fnVal;
  }

  /** `recurse(n, v, fn, kpg)`: fn(v, 0) first, then one more application
      while i < n - 1 and kpg holds of the current accumulator; between 1
      and max(n, 1) applications. */
  method RecurseWhile<T>(n: int, v: T, f: (T, nat) -> T, keepGoing: T -> bool) returns (r: T)
    ensures r == Iterate(f, v, FirstStop(f, keepGoing, v, 1, if n >= 1 then n else 1))
  {
    ghost var limit: nat := if n >= 1 then n else 1;
    var i := 0;
    var fnVal := f(v, i);
    while i < n - 1 && keepGoing(fnVal)
      invariant 0 <= i < limit
      invariant fnVal == Iterate(f, v, i + 1)
      invariant FirstStop(f, keepGoing, v, 1, limit) == FirstStop(f, keepGoing, v, i + 1, limit)
    {
      i := i + 1;
      fnVal := f(fnVal, i);
    }
    r := fnVal;
  }

  /** `recurse_move(n, v, fn, kpg)`: checks kpg before every application and
      stops after n of them; between 0 and max(n, 0) applications. */
  method RecurseMoveWhile<T>(n: int, v: T, f: (T, nat) -> T, keepGoing: T -> bool) returns (r: T)
    ensures r == Iterate(f, v, FirstStop(f, keepGoing, v, 0, if n >= 0 then n else 0))
  {
    ghost var limit: nat := if n >= 0 then n else 0;
    var initValue := v;
    var i := 0;
    while i < n && keepGoing(initValue)
      invariant 0 <= i <= limit
      invariant initValue == Iterate(f, v, i)
      invariant FirstStop(f, keepGoing, v, 0, limit) == FirstStop(f, keepGoing, v, i, limit)
    {
      initValue := f(initValue, i);
      i := i + 1;
    }
    r := initValue;
  }

  /** `recurse_move(n, v, fn)`: fn(acc, i) for i = 0 .. n - 1; no application
      at all when n <= 0. */
  method RecurseMove<T>(n: int, v: T, f: (T, nat) -> T) returns (r: T)
    ensures r == Iterate(f, v, if n >= 0 then n else 0)
  {
    var initValue := v;
    var i := 0;
    while i < n
      invariant 0 <= i && (i <= n || i == 0)
      invariant initValue == Iterate(f, v, i)
    {
      initValue := f(initValue, i);
      i := i + 1;
    }
    r := initValue;
  }

  /** Repeatedly multiplying 1 by x, k times, is `const_power(x, k)`: with
      x = 2 and k = 6, `recurse(6, 1, v -> v * 2)` yields 64. */
  lemma {:induction false} RepeatedMultiplyIsConstPower(x: int, k: nat)
    requires k >= 1
    ensures Iterate((acc: int, _: nat) => acc * x, 1, k) == ConstPower(x, k)
    decreases k
  {
    if k > 1 {
      RepeatedMultiplyIsConstPower(x, k - 1);
    }
  }
}
