/** Integer power by recursion on the exponent (`const_power`). */
module Power {

  /** Product of the elements of a sequence; the product of nothing is 1. */
  function Product(s: seq<int>): int
  {
    if s == [] then 1 else s[0] * Product(s[1..])
  }

  /** `const_power(number, N)`: `number` when N is 1, otherwise
      `number * const_power(number, N - 1)`. The recursion only reaches
      its terminal case when it starts from N >= 1. */
  function ConstPower(x: int, n: int): (r: int)
    requires n >= 1
    ensures n == 1 ==> r == x
    ensures x == 0 ==> r == 0
    ensures x == 1 ==> r == 1
    decreases n
  {
    if n == 1 then x else x * ConstPower(x, n - 1)
  }

  /** `const_power(x, N)` is x multiplied by itself N times, and x itself when N is 1. */
  lemma {:induction false} ConstPowerIsRepeatedProduct(x: int, n: int)
    requires n >= 1
    ensures ConstPower(x, n) == Product(seq(n, _ => x))
    ensures n == 1 ==> ConstPower(x, n) == x
    decreases n
  {
    var copies := seq(n, _ => x);
    assert copies[0] == x;
    if n == 1 {
      assert copies[1..] == [];
    } else {
      assert copies[1..] == seq(n - 1, _ => x);
      ConstPowerIsRepeatedProduct(x, n - 1);
    }
  }

  /** Reordering a product of three factors. */
  lemma MultiplyRearranged(x: int, p: int, q: int)
    ensures x * (p * q) == p * (x * q)
  {
  }

  /** Exponents add: x^(m + n) == x^m * x^n. */
  lemma {:induction false} ConstPowerAdd(x: int, m: int, n: int)
    requires m >= 1 && n >= 1
    ensures ConstPower(x, m + n) == ConstPower(x, m) * ConstPower(x, n)
    decreases n
  {
    if n == 1 {
      assert ConstPower(x, m + 1) == x * ConstPower(x, m);
    } else {
      ConstPowerAdd(x, m, n - 1);
      var p, q := ConstPower(x, m), ConstPower(x, n - 1);
      assert ConstPower(x, m + n) == x * ConstPower(x, m + n - 1);
      assert ConstPower(x, m + n - 1) == p * q;
      assert ConstPower(x, n) == x * q;
      MultiplyRearranged(x, p, q);
    }
  }
}
