/** Facts about products, quotients and powers of two. */
module Arith {

  lemma MulGe(a: int, b: int, k: nat)
    requires a <= b
    ensures a * k <= b * k
  {
  }

  lemma MulGt(a: int, b: int, k: nat)
    requires a < b && k > 0
    ensures a * k < b * k
  {
  }

  lemma MulSwap(a: int, b: int, c: int)
    ensures a * b * c == a * c * b
  {
  }

  lemma DivMul(a: nat, d: nat)
    requires d > 0
    ensures a / d * d <= a
  {
  }

  lemma MulCancel(a: int, b: int, k: int)
    requires k > 0 && a * k <= b * k
    ensures a <= b
  {
    if a > b {
      MulGe(b + 1, a, k);
    }
  }

  lemma DivLower(x: nat, d: nat, q: nat)
    requires d > 0 && q * d <= x
    ensures q <= x / d
  {
    if x / d < q {
      MulGe(x / d + 1, q, d);
    }
  }

  lemma DivExact(x: nat, d: nat, q: nat)
    requires d > 0 && q * d <= x < (q + 1) * d
    ensures x / d == q
  {
    DivLower(x, d, q);
    if x / d > q {
      MulGe(q + 1, x / d, d);
    }
  }

  lemma DivMono(a: nat, b: nat, x: nat)
    requires 0 < a <= b
    ensures x / b <= x / a
  {
    var q := x / b;
    MulGe(a, b, q);
    DivLower(x, a, q);
  }

  lemma QuotientBounds(x: nat, d: nat)
    requires d > 0
    ensures x / d * d <= x < x / d * d + d
  {
  }

  /** What is left of a number in an integer type. */
  function Wrap(x: int, modulus: nat): nat
    requires modulus > 0
  {
    x % modulus
  }

  function Pow2(k: nat): (r: nat)
    ensures r > 0
  {
    if k == 0 then 1 else 2 * Pow2(k - 1)
  }
}
