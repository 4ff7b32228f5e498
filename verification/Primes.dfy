/** Prime numbers: the table of small primes, and inverses modulo a prime. */
module Primes {
  import opened Common
  import opened Arith

  ghost predicate IsPrime(p: nat) {
    p >= 2 && forall d :: 2 <= d < p ==> p % d != 0
  }

  // ---------- divisibility ----------

  lemma MultipleMod(k: int, d: nat)
    requires d > 0
    ensures (k * d) % d == 0
  {
    ModIs(k * d, d, 0, k);
  }

  lemma ModIs(x: int, d: nat, r: nat, k: int)
    requires d > 0 && r < d && x == k * d + r
    ensures x % d == r
  {
    var q := x / d;
    assert x == q * d + x % d;
    if q < k {
      MulGe(q + 1, k, d);
    } else if q > k {
      MulGe(k + 1, q, d);
    }
  }

  // ---------- the sieve of the table ----------

  /** A factor of n no greater than its square root, and less than `limit`. */
  ghost predicate HasFactor(n: nat, limit: nat) {
    exists f :: 2 <= f < limit && f * f <= n && n % f == 0
  }

  lemma CompositeHasFactor(n: nat, limit: nat)
    requires n >= 2 && !IsPrime(n) && n < limit * limit
    ensures HasFactor(n, limit)
  {
    var d :| 2 <= d < n && n % d == 0;
    var e := Cofactor(n, d);
    MultipleMod(d, e);
    var f := if d <= e then d else e;
    SmallerSquare(d, e);
    if f >= limit {
      MulGe(limit, f, limit);
      MulGe(limit, f, f);
    }
  }

  lemma Cofactor(n: nat, d: nat) returns (e: nat)
    requires 2 <= d < n && n % d == 0
    ensures n == d * e && 2 <= e < n
  {
    e := n / d;
    assert e != 0 && e != 1;
    MulGe(2, d, e);
  }

  lemma SmallerSquare(d: nat, e: nat)
    ensures d <= e ==> d * d <= d * e
    ensures e <= d ==> e * e <= d * e
  {
    if d <= e {
      MulGe(d, e, d);
    } else {
      MulGe(e, d, e);
    }
  }

  lemma FactorMeansComposite(n: nat, limit: nat)
    requires HasFactor(n, limit) && n >= 2
    ensures !IsPrime(n)
  {
    var f :| 2 <= f < limit && f * f <= n && n % f == 0;
    MulGe(2, f, f);
  }

  /** Multiples of a number already crossed out are crossed out already. */
  lemma FactorOfFactor(n: nat, f: nat)
    requires 2 <= f && f * f <= n && n % f == 0 && HasFactor(f, f)
    ensures HasFactor(n, f)
  {
    var g :| 2 <= g < f && g * g <= f && f % g == 0;
    DividesTrans(n, f, g);
    MulGe(1, f, f);
  }

  lemma DividesTrans(n: nat, f: nat, g: nat)
    requires f > 0 && g > 0 && n % f == 0 && f % g == 0
    ensures n % g == 0
  {
    var a, b := n / f, f / g;
    assert n == a * f && f == b * g;
    Associate(a, b, g);
    MultipleMod(a * b, g);
  }

  lemma Associate(a: nat, b: nat, g: nat)
    ensures a * (b * g) == a * b * g
  {
  }

  lemma HasFactorStep(n: nat, factor: nat)
    requires factor >= 2
    ensures HasFactor(n, factor + 1) <==> HasFactor(n, factor) || (factor * factor <= n && n % factor == 0)
  {
  }

  /** Crosses out the multiples of a factor, starting at its square. */
  method CrossOut(composite: array<bool>, factor: nat)
    requires factor >= 2
    modifies composite
    ensures forall n :: 0 <= n < composite.Length ==>
              composite[n] == (old(composite[n]) || (factor * factor <= n && n % factor == 0))
  {
    var m := factor * factor;
    MultipleMod(factor, factor);
    while m < composite.Length
      invariant m >= factor * factor && m % factor == 0
      invariant forall n :: 0 <= n < composite.Length ==>
                  composite[n] == (old(composite[n]) || (factor * factor <= n < m && n % factor == 0))
    {
      composite[m] := true;
      NextMultiple(m, factor);
      m := m + factor;
    }
  }

  lemma NextMultiple(m: nat, factor: nat)
    requires factor > 0 && m % factor == 0
    ensures (m + factor) % factor == 0
    ensures forall n :: m < n < m + factor ==> n % factor != 0
  {
    var k := m / factor;
    ModIs(m + factor, factor, 0, k + 1);
    forall n | m < n < m + factor ensures n % factor != 0 {
      ModIs(n, factor, n - m, k);
    }
  }

  ghost predicate StrictlyIncreasing(s: seq<nat>) {
    forall i, j :: 0 <= i < j < |s| ==> s[i] < s[j]
  }

  /** The table holds exactly the primes below the limit, in increasing order. */
  method GeneratePrimeTable(limit: nat) returns (primes: seq<nat>)
    ensures StrictlyIncreasing(primes)
    ensures forall n: nat :: n in primes <==> n < limit && IsPrime(n)
  {
    hide IsPrime;
    var composite := new bool[limit](_ => false);
    var factor := 2;
    while factor * factor < limit
      invariant factor >= 2
      invariant forall n :: 0 <= n < limit ==> composite[n] == HasFactor(n, factor)
      decreases limit - factor
    {
      MulGe(1, factor, factor);
      if !composite[factor] {
        CrossOut(composite, factor);
      }
      forall n | 0 <= n < limit ensures composite[n] == HasFactor(n, factor + 1) {
        HasFactorStep(n, factor);
        if factor * factor <= n && n % factor == 0 && HasFactor(factor, factor) {
          FactorOfFactor(n, factor);
        }
      }
      factor := factor + 1;
    }
    primes := CollectPrimes(composite, factor);
  }

  method CollectPrimes(composite: array<bool>, ghost factor: nat) returns (primes: seq<nat>)
    requires factor >= 2 && factor * factor >= composite.Length
    requires forall n :: 0 <= n < composite.Length ==> composite[n] == HasFactor(n, factor)
    ensures StrictlyIncreasing(primes)
    ensures forall n: nat :: n in primes <==> n < composite.Length && IsPrime(n)
  {
    hide IsPrime, HasFactor;
    primes := [];
    SmallNumbers();
    var n: nat := 2;
    while n < composite.Length
      invariant 2 <= n
      invariant n <= composite.Length || n == 2
      invariant StrictlyIncreasing(primes)
      invariant forall i :: 0 <= i < |primes| ==> primes[i] < n
      invariant forall k: nat :: k in primes <==> k < n && k < composite.Length && IsPrime(k)
    {
      CrossedOutMeansComposite(n, factor);
      if !composite[n] {
        primes := primes + [n];
      }
      n := n + 1;
    }
  }

  lemma SmallNumbers()
    ensures !IsPrime(0) && !IsPrime(1)
  {
  }

  lemma CrossedOutMeansComposite(n: nat, factor: nat)
    requires 2 <= n < factor * factor
    ensures HasFactor(n, factor) <==> !IsPrime(n)
  {
    if HasFactor(n, factor) {
      FactorMeansComposite(n, factor);
    } else if !IsPrime(n) {
      CompositeHasFactor(n, factor);
    }
  }

  // ---------- inverses ----------

  /** A common divisor of a and b that is a combination of them. */
  lemma Bezout(a: nat, b: nat) returns (g: nat, x: int, y: int, ka: nat, kb: nat)
    ensures g == a * x + b * y
    ensures a == ka * g && b == kb * g
    decreases b
  {
    if b == 0 {
      g, x, y, ka, kb := a, 1, 0, 1, 0;
    } else {
      var x', y', kr;
      var q, r := a / b, a % b;
      g, x', y', kb, kr := Bezout(b, r);
      x, y, ka := y', x' - q * y', q * kb + kr;
      assert a == b * q + r;
      assert a * x + b * y == r * y' + b * q * y' + b * x' - b * q * y';
      assert ka * g == q * (kb * g) + kr * g;
    }
  }

  /** Modulo a prime, whatever the prime does not divide has an inverse. */
  lemma InverseExists(a: nat, p: nat)
    requires IsPrime(p) && a % p != 0
    ensures exists x: nat :: x < p && IsInverse(a, x, p)
  {
    var g, x, y, ka, kp := Bezout(a, p);
    if g != 1 {
      DivisorOfPrime(p, g, kp);
      MultipleMod(ka, g);
    }
    var r := x % p;
    var q := x / p;
    assert x == q * p + r;
    assert a * r == a * x - a * q * p == (-y - a * q) * p + 1;
    ModIs(a * r, p, 1, -y - a * q);
    assert IsInverse(a, r, p);
  }

  predicate IsInverse(a: nat, x: nat, p: nat)
    requires p > 1
  {
    a * x % p == 1
  }

  lemma DivisorOfPrime(p: nat, g: nat, k: nat)
    requires IsPrime(p) && p == k * g && g != 1
    ensures g == p
  {
    if 0 < g < p {
      MultipleMod(k, g);
    } else if g > p {
      if k >= 1 {
        MulGe(1, k, g);
      }
    }
  }

  /** What the big-number library's modular inverse yields: an inverse whenever there is one. */
  method ModInverse(a: nat, p: nat) returns (found: bool, x: nat)
    requires p > 1
    ensures found ==> x < p && IsInverse(a, x, p)
    ensures !found ==> forall y: nat :: y < p ==> !IsInverse(a, y, p)
  {
    x := 0;
    while x < p
      invariant x <= p
      invariant forall y: nat :: y < x ==> !IsInverse(a, y, p)
    {
      if IsInverse(a, x, p) {
        return true, x;
      }
      x := x + 1;
    }
    found := false;
  }
}
