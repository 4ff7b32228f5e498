/**
 The sieve that rules out multipliers of a fixed factor: a multiplier m is of no use for a
 chain when one of the chain's members F * m * 2^k - 1 or F * m * 2^k + 1 has a small factor.
 */
module Sieve {
  import opened Common
  import opened Arith
  import opened Primes
  import Target

  const MAX_SIEVE_SIZE: nat := 1_000_000

  function Member(factor: nat, m: nat, k: nat, delta: int): int {
    factor * m * Pow2(k) + delta
  }

  /** Does the prime divide one of the first `count` members of the chain? */
  ghost predicate Hits(p: nat, factor: nat, m: nat, delta: int, count: nat)
    requires p > 0
  {
    exists k: nat :: k < count && Member(factor, m, k, delta) % p == 0
  }

  /** Does one of some primes? */
  ghost predicate AnyHits(primes: seq<nat>, factor: nat, m: nat, delta: int, count: nat)
    requires forall i :: 0 <= i < |primes| ==> primes[i] > 0
  {
    exists i :: 0 <= i < |primes| && Hits(primes[i], factor, m, delta, count)
  }

  lemma AnyHitsStep(primes: seq<nat>, i: nat, factor: nat, m: nat, delta: int, count: nat)
    requires i < |primes| && forall j :: 0 <= j < |primes| ==> primes[j] > 0
    ensures AnyHits(primes[..i + 1], factor, m, delta, count)
            <==> AnyHits(primes[..i], factor, m, delta, count) || Hits(primes[i], factor, m, delta, count)
  {
    var longer := primes[..i + 1];
    if AnyHits(longer, factor, m, delta, count) {
      var j :| 0 <= j < |longer| && Hits(longer[j], factor, m, delta, count);
      assert j < i ==> primes[..i][j] == longer[j];
    }
    if AnyHits(primes[..i], factor, m, delta, count) {
      var j :| 0 <= j < i && Hits(primes[..i][j], factor, m, delta, count);
      assert longer[j] == primes[..i][j];
    }
    assert longer[i] == primes[i];
  }

  lemma HitsStep(p: nat, factor: nat, m: nat, delta: int, count: nat)
    requires p > 0
    ensures Hits(p, factor, m, delta, count + 1)
            <==> Hits(p, factor, m, delta, count) || Member(factor, m, count, delta) % p == 0
    ensures !Hits(p, factor, m, delta, 0)
  {
  }

  // ---------- solving for the multiplier ----------

  /**
   The multipliers whose member a prime divides are those congruent to the solved one. The
   equations use `inverse` as an inverse of factor * 2^k, and delta is -1 or 1.
   */
  lemma SolvedMultiplier(a: nat, inverse: nat, p: nat, delta: int, m: nat)
    requires p > 1 && IsInverse(a, inverse, p) && (delta == -1 || delta == 1)
    ensures (a * m + delta) % p == 0 <==> m % p == inverse * (p - delta) % p
  {
    hide IsInverse;
    if (a * m + delta) % p == 0 {
      MemberDivisible(a, inverse, p, delta, m);
    }
    if m % p == inverse * (p - delta) % p {
      MultiplierSolved(a, inverse, p, delta, m);
    }
  }

  lemma QuotientRemainder(x: int, p: nat)
    requires p > 0
    ensures x == x / p * p + x % p
  {
  }

  lemma MemberDivisible(a: nat, inverse: nat, p: nat, delta: int, m: nat)
    requires p > 1 && IsInverse(a, inverse, p) && (delta == -1 || delta == 1)
    requires (a * m + delta) % p == 0
    ensures m % p == inverse * (p - delta) % p
  {
    QuotientRemainder(a * inverse, p);
    QuotientRemainder(inverse * (p - delta), p);
    QuotientRemainder(a * m + delta, p);
    var c, q, t := a * inverse / p, inverse * (p - delta) / p, (a * m + delta) / p;
    var s := inverse * (p - delta) % p;
    ForwardCongruence(a, inverse, p, delta, m, c, q, s, t);
    ModIs(m, p, s, inverse * t - c * m - inverse + q);
  }

  lemma MultiplierSolved(a: nat, inverse: nat, p: nat, delta: int, m: nat)
    requires p > 1 && IsInverse(a, inverse, p) && (delta == -1 || delta == 1)
    requires m % p == inverse * (p - delta) % p
    ensures (a * m + delta) % p == 0
  {
    QuotientRemainder(a * inverse, p);
    QuotientRemainder(inverse * (p - delta), p);
    QuotientRemainder(m, p);
    var c, q, j := a * inverse / p, inverse * (p - delta) / p, m / p;
    var s := inverse * (p - delta) % p;
    BackwardCongruence(a, inverse, p, delta, c, q, s, j);
    ModIs(a * m + delta, p, 0, a * j + 1 + c * (p - delta) - a * q);
  }

  lemma ForwardCongruence(a: int, inverse: int, p: int, delta: int, m: int, c: int, q: int, s: int, t: int)
    requires a * inverse == c * p + 1 && inverse * (p - delta) == q * p + s && a * m + delta == t * p
    ensures m == (inverse * t - c * m - inverse + q) * p + s
  {
    assert inverse * (a * m) == inverse * (t * p) - inverse * delta;
    assert inverse * (a * m) == (a * inverse) * m == (c * p + 1) * m == (c * m) * p + m;
    assert inverse * delta == inverse * p - q * p - s;
    assert inverse * (t * p) == (inverse * t) * p;
  }

  lemma BackwardCongruence(a: int, inverse: int, p: int, delta: int, c: int, q: int, s: int, j: int)
    requires a * inverse == c * p + 1 && inverse * (p - delta) == q * p + s
    ensures a * (j * p + s) + delta == (a * j + 1 + c * (p - delta) - a * q) * p
  {
    assert a * s == a * (inverse * (p - delta)) - a * (q * p);
    assert a * (inverse * (p - delta)) == (a * inverse) * (p - delta) == (c * p + 1) * (p - delta);
    assert (c * p + 1) * (p - delta) == (c * (p - delta)) * p + p - delta;
    assert a * (j * p) == (a * j) * p && a * (q * p) == (a * q) * p;
  }

  /** Multiplying by an inverse of two goes with doubling. */
  lemma InverseOfDouble(a: nat, inverse: nat, half: nat, p: nat)
    requires p > 1 && IsInverse(a, inverse, p) && IsInverse(2, half, p)
    ensures IsInverse(2 * a, inverse * half, p)
  {
    var c, d := a * inverse / p, 2 * half / p;
    assert a * inverse == c * p + 1 && 2 * half == d * p + 1;
    assert 2 * a * (inverse * half) == (a * inverse) * (2 * half) == (c * p + 1) * (d * p + 1);
    assert (c * p + 1) * (d * p + 1) == (c * (d * p) + c + d) * p + 1;
    ModIs(2 * a * (inverse * half), p, 1, c * (d * p) + c + d);
  }

  /** A prime that divides the fixed factor divides no member of any chain. */
  lemma NoHits(p: nat, factor: nat, m: nat, delta: int, count: nat)
    requires p > 1 && factor % p == 0 && (delta == -1 || delta == 1)
    ensures !Hits(p, factor, m, delta, count)
  {
    forall k: nat | k < count ensures Member(factor, m, k, delta) % p != 0 {
      var f, w := factor / p, m * Pow2(k);
      assert factor == f * p;
      Regroup(f, p, m, Pow2(k));
      NextToMultiple(f * w, p, delta);
    }
  }

  lemma Regroup(f: nat, p: nat, m: nat, w: nat)
    ensures f * p * m * w == f * (m * w) * p
  {
    assert f * p * m * w == f * p * (m * w);
  }

  lemma NextToMultiple(x: int, p: nat, delta: int)
    requires p > 1 && (delta == -1 || delta == 1)
    ensures (x * p + delta) % p != 0
  {
    if delta == 1 {
      ModIs(x * p + delta, p, 1, x);
    } else {
      ModIs(x * p + delta, p, p - 1, x - 1);
    }
  }

  // ---------- the sieve ----------

  /** Marks every multiplier below `size` that leaves remainder s, in steps of the prime. */
  method MarkProgression(marks: array<bool>, s: nat, p: nat, size: nat)
    requires s < p && size <= marks.Length
    modifies marks
    ensures forall m :: 0 <= m < marks.Length ==> marks[m] == (old(marks[m]) || (m < size && m % p == s))
  {
    var m := s;
    ModIs(s, p, s, 0);
    while m < size
      invariant m % p == s
      invariant forall n :: 0 <= n < marks.Length ==> marks[n] == (old(marks[n]) || (n < size && n < m && n % p == s))
    {
      marks[m] := true;
      NextInProgression(m, p, s);
      m := m + p;
    }
  }

  lemma NextInProgression(m: nat, p: nat, s: nat)
    requires s < p && m % p == s
    ensures (m + p) % p == s
    ensures forall n :: m < n < m + p ==> n % p != s
  {
    var k := m / p;
    ModIs(m + p, p, s, k + 1);
    forall n | m < n < m + p ensures n % p != s {
      if n - m + s < p {
        ModIs(n, p, n - m + s, k);
      } else {
        ModIs(n, p, n - m + s - p, k + 1);
      }
    }
  }

  class SieveOfEratosthenes {
    const size: nat
    const length: nat
    const fixedFactor: nat
    const primes: seq<nat>
    const cunningham1: array<bool>
    const cunningham2: array<bool>
    const biTwin: array<bool>
    var primeSeq: nat
    var candidate: nat

    ghost predicate Valid()
      reads this, cunningham1, cunningham2, biTwin
    {
      && IsSieve()
      && primeSeq <= |primes|
      && (candidate == 0 || candidate < size)
      && forall m :: 0 <= m < size ==> MarkedRight(primeSeq, m)
    }

    /** A multiplier is marked in each bitmap exactly when one of the first i primes rules it out there. */
    ghost predicate MarkedRight(i: nat, m: nat)
      requires IsSieve() && i <= |primes| && m < size
      reads cunningham1, cunningham2, biTwin
    {
      && cunningham1[m] == Woven(i, m, -1, length)
      && cunningham2[m] == Woven(i, m, 1, length)
      && biTwin[m] == (Woven(i, m, -1, (length + 1) / 2) || Woven(i, m, 1, length / 2))
    }

    /** The fixed parts: three bitmaps of their own, and a table of primes. */
    ghost predicate IsSieve()
    {
      && size <= cunningham1.Length && size <= cunningham2.Length && size <= biTwin.Length
      && cunningham1 != cunningham2 && cunningham1 != biTwin && cunningham2 != biTwin
      && (forall i :: 0 <= i < |primes| ==> IsPrime(primes[i]) && primes[i] > 1)
    }

    /** Does one of the first i primes divide one of the first `count` members of the chain of m? */
    ghost predicate Woven(i: nat, m: nat, delta: int, count: nat)
      requires i <= |primes| && forall j :: 0 <= j < |primes| ==> primes[j] > 1
    {
      AnyHits(primes[..i], fixedFactor, m, delta, count)
    }

    constructor (size: nat, bits: nat, fixedFactor: nat, primes: seq<nat>)
      requires size <= MAX_SIEVE_SIZE && forall i :: 0 <= i < |primes| ==> IsPrime(primes[i])
      ensures Valid() && this.size == size && this.fixedFactor == fixedFactor && this.primes == primes
      ensures length == Target.Length(bits) && primeSeq == 0 && candidate == 0
      ensures fresh(cunningham1) && fresh(cunningham2) && fresh(biTwin)
    {
      this.size, this.length, this.fixedFactor, this.primes := size, Target.Length(bits), fixedFactor, primes;
      cunningham1 := new bool[MAX_SIEVE_SIZE](_ => false);
      cunningham2 := new bool[MAX_SIEVE_SIZE](_ => false);
      biTwin := new bool[MAX_SIEVE_SIZE](_ => false);
      primeSeq, candidate := 0, 0;
    }

    /**
     Weaves the next prime into the sieve. It fails when no prime below the sieve size is
     left, and for an odd fixed factor already at the prime 2.
     */
    method Weave() returns (ok: bool)
      requires Valid()
      modifies this`primeSeq, cunningham1, cunningham2, biTwin
      ensures Valid()
      ensures ok <==> old(primeSeq) < |primes| && primes[old(primeSeq)] < size
                        && (primes[old(primeSeq)] == 2 ==> fixedFactor % 2 == 0)
      ensures primeSeq == old(primeSeq) + if ok then 1 else 0
    {
      hide IsPrime, AnyHits, Hits, IsInverse;
      if primeSeq >= |primes| || primes[primeSeq] >= size {
        return false;
      }
      var p := primes[primeSeq];
      PrimeIsBig(p);
      ghost var after := primeSeq + 1;
      if fixedFactor % p == 0 {
        forall m | 0 <= m < size ensures MarkedRight(after, m) {
          assert MarkedRight(primeSeq, m);
          WovenStep(primeSeq, m);
          NoHitsAtAll(p, m);
        }
        primeSeq := primeSeq + 1;
        return true;
      }
      var found, inverse := ModInverse(fixedFactor, p);
      if !found {
        InverseExists(fixedFactor, p);
        return false;
      }
      var halved, half := ModInverse(2, p);
      HalfExists(p);
      if !halved {
        return false;
      }
      WeavePrime(p, inverse, half);
      forall m | 0 <= m < size ensures MarkedRight(after, m) {
        assert old(MarkedRight(primeSeq, m));
        WovenStep(primeSeq, m);
      }
      primeSeq := primeSeq + 1;
      ok := true;
    }

    lemma WovenStep(i: nat, m: nat)
      requires IsSieve() && i < |primes| && primes[i] > 0
      ensures Woven(i + 1, m, -1, length) <==> Woven(i, m, -1, length) || Hits(primes[i], fixedFactor, m, -1, length)
      ensures Woven(i + 1, m, 1, length) <==> Woven(i, m, 1, length) || Hits(primes[i], fixedFactor, m, 1, length)
      ensures Woven(i + 1, m, -1, (length + 1) / 2)
              <==> Woven(i, m, -1, (length + 1) / 2) || Hits(primes[i], fixedFactor, m, -1, (length + 1) / 2)
      ensures Woven(i + 1, m, 1, length / 2) <==> Woven(i, m, 1, length / 2) || Hits(primes[i], fixedFactor, m, 1, length / 2)
    {
      hide AnyHits, Hits;
      AnyHitsStep(primes, i, fixedFactor, m, -1, length);
      AnyHitsStep(primes, i, fixedFactor, m, 1, length);
      AnyHitsStep(primes, i, fixedFactor, m, -1, (length + 1) / 2);
      AnyHitsStep(primes, i, fixedFactor, m, 1, length / 2);
    }

    lemma NoHitsAtAll(p: nat, m: nat)
      requires p > 1 && fixedFactor % p == 0
      ensures !Hits(p, fixedFactor, m, -1, length) && !Hits(p, fixedFactor, m, 1, length)
      ensures !Hits(p, fixedFactor, m, -1, (length + 1) / 2) && !Hits(p, fixedFactor, m, 1, length / 2)
    {
      NoHits(p, fixedFactor, m, -1, length);
      NoHits(p, fixedFactor, m, 1, length);
      NoHits(p, fixedFactor, m, -1, (length + 1) / 2);
      NoHits(p, fixedFactor, m, 1, length / 2);
    }

    /** Marks what one prime rules out, one chain position after the other. */
    method WeavePrime(p: nat, inverse: nat, half: nat)
      requires IsSieve() && p > 1 && IsInverse(fixedFactor, inverse, p) && IsInverse(2, half, p)
      modifies cunningham1, cunningham2, biTwin
      ensures forall m :: 0 <= m < size ==> cunningham1[m] == (old(cunningham1[m]) || Hits(p, fixedFactor, m, -1, length))
      ensures forall m :: 0 <= m < size ==> cunningham2[m] == (old(cunningham2[m]) || Hits(p, fixedFactor, m, 1, length))
      ensures forall m :: 0 <= m < size ==>
                biTwin[m] == (old(biTwin[m]) || Hits(p, fixedFactor, m, -1, (length + 1) / 2)
                                             || Hits(p, fixedFactor, m, 1, length / 2))
    {
      hide Hits, IsInverse, IsPrime, Pow2;
      var inv: nat := inverse;
      NothingHit(p);
      for seqNo := 0 to 2 * length
        invariant IsInverse(fixedFactor * Pow2(seqNo / 2), inv, p)
        invariant forall m :: 0 <= m < size ==>
                    cunningham1[m] == (old(cunningham1[m]) || Hits(p, fixedFactor, m, -1, (seqNo + 1) / 2))
        invariant forall m :: 0 <= m < size ==>
                    cunningham2[m] == (old(cunningham2[m]) || Hits(p, fixedFactor, m, 1, seqNo / 2))
        invariant forall m :: 0 <= m < size ==>
                    biTwin[m] == (old(biTwin[m]) || Hits(p, fixedFactor, m, -1, (Least(seqNo, length) + 1) / 2)
                                                 || Hits(p, fixedFactor, m, 1, Least(seqNo, length) / 2))
      {
        var delta := if seqNo % 2 == 0 then -1 else 1;
        var solved := inv * (p - delta) % p;
        SolvedHits(p, inv, seqNo / 2, delta);
        if seqNo % 2 == 1 {
          NextInverse(p, inv, half, seqNo / 2);
          inv := inv * half;
        }
        MarkPosition(seqNo, solved, p);
      }
    }

    /** Marks the solved multipliers in the bitmaps that a chain position belongs to. */
    method MarkPosition(seqNo: nat, solved: nat, p: nat)
      requires IsSieve() && solved < p
      modifies cunningham1, cunningham2, biTwin
      ensures forall m :: 0 <= m < size ==>
                cunningham1[m] == (old(cunningham1[m]) || (seqNo % 2 == 0 && m % p == solved))
      ensures forall m :: 0 <= m < size ==>
                cunningham2[m] == (old(cunningham2[m]) || (seqNo % 2 == 1 && m % p == solved))
      ensures forall m :: 0 <= m < size ==> biTwin[m] == (old(biTwin[m]) || (seqNo < length && m % p == solved))
    {
      if seqNo < length {
        MarkProgression(biTwin, solved, p, size);
      }
      if seqNo % 2 == 0 {
        MarkProgression(cunningham1, solved, p, size);
      }
      if seqNo % 2 == 1 {
        MarkProgression(cunningham2, solved, p, size);
      }
    }

    lemma NothingHit(p: nat)
      requires p > 1
      ensures forall m: nat, delta: int :: !Hits(p, fixedFactor, m, delta, 0)
      ensures fixedFactor * Pow2(0) == fixedFactor
    {
    }

    /** The multipliers marked for a position are those whose member there is divisible. */
    lemma SolvedHits(p: nat, inv: nat, k: nat, delta: int)
      requires p > 1 && IsInverse(fixedFactor * Pow2(k), inv, p) && (delta == -1 || delta == 1)
      ensures forall m: nat :: Hits(p, fixedFactor, m, delta, k + 1)
                <==> Hits(p, fixedFactor, m, delta, k) || m % p == inv * (p - delta) % p
    {
      hide IsInverse, Hits, Pow2;
      forall m: nat
        ensures Hits(p, fixedFactor, m, delta, k + 1)
                <==> Hits(p, fixedFactor, m, delta, k) || m % p == inv * (p - delta) % p
      {
        HitsStep(p, fixedFactor, m, delta, k);
        SolvedMultiplier(fixedFactor * Pow2(k), inv, p, delta, m);
        assert fixedFactor * Pow2(k) * m == fixedFactor * m * Pow2(k) by {
          Swap(fixedFactor, Pow2(k), m);
        }
      }
    }

    lemma NextInverse(p: nat, inv: nat, half: nat, k: nat)
      requires p > 1 && IsInverse(fixedFactor * Pow2(k), inv, p) && IsInverse(2, half, p)
      ensures IsInverse(fixedFactor * Pow2(k + 1), inv * half, p)
    {
      hide IsInverse;
      InverseOfDouble(fixedFactor * Pow2(k), inv, half, p);
      Swap(2, fixedFactor, Pow2(k));
      assert fixedFactor * Pow2(k + 1) == fixedFactor * (2 * Pow2(k)) == 2 * (fixedFactor * Pow2(k));
    }

    // ---------- candidates ----------

    /** A multiplier is worth a test while some bitmap leaves it unmarked. */
    predicate Open(m: nat)
      requires IsSieve() && m < size
      reads cunningham1, cunningham2, biTwin
    {
      !cunningham1[m] || !cunningham2[m] || !biTwin[m]
    }

    /** The open multipliers from lo to hi, in order. */
    function OpenBetween(lo: nat, hi: nat): seq<nat>
      requires IsSieve() && hi <= size
      reads cunningham1, cunningham2, biTwin
      decreases hi
    {
      if lo >= hi then [] else OpenBetween(lo, hi - 1) + if Open(hi - 1) then [hi - 1] else []
    }

    lemma {:induction false} OpenSplit(lo: nat, mid: nat, hi: nat)
      requires IsSieve() && lo <= mid <= hi <= size
      ensures OpenBetween(lo, hi) == OpenBetween(lo, mid) + OpenBetween(mid, hi)
      decreases hi
    {
      if mid < hi {
        OpenSplit(lo, mid, hi - 1);
      }
    }

    /** The next open multiplier after the current one, and the widest chain type it is open for. */
    method GetNextCandidateMultiplier() returns (found: bool, m: nat, kind: CandidateType)
      requires Valid()
      modifies this`candidate
      ensures Valid()
      ensures found ==> && old(candidate) < m < size && candidate == m
                        && OpenBetween(old(candidate) + 1, m + 1) == [m]
                        && kind == if !biTwin[m] then BiTwin else if !cunningham1[m] then Cunningham1 else Cunningham2
      ensures !found ==> candidate == 0 && OpenBetween(old(candidate) + 1, size) == []
    {
      while true
        invariant candidate == old(candidate) || old(candidate) < candidate < size
        invariant candidate < size ==> OpenBetween(old(candidate) + 1, candidate + 1) == []
        decreases size - candidate
      {
        candidate := candidate + 1;
        if candidate >= size {
          candidate := 0;
          return false, 0, BiTwin;
        }
        if !biTwin[candidate] {
          return true, candidate, BiTwin;
        }
        if !cunningham1[candidate] {
          return true, candidate, Cunningham1;
        }
        if !cunningham2[candidate] {
          return true, candidate, Cunningham2;
        }
      }
    }

    /** A whole scan meets every open multiplier but zero, each once and in order. */
    method ScanAll() returns (met: seq<nat>)
      requires Valid() && candidate == 0 && size > 0
      modifies this`candidate
      ensures Valid() && candidate == 0
      ensures met == OpenBetween(1, size)
    {
      met := [];
      while true
        invariant Valid() && candidate < size
        invariant met == OpenBetween(1, candidate + 1)
        decreases size - candidate
      {
        ghost var was := candidate;
        var found, m, kind := GetNextCandidateMultiplier();
        if !found {
          OpenSplit(1, was + 1, size);
          return;
        }
        OpenSplit(1, was + 1, m + 1);
        met := met + [m];
      }
    }

    method GetCandidateCount() returns (count: nat)
      requires IsSieve()
      ensures count == |OpenBetween(0, size)|
    {
      count := 0;
      for m := 0 to size
        invariant count == |OpenBetween(0, m)|
      {
        if !cunningham1[m] || !cunningham2[m] || !biTwin[m] {
          count := count + 1;
        }
      }
    }

    /** The count includes the multiplier zero, which is never marked and never tried. */
    lemma CountExceedsScan()
      requires Valid() && size > 0
      ensures OpenBetween(0, size) == [0] + OpenBetween(1, size)
    {
      hide Hits;
      OpenSplit(0, 1, size);
      assert MarkedRight(primeSeq, 0);
      if AnyHits(primes[..primeSeq], fixedFactor, 0, -1, length) {
        var i :| 0 <= i < primeSeq && Hits(primes[..primeSeq][i], fixedFactor, 0, -1, length);
        assert primes[..primeSeq][i] == primes[i];
        ZeroIsNeverHit(primes[i], fixedFactor, -1, length);
      }
      assert Open(0);
      assert OpenBetween(0, 1) == OpenBetween(0, 0) + [0];
    }
  }

  datatype CandidateType = Cunningham1 | Cunningham2 | BiTwin

  function Least(a: nat, b: nat): nat {
    if a < b then a else b
  }

  lemma Swap(a: nat, b: nat, c: nat)
    ensures a * b * c == a * c * b
    ensures a * b * c == b * (a * c)
  {
    assert a * b * c == a * (b * c) == a * (c * b);
  }

  lemma PrimeIsBig(p: nat)
    requires IsPrime(p)
    ensures p > 1
  {
  }

  /** Two has an inverse modulo every prime but itself. */
  lemma HalfExists(p: nat)
    requires IsPrime(p)
    ensures (exists y: nat :: y < p && IsInverse(2, y, p)) <==> p != 2
  {
    if p != 2 {
      ModIs(2, p, 2, 0);
      InverseExists(2, p);
    }
  }

  lemma ZeroIsNeverHit(p: nat, factor: nat, delta: int, count: nat)
    requires p > 1 && (delta == -1 || delta == 1)
    ensures !Hits(p, factor, 0, delta, count)
  {
    forall k: nat | k < count ensures Member(factor, 0, k, delta) % p != 0 {
      NextToMultiple(0, p, delta);
    }
  }
}
