/** Short forms of amounts and of the usual output scripts, for the coin database. */
module Compress {
  import opened Amounts
  import opened Arith
  import opened Common
  import VarInt

  const TWO_64: nat := 0x1_0000_0000_0000_0000

  // ---------- amounts ----------

  /** A number with e zeros more at its end. */
  function Padded(n: nat, e: nat): (r: nat)
    ensures r >= n && (e > 0 ==> r >= 10 * n)
  {
    if e == 0 then n else 10 * Padded(n, e - 1)
  }

  /** An amount without its zeros at the end, of which at most nine are dropped, and their number. */
  function Strip(n: nat, e: nat): (nat, nat)
    requires n > 0 && e <= 9
    decreases 9 - e
  {
    if n % 10 == 0 && e < 9 then Strip(n / 10, e + 1) else (n, e)
  }

  /** The code of a stripped amount with its exponent. */
  function Pack(n: nat, e: nat): nat
    requires n > 0 && e <= 9
  {
    if e < 9 then 1 + (n / 10 * 9 + n % 10 - 1) * 10 + e else 1 + (n - 1) * 10 + 9
  }

  function Compressed(n: nat): nat {
    if n == 0 then 0 else var (m, e) := Strip(n, 0); Pack(m, e)
  }

  /** The stripped amount and the exponent in a code. */
  function Unpack(x: nat): (nat, nat)
    requires x > 0
  {
    var e, y := (x - 1) % 10, (x - 1) / 10;
    (if e < 9 then y / 9 * 10 + y % 9 + 1 else y + 1, e)
  }

  function Decompressed(x: nat): nat {
    if x == 0 then 0 else var (n, e) := Unpack(x); Padded(n, e)
  }

  lemma {:induction false} StripFacts(n: nat, e: nat)
    requires n > 0 && e <= 9
    ensures var (m, f) := Strip(n, e);
            m > 0 && e <= f <= 9 && (f < 9 ==> m % 10 != 0) && n == Padded(m, f - e)
    decreases 9 - e
  {
    if n % 10 == 0 && e < 9 {
      StripFacts(n / 10, e + 1);
    }
  }

  lemma UnpackPacked(n: nat, e: nat)
    requires n > 0 && e <= 9 && (e < 9 ==> n % 10 != 0)
    ensures Pack(n, e) > 0 && Unpack(Pack(n, e)) == (n, e)
  {
    if e < 9 {
      var q, d := n / 10, n % 10 - 1;
      DivModOf(9, q, d);
      DivModOf(10, 9 * q + d, e);
    } else {
      DivModOf(10, n - 1, 9);
    }
  }

  lemma DivModOf(base: nat, q: nat, r: nat)
    requires (base == 9 || base == 10) && r < base
    ensures (base * q + r) / base == q && (base * q + r) % base == r
  {
  }

  lemma PackUnpacked(x: nat)
    requires x > 0
    ensures var (n, e) := Unpack(x);
            n > 0 && e <= 9 && (e < 9 ==> n % 10 != 0) && Pack(n, e) == x
  {
    var e, y := (x - 1) % 10, (x - 1) / 10;
    assert y / 9 * 9 + y % 9 == y;
  }

  lemma {:induction false} StripPadded(n: nat, e: nat, f: nat)
    requires n > 0 && e <= f <= 9 && (f < 9 ==> n % 10 != 0)
    ensures Strip(Padded(n, f - e), e) == (n, f)
    decreases f - e
  {
    if e < f {
      StripPadded(n, e + 1, f);
      assert Padded(n, f - e) == 10 * Padded(n, f - e - 1);
    }
  }

  /** Every amount is recovered from its code. */
  lemma DecompressCompressed(n: nat)
    ensures Decompressed(Compressed(n)) == n
  {
    if n > 0 {
      StripFacts(n, 0);
      var (m, e) := Strip(n, 0);
      UnpackPacked(m, e);
    }
  }

  /** Every number is the code of exactly one amount. */
  lemma CompressDecompressed(x: nat)
    ensures Compressed(Decompressed(x)) == x
  {
    if x > 0 {
      PackUnpacked(x);
      var (n, e) := Unpack(x);
      StripPadded(n, 0, e);
    }
  }

  lemma PackBound(m: nat, e: nat)
    requires m > 0 && e <= 9
    ensures Pack(m, e) <= 10 * m && (e == 0 ==> Pack(m, e) <= 9 * m)
  {
    var q, d := m / 10, m % 10;
    assert m == 10 * q + d;
  }

  /** The code is at most nine times the amount, so that no amount of money overflows 64 bits. */
  lemma CodeBound(n: nat)
    ensures Compressed(n) <= 9 * n
    ensures n <= MAX_MONEY ==> Compressed(n) < TWO_64
  {
    hide Strip, Pack;
    if n > 0 {
      StripFacts(n, 0);
      var (m, e) := Strip(n, 0);
      PackBound(m, e);
    }
  }

  // The arithmetic of the code is that of unsigned 64-bit integers.

  function Wrap64(x: int): nat {
    Wrap(x, TWO_64)
  }

  lemma Wrap64Step(a: nat, k: nat, b: int)
    requires (k == 1 || k == 10) && Wrap64(a) * k + b >= 0
    ensures Wrap64(Wrap64(a) * k + b) == Wrap64(a * k + b)
  {
  }

  lemma Wrap64Small(a: nat)
    requires a < TWO_64
    ensures Wrap64(a) == a
  {
  }

  /** Up to MAX_MONEY no step wraps, and the result is the code; beyond, it is the code wrapped. */
  method CompressAmount(n0: nat) returns (x: nat)
    requires n0 < TWO_64
    ensures x == Wrap64(Compressed(n0))
    ensures n0 <= MAX_MONEY ==> x == Compressed(n0)
  {
    hide Wrap64, Strip;
    CodeBound(n0);
    Wrap64Small(if n0 <= MAX_MONEY then Compressed(n0) else 0);
    if n0 == 0 {
      Wrap64Small(0);
      return 0;
    }
    var n, e := StripZeros(n0);
    if e < 9 {
      var d := n % 10;
      assert 1 <= d <= 9;
      n := n / 10;
      x := Wrap64(1 + Wrap64(Wrap64(n * 9 + d - 1) * 10) + e);
      Wrap64Step(n * 9 + d - 1, 10, 0);
      Wrap64Step((n * 9 + d - 1) * 10, 1, 1 + e);
    } else {
      x := Wrap64(1 + Wrap64((n - 1) * 10) + 9);
      Wrap64Step((n - 1) * 10, 1, 10);
    }
  }

  method StripZeros(n0: nat) returns (n: nat, e: nat)
    requires n0 > 0
    ensures n > 0 && e <= 9 && (n, e) == Strip(n0, 0) && (e < 9 ==> n % 10 != 0)
  {
    n, e := n0, 0;
    while n % 10 == 0 && e < 9
      invariant n > 0 && e <= 9
      invariant Strip(n, e) == Strip(n0, 0)
      decreases 9 - e
    {
      n := n / 10;
      e := e + 1;
    }
  }

  method DecompressAmount(x0: nat) returns (n: nat)
    requires x0 < TWO_64
    ensures n == Wrap64(Decompressed(x0))
  {
    hide Wrap64;
    Wrap64Small(0);
    if x0 == 0 {
      return 0;
    }
    var x := x0 - 1;
    var e := x % 10;
    x := x / 10;
    if e < 9 {
      var d := x % 9 + 1;
      x := x / 9;
      n := Wrap64(x * 10 + d);
    } else {
      n := x + 1;
      Wrap64Small(n);
    }
    n := PutZeros(n, e, Unpack(x0).0);
  }

  method PutZeros(n0: nat, e0: nat, ghost m: nat) returns (n: nat)
    requires n0 == Wrap64(m)
    ensures n == Wrap64(Padded(m, e0))
  {
    hide Wrap64;
    n := n0;
    var e := e0;
    while e > 0
      invariant 0 <= e <= e0 && n == Wrap64(Padded(m, e0 - e))
    {
      Wrap64Step(Padded(m, e0 - e), 10, 0);
      n := Wrap64(n * 10);
      e := e - 1;
    }
  }

  // ---------- scripts ----------

  const OP_DUP: Byte := 0x76
  const OP_EQUAL: Byte := 0x87
  const OP_EQUALVERIFY: Byte := 0x88
  const OP_HASH160: Byte := 0xa9
  const OP_CHECKSIG: Byte := 0xac
  const SPECIAL_SCRIPTS: nat := 6

  /** The curve of the public keys: from a 32-byte x and whether y is odd to the 32-byte y, if there is one. */
  type Curve = (seq<Byte>, bool) -> Option<seq<Byte>>

  predicate IsOdd(y: seq<Byte>) {
    y != [] && var last: nat := y[|y| - 1]; last % 2 == 1
  }

  predicate IsToKeyID(s: seq<Byte>) {
    |s| == 25 && s[..3] == [OP_DUP, OP_HASH160, 20] && s[23..] == [OP_EQUALVERIFY, OP_CHECKSIG]
  }

  predicate IsToScriptID(s: seq<Byte>) {
    |s| == 23 && s[..2] == [OP_HASH160, 20] && s[22] == OP_EQUAL
  }

  predicate IsToShortPubKey(s: seq<Byte>) {
    |s| == 35 && s[0] == 33 && s[34] == OP_CHECKSIG && (s[1] == 2 || s[1] == 3)
  }

  /** A full public key that lies on the curve. */
  predicate IsToFullPubKey(s: seq<Byte>, curve: Curve) {
    && |s| == 67 && s[0] == 65 && s[66] == OP_CHECKSIG && s[1] == 4
    && curve(s[2..34], IsOdd(s[34..66])) == Some(s[34..66])
  }

  /** The short form of a script of a special kind: the kind, and the hash or the x of the key. */
  function ShortScript(s: seq<Byte>, curve: Curve): Option<(nat, seq<Byte>)> {
    if IsToKeyID(s) then Some((0, s[3..23]))
    else if IsToScriptID(s) then Some((1, s[2..22]))
    else if IsToShortPubKey(s) then Some((s[1], s[2..34]))
    else if IsToFullPubKey(s, curve) then Some((if IsOdd(s[34..66]) then 5 else 4, s[2..34]))
    else None
  }

  function SpecialSize(kind: nat): nat {
    if kind < 2 then 20 else 32
  }

  /** A script from its short form; a key that is not on the curve leaves it empty. */
  function LongScript(kind: nat, body: seq<Byte>, curve: Curve): seq<Byte>
    requires kind < SPECIAL_SCRIPTS
  {
    if kind == 0 then
      [OP_DUP, OP_HASH160, 20] + body + [OP_EQUALVERIFY, OP_CHECKSIG]
    else if kind == 1 then
      [OP_HASH160, 20] + body + [OP_EQUAL]
    else if kind < 4 then
      [33, kind] + body + [OP_CHECKSIG]
    else
      match curve(body, kind == 5)
      case None => []
      case Some(y) => [65, 4] + body + y + [OP_CHECKSIG]
  }

  function EncodeScript(s: seq<Byte>, curve: Curve): seq<Byte> {
    match ShortScript(s, curve)
    case Some((kind, body)) => [kind] + body
    case None => VarInt.Encode(|s| + SPECIAL_SCRIPTS) + s
  }

  function ParseScript(s: seq<Byte>, curve: Curve): (r: Option<(seq<Byte>, seq<Byte>)>)
    ensures r.Some? ==> |r.value.1| < |s|
  {
    match VarInt.ParseU32(s)
    case None => None
    case Some((size, rest)) =>
      if size < SPECIAL_SCRIPTS then
        var n := SpecialSize(size);
        if |rest| < n then None else Some((LongScript(size, rest[..n], curve), rest[n..]))
      else
        var n := size - SPECIAL_SCRIPTS;
        if |rest| < n then None else Some((rest[..n], rest[n..]))
  }

  lemma LongAfterShort(s: seq<Byte>, curve: Curve)
    requires ShortScript(s, curve).Some?
    ensures var (kind, body) := ShortScript(s, curve).value;
            kind < SPECIAL_SCRIPTS && |body| == SpecialSize(kind) && LongScript(kind, body, curve) == s
  {
    if IsToKeyID(s) {
      assert s == s[..3] + s[3..23] + s[23..];
    } else if IsToScriptID(s) {
      assert s == s[..2] + s[2..22] + s[22..];
    } else {
      LongKeyAfterShort(s, curve);
    }
  }

  lemma LongKeyAfterShort(s: seq<Byte>, curve: Curve)
    requires IsToShortPubKey(s) || IsToFullPubKey(s, curve)
    ensures if IsToShortPubKey(s) then LongScript(s[1], s[2..34], curve) == s
            else LongScript(if IsOdd(s[34..66]) then 5 else 4, s[2..34], curve) == s
  {
    hide IsOdd;
    if IsToShortPubKey(s) {
      assert s == s[..2] + s[2..34] + s[34..] && s[34..] == [s[34]] && s[..2] == [s[0], s[1]];
    } else {
      assert s == s[..2] + s[2..34] + s[34..66] + s[66..] && s[66..] == [s[66]] && s[..2] == [s[0], s[1]];
    }
  }

  /** Every script is read back, in its short form too, and no byte more than was written is taken. */
  lemma ParseEncodedScript(s: seq<Byte>, curve: Curve, rest: seq<Byte>)
    requires |s| + SPECIAL_SCRIPTS < VarInt.TWO_32
    ensures ParseScript(EncodeScript(s, curve) + rest, curve) == Some((s, rest))
  {
    hide VarInt.Parse, VarInt.Encode, ShortScript, LongScript;
    match ShortScript(s, curve) {
      case Some((kind, body)) =>
        LongAfterShort(s, curve);
        assert [kind] + body + rest == [kind] + (body + rest);
        SmallInteger(kind);
        VarInt.ParseEncoded(kind, body + rest);
        assert (body + rest)[..|body|] == body && (body + rest)[|body|..] == rest;
      case None =>
        var n := |s| + SPECIAL_SCRIPTS;
        assert VarInt.Encode(n) + s + rest == VarInt.Encode(n) + (s + rest);
        VarInt.ParseEncoded(n, s + rest);
        assert (s + rest)[..|s|] == s && (s + rest)[|s|..] == rest;
    }
  }

  lemma SmallInteger(n: nat)
    requires n < 128
    ensures VarInt.Encode(n) == [n]
  {
  }
}
