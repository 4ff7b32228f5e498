/**
 Variable-length integers: base 128, most significant digit first, every byte but the last
 with its high bit set, and one subtracted from all digits but the last.
 */
module VarInt {
  import opened Arith
  import opened Common

  /** The bytes of n; `more` says that further bytes follow. */
  function Digits(n: nat, more: bool): (r: seq<Byte>)
    ensures r != []
    decreases n
  {
    var last: seq<Byte> := [n % 128 + if more then 128 else 0];
    if n <= 127 then last else Digits(n / 128 - 1, true) + last
  }

  function Encode(n: nat): seq<Byte> {
    Digits(n, false)
  }

  /** Goes on reading an integer of which `n` has been read; None at the end of the input. */
  function ParseFrom(n: nat, s: seq<Byte>): (r: Option<(nat, seq<Byte>)>)
    ensures r.Some? ==> |r.value.1| < |s|
    decreases |s|
  {
    if s == [] then
      None
    else
      var b: nat := s[0];
      if b >= 128 then ParseFrom(n * 128 + b % 128 + 1, s[1..]) else Some((n * 128 + b, s[1..]))
  }

  function Parse(s: seq<Byte>): (r: Option<(nat, seq<Byte>)>)
    ensures r.Some? ==> |r.value.1| < |s|
  {
    ParseFrom(0, s)
  }

  // ---------- one to one ----------

  lemma {:induction false} ParseDigits(n: nat, more: bool, rest: seq<Byte>)
    ensures ParseFrom(0, Digits(n, more) + rest) == if more then ParseFrom(n + 1, rest) else Some((n, rest))
    decreases n
  {
    var b: nat := n % 128 + if more then 128 else 0;
    var tail: seq<Byte> := [b] + rest;
    assert tail[1..] == rest;
    if n > 127 {
      var front := Digits(n / 128 - 1, true);
      assert Digits(n, more) + rest == front + tail;
      ParseDigits(n / 128 - 1, true, tail);
    }
    ParseTail(n, more, tail);
  }

  lemma ParseTail(n: nat, more: bool, tail: seq<Byte>)
    requires tail != [] && tail[0] == n % 128 + if more then 128 else 0
    ensures ParseFrom(n / 128, tail) == if more then ParseFrom(n + 1, tail[1..]) else Some((n, tail[1..]))
  {
    assert n / 128 * 128 + n % 128 == n;
  }

  /** Every integer is read back, whatever follows it. */
  lemma ParseEncoded(n: nat, rest: seq<Byte>)
    ensures Parse(Encode(n) + rest) == Some((n, rest))
  {
    ParseDigits(n, false, rest);
  }

  /** The digits read so far, as they were written. */
  function Before(n: nat): seq<Byte> {
    if n == 0 then [] else Digits(n - 1, true)
  }

  lemma {:induction false} ParsedFrom(n: nat, s: seq<Byte>)
    requires ParseFrom(n, s).Some?
    ensures var (m, rest) := ParseFrom(n, s).value; Before(n) + s == Encode(m) + rest
    decreases |s|
  {
    hide Digits, Before, Encode;
    var b: nat := s[0];
    var m := n * 128 + b % 128;
    BeforeStep(n, b);
    assert s == [s[0]] + s[1..];
    if b >= 128 {
      ParsedFrom(m + 1, s[1..]);
      assert Before(n) + s == Before(m + 1) + s[1..];
    } else {
      assert Before(n) + s == Encode(m) + s[1..];
    }
  }

  lemma BeforeStep(n: nat, b: Byte)
    ensures var c: nat := b;
            Before(n) + [b] == if c >= 128 then Before(n * 128 + c % 128 + 1) else Encode(n * 128 + c)
  {
    var c: nat := b;
    var m := n * 128 + c % 128;
    assert m / 128 == n && m % 128 == c % 128;
    if n == 0 {
      assert Before(n) + [b] == [b];
    }
  }

  /** No redundancy: what is read as an integer is the one encoding of that integer. */
  lemma OneEncoding(s: seq<Byte>)
    requires Parse(s).Some?
    ensures var (n, rest) := Parse(s).value; s == Encode(n) + rest
  {
    ParsedFrom(0, s);
    assert Before(0) + s == s;
  }

  // ---------- integers of fixed width ----------

  const TWO_32: nat := 0x1_0000_0000
  const TWO_31: int := 0x8000_0000

  /** An unsigned 32-bit integer; longer ones wrap. */
  function ParseU32(s: seq<Byte>): (r: Option<(nat, seq<Byte>)>)
    ensures r.Some? ==> |r.value.1| < |s|
  {
    match Parse(s)
    case None => None
    case Some((n, rest)) => Some((n % TWO_32, rest))
  }

  function AsSigned(n: nat): int
    requires n < TWO_32
  {
    if n < TWO_31 then n else n - TWO_32
  }

  function ParseI32(s: seq<Byte>): (r: Option<(int, seq<Byte>)>)
    ensures r.Some? ==> |r.value.1| < |s|
  {
    match ParseU32(s)
    case None => None
    case Some((n, rest)) => Some((AsSigned(n), rest))
  }

  /** A negative integer passes the test for a last digit at once, so that a single byte is left of it. */
  function EncodeSigned(n: int): seq<Byte> {
    if n < 0 then [n % 128] else Encode(n)
  }

  /** A signed integer is read back exactly when it is not negative. */
  lemma SignedRoundTrip(n: int, rest: seq<Byte>)
    requires -TWO_31 <= n < TWO_31
    ensures ParseI32(EncodeSigned(n) + rest) == Some((if n < 0 then n % 128 else n, rest))
    ensures ParseI32(EncodeSigned(n) + rest) == Some((n, rest)) <==> n >= 0
  {
    if n < 0 {
      var b: nat := n % 128;
      assert ([b] + rest)[1..] == rest;
      assert ParseI32([b] + rest) == Some((b, rest));
    } else {
      ParseEncoded(n, rest);
    }
  }

  lemma UnsignedRoundTrip(n: nat, rest: seq<Byte>)
    requires n < TWO_32
    ensures ParseU32(Encode(n) + rest) == Some((n, rest))
  {
    ParseEncoded(n, rest);
  }

  // ---------- the code on streams ----------

  /** A stream of bytes, written at the end and read from the front. */
  class Stream {
    var bytes: seq<Byte>

    constructor ()
      ensures bytes == []
    {
      bytes := [];
    }

    method WriteByte(b: Byte)
      modifies this
      ensures bytes == old(bytes) + [b]
    {
      bytes := bytes + [b];
    }

    /** False at the end of the stream. */
    method ReadByte() returns (ok: bool, b: Byte)
      modifies this
      ensures ok == (old(bytes) != [])
      ensures if ok then old(bytes) == [b] + bytes else bytes == old(bytes)
    {
      ok, b := |bytes| > 0, 0;
      if ok {
        b := bytes[0];
        bytes := bytes[1..];
      }
    }

    /** Collects the digits and writes them out backwards. */
    method WriteVarInt(n: nat, width: nat)
      requires width == 32 || width == 64
      requires n < Pow2(width)
      modifies this
      ensures bytes == old(bytes) + Encode(n)
    {
      hide Pow2, Digits, Encode, Backwards;
      var tmp, len := CollectDigits(n, width);
      ghost var end := bytes + Encode(n);
      while len > 0
        invariant 0 <= len <= tmp.Length && fresh(tmp)
        invariant bytes + Backwards(tmp[..len]) == end
      {
        len := len - 1;
        BackwardsAppended(tmp[..len], tmp[len]);
        assert tmp[..len + 1] == tmp[..len] + [tmp[len]];
        WriteByte(tmp[len]);
      }
      assert tmp[..0] == [];
      BackwardsNothing();
    }

    /** Reads an integer of a given width; false at the end of the stream. */
    method ReadVarInt(modulus: nat) returns (ok: bool, n: nat)
      requires modulus > 0
      modifies this
      ensures ok == Parse(old(bytes)).Some?
      ensures ok ==> Parse(old(bytes)).value.1 == bytes && n == Wrap(Parse(old(bytes)).value.0, modulus)
    {
      hide Wrap;
      n, ok := 0, true;
      ghost var m: nat := 0;
      WrapSmall(modulus);
      while true
        invariant n == Wrap(m, modulus)
        invariant ParseFrom(m, bytes) == Parse(old(bytes))
        decreases |bytes|
      {
        var b: Byte;
        ghost var was := bytes;
        ok, b := ReadByte();
        if !ok {
          return;
        }
        assert was[1..] == bytes;
        var digit: nat := b;
        WrapStep(m, digit % 128, modulus);
        n := Wrap(n * 128 + digit % 128, modulus);
        m := m * 128 + digit % 128;
        if digit < 128 {
          return;
        }
        AddStep(m, modulus);
        n, m := Wrap(n + 1, modulus), m + 1;
      }
    }
  }

  /** The digits of an integer, the last one first, in a buffer just large enough for its width. */
  method CollectDigits(n0: nat, width: nat) returns (tmp: array<Byte>, len: nat)
    requires width == 32 || width == 64
    requires n0 < Pow2(width)
    ensures fresh(tmp) && len <= tmp.Length && Backwards(tmp[..len]) == Encode(n0)
  {
    hide Pow2, Digits, Backwards;
    tmp := new Byte[(width + 6) / 7];
    var n: nat := n0;
    len := 0;
    BackwardsNothing();
    ghost var s: seq<Byte> := [];
    while n > 127
      invariant 7 * len < width && n < Pow2(width - 7 * len)
      invariant s == tmp[..len] && Digits(n, len > 0) + Backwards(s) == Encode(n0)
    {
      DigitStep(n, len > 0, s);
      ShiftFits(n, width - 7 * len);
      PutDigit(tmp, len, n % 128 + if len > 0 then 128 else 0);
      s := tmp[..len + 1];
      n := n / 128 - 1;
      len := len + 1;
    }
    DigitStep(n, len > 0, s);
    PutDigit(tmp, len, n % 128 + if len > 0 then 128 else 0);
    len := len + 1;
    assert [] + Backwards(tmp[..len]) == Backwards(tmp[..len]);
  }

  method PutDigit(tmp: array<Byte>, len: nat, digit: Byte)
    requires len < tmp.Length
    modifies tmp
    ensures tmp[..len + 1] == old(tmp[..len]) + [digit]
  {
    tmp[len] := digit;
  }

  lemma DigitStep(n: nat, more: bool, s: seq<Byte>)
    ensures var digit: nat := n % 128 + if more then 128 else 0;
            Digits(n, more) + Backwards(s)
            == (if n <= 127 then [] else Digits(n / 128 - 1, true)) + Backwards(s + [digit])
  {
    var digit: nat := n % 128 + if more then 128 else 0;
    BackwardsAppended(s, digit);
    var front := if n <= 127 then [] else Digits(n / 128 - 1, true);
    assert Digits(n, more) == front + [digit];
    assert front + [digit] + Backwards(s) == front + ([digit] + Backwards(s));
  }

  /** How many bytes an integer takes. */
  method GetSizeOfVarInt(n0: nat) returns (size: nat)
    ensures size == |Encode(n0)|
  {
    size := 0;
    var n := n0;
    while true
      invariant size + |Digits(n, size > 0)| == |Encode(n0)|
      decreases n
    {
      size := size + 1;
      if n <= 127 {
        break;
      }
      n := n / 128 - 1;
    }
  }

  function Backwards(s: seq<Byte>): seq<Byte> {
    if s == [] then [] else [s[|s| - 1]] + Backwards(s[..|s| - 1])
  }

  lemma BackwardsNothing()
    ensures Backwards([]) == []
  {
  }

  lemma BackwardsAppended(s: seq<Byte>, b: Byte)
    ensures Backwards(s + [b]) == [b] + Backwards(s)
  {
    assert (s + [b])[..|s|] == s;
  }

  lemma SmallPowers()
    ensures Pow2(1) == 2 && Pow2(4) == 16 && Pow2(7) == 128
  {
    assert Pow2(2) == 4 && Pow2(3) == 8 && Pow2(5) == 32 && Pow2(6) == 64;
  }

  /** A digit less, seven bits less. */
  lemma ShiftFits(n: nat, k: nat)
    requires 127 < n < Pow2(k)
    ensures k > 7 && n / 128 - 1 < Pow2(k - 7)
  {
    SmallPowers();
    if k <= 7 {
      PowersGrow(k, 7);
    } else {
      var j := k - 7;
      assert Pow2(j + 7) == 128 * Pow2(j) by {
        assert Pow2(j + 1) == 2 * Pow2(j) && Pow2(j + 2) == 2 * Pow2(j + 1) && Pow2(j + 3) == 2 * Pow2(j + 2);
        assert Pow2(j + 4) == 2 * Pow2(j + 3) && Pow2(j + 5) == 2 * Pow2(j + 4) && Pow2(j + 6) == 2 * Pow2(j + 5);
      }
    }
  }

  lemma {:induction false} PowersGrow(a: nat, b: nat)
    requires a <= b
    ensures Pow2(a) <= Pow2(b)
  {
    if a < b {
      PowersGrow(a, b - 1);
    }
  }

  lemma WrapSmall(modulus: nat)
    requires modulus > 0
    ensures Wrap(0, modulus) == 0
  {
  }

  lemma WrapStep(m: nat, d: nat, modulus: nat)
    requires modulus > 0
    ensures Wrap(Wrap(m, modulus) * 128 + d, modulus) == Wrap(m * 128 + d, modulus)
  {
    var q, r := m / modulus, m % modulus;
    assert m == r + q * modulus;
    assert (128 * q) * modulus == 128 * (q * modulus);
    ModPlusMultiple(r * 128 + d, 128 * q, modulus);
  }

  lemma AddStep(m: nat, modulus: nat)
    requires modulus > 0
    ensures Wrap(Wrap(m, modulus) + 1, modulus) == Wrap(m + 1, modulus)
  {
    var q, r := m / modulus, m % modulus;
    assert m == r + q * modulus;
    ModPlusMultiple(r + 1, q, modulus);
  }

  lemma ModPlusMultiple(x: nat, q: nat, modulus: nat)
    requires modulus > 0
    ensures (x + q * modulus) % modulus == x % modulus
  {
    var a, y := x / modulus, x + q * modulus;
    assert (a + q) * modulus == a * modulus + q * modulus;
    assert (a + q + 1) * modulus == (a + q) * modulus + modulus;
    DivExact(y, modulus, a + q);
  }
}
