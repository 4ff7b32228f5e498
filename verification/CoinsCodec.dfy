/**
 How the coins of a transaction and the undo data of an input are stored: a header code, a
 mask that tells which outputs are unspent, and the unspent outputs in short form.
 */
module CoinsCodec {
  import opened Amounts
  import opened Arith
  import opened Coins
  import opened Common
  import opened Compress
  import opened Stored
  import VarInt

  // ---------- one output ----------

  /** What the codec is meant for: an amount of money and a script of a length that fits. */
  predicate OutputFits(o: TxOut) {
    MoneyRange(o.value) && |o.script| + SPECIAL_SCRIPTS < VarInt.TWO_32
  }

  function EncodeOutput(o: TxOut, curve: Curve): seq<Byte>
    requires OutputFits(o)
  {
    VarInt.Encode(Compressed(o.value)) + EncodeScript(o.script, curve)
  }

  /** A 64-bit integer read as a signed one. */
  function AsAmount(n: nat): int {
    var w := Wrap64(n);
    if w < TWO_64 / 2 then w else w - TWO_64
  }

  function ParseOutput(s: seq<Byte>, curve: Curve): (r: Option<(TxOut, seq<Byte>)>)
    ensures r.Some? ==> |r.value.1| < |s|
  {
    match VarInt.Parse(s)
    case None => None
    case Some((x, rest)) =>
      match ParseScript(rest, curve)
      case None => None
      case Some((script, after)) => Some((TxOut(AsAmount(Decompressed(Wrap64(x))), script), after))
  }

  lemma ParseEncodedOutput(o: TxOut, curve: Curve, rest: seq<Byte>)
    requires OutputFits(o)
    ensures ParseOutput(EncodeOutput(o, curve) + rest, curve) == Some((o, rest))
  {
    hide Compressed, Decompressed, EncodeScript, ParseScript, VarInt.Parse, VarInt.Encode;
    var x, script := Compressed(o.value), EncodeScript(o.script, curve);
    assert EncodeOutput(o, curve) + rest == VarInt.Encode(x) + (script + rest);
    VarInt.ParseEncoded(x, script + rest);
    ParseEncodedScript(o.script, curve, rest);
    CodeBound(o.value);
    DecompressCompressed(o.value);
  }

  // ---------- the mask ----------

  predicate Avail(outputs: seq<TxOut>, k: nat) {
    k < |outputs| && !outputs[k].IsNull()
  }

  function Bit(outputs: seq<TxOut>, k: nat): nat {
    if Avail(outputs, k) then 1 else 0
  }

  /** Some availabilities, starting with that of output k, as the bits of a number. */
  function MaskBits(outputs: seq<TxOut>, k: nat, count: nat): (r: nat)
    ensures r < Pow2(count)
    decreases count
  {
    if count == 0 then 0 else Bit(outputs, k) + 2 * MaskBits(outputs, k + 1, count - 1)
  }

  /** Byte b of the mask tells about output 2 + 8 * b and the seven after it. */
  function MaskByte(outputs: seq<TxOut>, b: nat): Byte {
    assert Pow2(8) == 256 by { PowersOfTwo(); }
    MaskBits(outputs, 2 + 8 * b, 8)
  }

  lemma MaskByteIs(outputs: seq<TxOut>, b: nat)
    ensures MaskByte(outputs, b) == MaskBits(outputs, 2 + 8 * b, 8)
  {
  }

  lemma PowersOfTwo()
    ensures Pow2(8) == 256
  {
    assert Pow2(0) == 1 && Pow2(2) == 4 && Pow2(4) == 16 && Pow2(6) == 64;
  }

  /** The lowest bits of a number. */
  function BitsOf(n: nat, count: nat): (r: seq<bool>)
    ensures |r| == count
    decreases count
  {
    if count == 0 then [] else [n % 2 == 1] + BitsOf(n / 2, count - 1)
  }

  function Avails(outputs: seq<TxOut>, lo: nat, hi: nat): (r: seq<bool>)
    requires lo <= hi
    ensures |r| == hi - lo
    ensures forall i :: 0 <= i < |r| ==> r[i] == Avail(outputs, lo + i)
  {
    seq(hi - lo, i requires 0 <= i < hi - lo => Avail(outputs, lo + i))
  }

  lemma {:induction false} BitsOfMaskBits(outputs: seq<TxOut>, k: nat, count: nat)
    ensures BitsOf(MaskBits(outputs, k, count), count) == Avails(outputs, k, k + count)
    decreases count
  {
    if count == 0 {
      assert Avails(outputs, k, k) == [];
    } else {
      BitsOfMaskBits(outputs, k + 1, count - 1);
      assert Avails(outputs, k, k + count) == [Avail(outputs, k)] + Avails(outputs, k + 1, k + count);
    }
  }

  /** How many bytes a mask for all outputs after the first two takes. */
  function BytesFor(count: nat): nat {
    if count <= 2 then 0 else (count + 5) / 8
  }

  /** The number of mask bytes up to the last one that is not zero. */
  function UsedBytes(outputs: seq<TxOut>, n: nat): (r: nat)
    ensures r <= n && (r > 0 ==> MaskByte(outputs, r - 1) != 0)
    ensures forall b :: r <= b < n ==> MaskByte(outputs, b) == 0
  {
    if n == 0 || MaskByte(outputs, n - 1) != 0 then n else UsedBytes(outputs, n - 1)
  }

  function MaskSize(outputs: seq<TxOut>): nat {
    UsedBytes(outputs, BytesFor(|outputs|))
  }

  function NonZero(outputs: seq<TxOut>, lo: nat, hi: nat): nat
    decreases if lo < hi then hi - lo else 0
  {
    if lo >= hi then 0 else (if MaskByte(outputs, lo) != 0 then 1 else 0) + NonZero(outputs, lo + 1, hi)
  }

  function Mask(outputs: seq<TxOut>, lo: nat, hi: nat): (r: seq<Byte>)
    requires lo <= hi
    ensures |r| == hi - lo
    decreases hi - lo
  {
    if lo == hi then [] else [MaskByte(outputs, lo)] + Mask(outputs, lo + 1, hi)
  }

  /** Reads mask bytes until as many as announced were not zero. */
  function ParseMask(count: nat, s: seq<Byte>): (r: Option<(seq<bool>, seq<Byte>)>)
    ensures r.Some? ==> |r.value.1| <= |s|
    decreases |s|
  {
    if count == 0 then
      Some(([], s))
    else if s == [] then
      None
    else
      match ParseMask(if s[0] != 0 then count - 1 else count, s[1..])
      case None => None
      case Some((bits, rest)) => Some((BitsOf(s[0], 8) + bits, rest))
  }

  lemma {:induction false} ParseEncodedMask(outputs: seq<TxOut>, lo: nat, hi: nat, rest: seq<Byte>)
    requires lo <= hi && (lo < hi ==> MaskByte(outputs, hi - 1) != 0)
    ensures ParseMask(NonZero(outputs, lo, hi), Mask(outputs, lo, hi) + rest)
            == Some((Avails(outputs, 2 + 8 * lo, 2 + 8 * hi), rest))
    ensures lo < hi ==> NonZero(outputs, lo, hi) > 0
    decreases hi - lo
  {
    hide MaskByte, MaskBits, Avail, BitsOf, Avails;
    if lo == hi {
      assert Mask(outputs, lo, hi) + rest == rest;
      assert Avails(outputs, 2 + 8 * lo, 2 + 8 * hi) == [];
    } else {
      var s, b := Mask(outputs, lo, hi) + rest, MaskByte(outputs, lo);
      assert s[0] == b && s[1..] == Mask(outputs, lo + 1, hi) + rest;
      ParseEncodedMask(outputs, lo + 1, hi, rest);
      MaskByteIs(outputs, lo);
      var k := 2 + 8 * lo;
      BitsOfMaskBits(outputs, k, 8);
      assert Avails(outputs, k, 2 + 8 * hi) == BitsOf(b, 8) + Avails(outputs, k + 8, 2 + 8 * hi);
    }
  }

  // ---------- the outputs ----------

  function OutAt(outputs: seq<TxOut>, k: nat): TxOut {
    if Avail(outputs, k) then outputs[k] else NULL_OUT
  }

  function OutsAt(outputs: seq<TxOut>, lo: nat, hi: nat): (r: seq<TxOut>)
    requires lo <= hi
    ensures |r| == hi - lo
    ensures forall i :: 0 <= i < |r| ==> r[i] == OutAt(outputs, lo + i)
  {
    seq(hi - lo, i requires 0 <= i < hi - lo => OutAt(outputs, lo + i))
  }

  predicate OutputsFit(outputs: seq<TxOut>) {
    forall k :: 0 <= k < |outputs| && !outputs[k].IsNull() ==> OutputFits(outputs[k])
  }

  function EncodeOutputs(outputs: seq<TxOut>, lo: nat, hi: nat, curve: Curve): seq<Byte>
    requires OutputsFit(outputs)
    decreases if lo < hi then hi - lo else 0
  {
    if lo >= hi then []
    else (if Avail(outputs, lo) then EncodeOutput(outputs[lo], curve) else [])
         + EncodeOutputs(outputs, lo + 1, hi, curve)
  }

  function ParseOutputs(avails: seq<bool>, s: seq<Byte>, curve: Curve): (r: Option<(seq<TxOut>, seq<Byte>)>)
    ensures r.Some? ==> |r.value.0| == |avails|
  {
    if avails == [] then
      Some(([], s))
    else
      match (if avails[0] then ParseOutput(s, curve) else Some((NULL_OUT, s)))
      case None => None
      case Some((o, rest)) =>
        match ParseOutputs(avails[1..], rest, curve)
        case None => None
        case Some((os, after)) => Some(([o] + os, after))
  }

  lemma {:induction false} ParseEncodedOutputs(
      outputs: seq<TxOut>, lo: nat, hi: nat, curve: Curve, rest: seq<Byte>)
    requires OutputsFit(outputs) && lo <= hi
    ensures ParseOutputs(Avails(outputs, lo, hi), EncodeOutputs(outputs, lo, hi, curve) + rest, curve)
            == Some((OutsAt(outputs, lo, hi), rest))
    decreases hi - lo
  {
    hide ParseOutput, EncodeOutput, OutputFits, Avail, OutputsFit;
    var s := EncodeOutputs(outputs, lo, hi, curve) + rest;
    if lo == hi {
      assert s == rest;
    } else {
      var avails, after := Avails(outputs, lo, hi), EncodeOutputs(outputs, lo + 1, hi, curve) + rest;
      ParseEncodedOutputs(outputs, lo + 1, hi, curve, rest);
      assert avails[1..] == Avails(outputs, lo + 1, hi);
      ParseNextOutput(outputs, lo, curve, after);
      var next := if Avail(outputs, lo) then EncodeOutput(outputs[lo], curve) else [];
      assert s == next + after;
      assert OutsAt(outputs, lo, hi) == [OutAt(outputs, lo)] + OutsAt(outputs, lo + 1, hi);
    }
  }

  lemma ParseNextOutput(outputs: seq<TxOut>, k: nat, curve: Curve, after: seq<Byte>)
    requires OutputsFit(outputs)
    ensures Avail(outputs, k) ==> k < |outputs| && OutputFits(outputs[k])
    ensures var s := (if Avail(outputs, k) then EncodeOutput(outputs[k], curve) else []) + after;
            (if Avail(outputs, k) then ParseOutput(s, curve) else Some((NULL_OUT, s)))
            == Some((OutAt(outputs, k), after))
  {
    hide ParseOutput, EncodeOutput, OutputFits;
    if Avail(outputs, k) {
      ParseEncodedOutput(outputs[k], curve, after);
    } else {
      assert [] + after == after;
    }
  }

  /** Outputs that are not available take no bytes. */
  lemma {:induction false} EncodeOnlyAvailable(outputs: seq<TxOut>, lo: nat, a: nat, b: nat, curve: Curve)
    requires OutputsFit(outputs)
    requires a <= b && forall k :: a <= k < b ==> !Avail(outputs, k)
    ensures EncodeOutputs(outputs, lo, a, curve) == EncodeOutputs(outputs, lo, b, curve)
    decreases if lo < b then b - lo else 0
  {
    hide EncodeOutput, OutputsFit, Avail;
    EncodeNothing(outputs, lo, a, curve);
    if lo < b {
      EncodeOnlyAvailable(outputs, lo + 1, a, b, curve);
      if lo >= a {
        EncodeNothing(outputs, lo + 1, a, curve);
        assert !Avail(outputs, lo);
      }
    }
  }

  lemma EncodeNothing(outputs: seq<TxOut>, lo: nat, hi: nat, curve: Curve)
    requires OutputsFit(outputs)
    ensures lo >= hi ==> EncodeOutputs(outputs, lo, hi, curve) == []
  {
  }

  // ---------- coins ----------

  predicate CoinsFit(c: Coins) {
    && OutputsFit(c.outputs) && |c.outputs| < VarInt.TWO_31
    && c.height < VarInt.TWO_31 && -VarInt.TWO_31 <= c.version < VarInt.TWO_31
  }

  /** Three flags, and the number of mask bytes that are not zero, less one if neither of the first two outputs is there. */
  function HeaderCode(c: Coins): int {
    var first, second := Avail(c.outputs, 0), Avail(c.outputs, 1);
    8 * (NonZero(c.outputs, 0, MaskSize(c.outputs)) - if first || second then 0 else 1)
    + (if c.isCoinBase then 1 else 0) + (if first then 2 else 0) + if second then 4 else 0
  }

  /** Every output that is there is among the first two or has its bit in the mask. */
  lemma MaskCovers(outputs: seq<TxOut>, k: nat)
    requires Avail(outputs, k) && k >= 2
    ensures k < 2 + 8 * MaskSize(outputs)
  {
    hide MaskByte, UsedBytes;
    var b, i := (k - 2) / 8, (k - 2) % 8;
    BitInByte(outputs, b, i);
    assert b < BytesFor(|outputs|);
  }

  lemma BitInByte(outputs: seq<TxOut>, b: nat, i: nat)
    requires i < 8 && Avail(outputs, 2 + 8 * b + i)
    ensures MaskByte(outputs, b) != 0
  {
    hide MaskBits, BitsOf, Avail;
    BitsOfMaskBits(outputs, 2 + 8 * b, 8);
    assert Avails(outputs, 2 + 8 * b, 2 + 8 * b + 8)[i];
    NoBits(8, i);
  }

  lemma {:induction false} NoBits(count: nat, i: nat)
    requires i < count
    ensures !BitsOf(0, count)[i]
  {
    if i > 0 {
      NoBits(count - 1, i - 1);
    }
  }

  lemma {:induction false} NonZeroBound(outputs: seq<TxOut>, lo: nat, hi: nat)
    requires lo <= hi
    ensures NonZero(outputs, lo, hi) <= hi - lo
    decreases hi - lo
  {
    if lo < hi {
      NonZeroBound(outputs, lo + 1, hi);
    }
  }

  /** The code of coins that are not all spent is an unsigned 32-bit integer, from which flags and count are recovered. */
  lemma HeaderCodeFacts(c: Coins)
    requires CoinsFit(c) && !c.IsPruned()
    ensures 0 <= HeaderCode(c) < VarInt.TWO_32
    ensures (HeaderCode(c) % 2 == 1) == c.isCoinBase
    ensures (HeaderCode(c) / 2 % 2 == 1) == Avail(c.outputs, 0)
    ensures (HeaderCode(c) / 4 % 2 == 1) == Avail(c.outputs, 1)
    ensures MaskCount(HeaderCode(c)) == NonZero(c.outputs, 0, MaskSize(c.outputs))
  {
    hide UsedBytes, MaskByte, NonZero, MaskCount, OutputsFit;
    var size := MaskSize(c.outputs);
    var n := NonZero(c.outputs, 0, size);
    NonZeroBound(c.outputs, 0, size);
    var first, second := Avail(c.outputs, 0), Avail(c.outputs, 1);
    if !first && !second {
      var k :| 0 <= k < |c.outputs| && !c.outputs[k].IsNull();
      MaskCovers(c.outputs, k);
      ParseEncodedMask(c.outputs, 0, size, []);
    }
    CodeParts(n, c.isCoinBase, first, second);
  }

  lemma CodeParts(n: nat, flag: bool, first: bool, second: bool)
    requires n > 0 || first || second
    ensures var code := 8 * (n - if first || second then 0 else 1)
                        + (if flag then 1 else 0) + (if first then 2 else 0) + if second then 4 else 0;
            && 0 <= code <= 8 * n + 7 && (code % 2 == 1) == flag
            && (code / 2 % 2 == 1) == first && (code / 4 % 2 == 1) == second && MaskCount(code) == n
  {
    LowBits(n - if first || second then 0 else 1,
            if second then 1 else 0, if first then 1 else 0, if flag then 1 else 0);
  }

  lemma LowBits(m: nat, c: nat, b: nat, a: nat)
    requires a <= 1 && b <= 1 && c <= 1
    ensures var n := 8 * m + a + 2 * b + 4 * c;
            n / 8 == m && n % 2 == a && n / 2 % 2 == b && n / 4 % 2 == c && n / 2 % 4 == b + 2 * c
  {
    var n := 8 * m + a + 2 * b + 4 * c;
    Halved(4 * m + 2 * c + b, a);
    Halved(2 * m + c, b);
    Halved(m, c);
    Quarters(n);
  }

  lemma Halved(x: nat, r: nat)
    requires r <= 1
    ensures (2 * x + r) / 2 == x && (2 * x + r) % 2 == r
  {
  }

  lemma Quarters(n: nat)
    ensures n / 4 == n / 2 / 2 && n / 8 == n / 2 / 2 / 2 && n / 2 % 4 == n / 2 % 2 + 2 * (n / 4 % 2)
  {
  }

  /** How many mask bytes that are not zero a header code announces. */
  function MaskCount(code: nat): nat {
    code / 8 + if code / 2 % 4 != 0 then 0 else 1
  }

  function Encode(c: Coins, curve: Curve): seq<Byte>
    requires CoinsFit(c) && !c.IsPruned()
  {
    HeaderCodeFacts(c);
    VarInt.EncodeSigned(c.version) + VarInt.Encode(HeaderCode(c)) + Body(c, curve)
  }

  /** What follows the header code. */
  function ParseBody(version: int, code: nat, s: seq<Byte>, curve: Curve): Option<(Coins, seq<Byte>)> {
    match ParseMask(MaskCount(code), s)
    case None => None
    case Some((bits, rest)) =>
      match ParseOutputs([code / 2 % 2 == 1, code / 4 % 2 == 1] + bits, rest, curve)
      case None => None
      case Some((outputs, after)) =>
        match VarInt.ParseU32(after)
        case None => None
        case Some((height, end)) => Some((Coins(code % 2 == 1, Trim(outputs), height, version), end))
  }

  function Parse(s: seq<Byte>, curve: Curve): Option<(Coins, seq<Byte>)> {
    match VarInt.ParseI32(s)
    case None => None
    case Some((version, rest)) =>
      match VarInt.ParseU32(rest)
      case None => None
      case Some((code, body)) => ParseBody(version, code, body, curve)
  }

  lemma ParseIs(s: seq<Byte>, curve: Curve, version: int, rest: seq<Byte>, code: nat, body: seq<Byte>)
    requires VarInt.ParseI32(s) == Some((version, rest)) && VarInt.ParseU32(rest) == Some((code, body))
    ensures Parse(s, curve) == ParseBody(version, code, body, curve)
  {
  }

  /** Coins with spent outputs blanked, or dropped at the end. */
  function Tidied(c: Coins): Coins {
    c.(outputs := Trim(OutsAt(c.outputs, 0, |c.outputs|)))
  }

  lemma StoredTidied(c: Coins)
    ensures StoredCoins(Tidied(c)) == Tidied(c).(version := StoredVersion(c.version))
  {
  }

  lemma TidiedIfTidy(c: Coins)
    requires c.IsTidy()
    ensures Tidied(c) == c
  {
    assert OutsAt(c.outputs, 0, |c.outputs|) == c.outputs;
  }

  /** Reading the outputs into a vector of the size of the mask gives the same outputs after the trim. */
  lemma TrimOfMaskSize(outputs: seq<TxOut>)
    ensures Trim(OutsAt(outputs, 0, 2 + 8 * MaskSize(outputs))) == Trim(OutsAt(outputs, 0, |outputs|))
  {
    hide MaskSize, OutAt;
    var n := 2 + 8 * MaskSize(outputs);
    var all, some := OutsAt(outputs, 0, |outputs|), OutsAt(outputs, 0, n);
    var front := Trim(all);
    forall k: nat | n <= k
      ensures OutAt(outputs, k) == NULL_OUT && !Avail(outputs, k)
    {
      OutAtIs(outputs, k);
      if Avail(outputs, k) {
        MaskCovers(outputs, k);
      }
    }
    forall k: nat | |outputs| <= k
      ensures OutAt(outputs, k) == NULL_OUT
    {
      OutAtIs(outputs, k);
    }
    assert front != [] ==> all[|front| - 1] == OutAt(outputs, |front| - 1);
    assert front <= some;
    forall i | |front| <= i < |some|
      ensures some[i].IsNull()
    {
      assert i < |all| ==> all[i] == OutAt(outputs, i);
    }
    TrimIs(some, front);
  }

  lemma OutAtIs(outputs: seq<TxOut>, k: nat)
    ensures OutAt(outputs, k) == if Avail(outputs, k) then outputs[k] else NULL_OUT
  {
  }

  lemma ParseBodyIs(version: int, code: nat, s: seq<Byte>, curve: Curve, bits: seq<bool>, rest: seq<Byte>,
                    outputs: seq<TxOut>, after: seq<Byte>)
    requires ParseMask(MaskCount(code), s) == Some((bits, rest))
    requires ParseOutputs([code / 2 % 2 == 1, code / 4 % 2 == 1] + bits, rest, curve) == Some((outputs, after))
    requires VarInt.ParseU32(after).Some?
    ensures var (height, end) := VarInt.ParseU32(after).value;
            ParseBody(version, code, s, curve) == Some((Coins(code % 2 == 1, Trim(outputs), height, version), end))
  {
  }

  lemma MaskEnd(outputs: seq<TxOut>)
    ensures MaskSize(outputs) > 0 ==> MaskByte(outputs, MaskSize(outputs) - 1) != 0
  {
  }

  lemma AvailsJoined(outputs: seq<TxOut>, n: nat)
    requires n >= 2
    ensures [Avail(outputs, 0), Avail(outputs, 1)] + Avails(outputs, 2, n) == Avails(outputs, 0, n)
  {
    hide Avail;
  }

  function Body(c: Coins, curve: Curve): seq<Byte>
    requires OutputsFit(c.outputs)
  {
    Mask(c.outputs, 0, MaskSize(c.outputs)) + EncodeOutputs(c.outputs, 0, |c.outputs|, curve)
    + VarInt.EncodeSigned(c.height)
  }

  lemma ParseEncodedBody(c: Coins, curve: Curve, rest: seq<Byte>, version: int)
    requires CoinsFit(c) && !c.IsPruned() && 0 <= HeaderCode(c)
    ensures ParseBody(version, HeaderCode(c), Body(c, curve) + rest, curve)
            == Some((Tidied(c).(version := version), rest))
  {
    hide MaskSize, HeaderCode, MaskCount, OutputsFit, Avail, Trim, ParseBody, Avails, OutsAt;
    hide Mask, ParseMask, NonZero, EncodeOutputs, ParseOutputs, VarInt.ParseU32, VarInt.Encode;
    var size := MaskSize(c.outputs);
    var n := 2 + 8 * size;
    HeaderCodeFacts(c);
    var mask, outs := Mask(c.outputs, 0, size), EncodeOutputs(c.outputs, 0, |c.outputs|, curve);
    var height := VarInt.EncodeSigned(c.height) + rest;
    Regroup(mask, outs, VarInt.EncodeSigned(c.height), rest);
    MaskEnd(c.outputs);
    ParseEncodedMask(c.outputs, 0, size, outs + height);
    AvailsJoined(c.outputs, n);
    SameOutputs(c.outputs, curve);
    ParseEncodedOutputs(c.outputs, 0, n, curve, height);
    VarInt.UnsignedRoundTrip(c.height, rest);
    ParseBodyIs(version, HeaderCode(c), mask + (outs + height), curve,
                Avails(c.outputs, 2, n), outs + height, OutsAt(c.outputs, 0, n), height);
    TrimOfMaskSize(c.outputs);
  }

  lemma SameOutputs(outputs: seq<TxOut>, curve: Curve)
    requires OutputsFit(outputs)
    ensures EncodeOutputs(outputs, 0, |outputs|, curve)
            == EncodeOutputs(outputs, 0, 2 + 8 * MaskSize(outputs), curve)
  {
    hide MaskSize;
    var n := 2 + 8 * MaskSize(outputs);
    if n <= |outputs| {
      forall k | n <= k < |outputs|
        ensures !Avail(outputs, k)
      {
        if Avail(outputs, k) {
          MaskCovers(outputs, k);
        }
      }
      EncodeOnlyAvailable(outputs, 0, n, |outputs|, curve);
    } else {
      EncodeOnlyAvailable(outputs, 0, |outputs|, n, curve);
    }
  }

  /**
   Reading what was written gives the coins with spent outputs blanked and dropped at the end,
   for every pattern of spent outputs, and takes exactly the bytes that were written.
   */
  lemma ParseAfterEncode(c: Coins, curve: Curve, rest: seq<Byte>)
    requires CoinsFit(c) && !c.IsPruned()
    ensures Parse(Encode(c, curve) + rest, curve)
            == Some((StoredCoins(Tidied(c)), rest))
  {
    hide Body, HeaderCode, CoinsFit, ParseBody, Tidied;
    hide VarInt.Parse, VarInt.Encode, VarInt.EncodeSigned, VarInt.ParseI32, VarInt.ParseU32, Parse, MaskCount, StoredCoins;
    VersionRange(c);
    HeaderCodeFacts(c);
    var version, code := VarInt.EncodeSigned(c.version), VarInt.Encode(HeaderCode(c));
    var body := Body(c, curve) + rest;
    Regroup(version, code, Body(c, curve), rest);
    VarInt.SignedRoundTrip(c.version, code + body);
    VarInt.UnsignedRoundTrip(HeaderCode(c), body);
    var v := StoredVersion(c.version);
    StoredTidied(c);
    ParseIs(version + (code + body), curve, v, code + body, HeaderCode(c), body);
    ParseEncodedBody(c, curve, rest, v);
  }

  /** The coins a cache holds are read back as written, but for negative versions. */
  lemma ParseAfterEncodeTidy(c: Coins, curve: Curve, rest: seq<Byte>)
    requires CoinsFit(c) && c.IsTidy() && c.outputs != []
    ensures !c.IsPruned() && Parse(Encode(c, curve) + rest, curve) == Some((StoredCoins(c), rest))
  {
    hide Parse, Encode, Tidied;
    TidyIsPruned(c);
    TidiedIfTidy(c);
    ParseAfterEncode(c, curve, rest);
  }

  lemma Regroup(a: seq<Byte>, b: seq<Byte>, c: seq<Byte>, d: seq<Byte>)
    ensures a + b + c + d == a + (b + (c + d))
  {
  }

  lemma VersionRange(c: Coins)
    requires CoinsFit(c)
    ensures c.height < VarInt.TWO_31
    ensures OutputsFit(c.outputs) && -VarInt.TWO_31 <= c.version < VarInt.TWO_31
  {
  }

  /** Coins are recovered exactly when their spent outputs are blank, none is at the end, and the version is not negative. */
  lemma RecoveredExactlyWhen(c: Coins, curve: Curve, rest: seq<Byte>)
    requires CoinsFit(c) && !c.IsPruned()
    ensures Parse(Encode(c, curve) + rest, curve) == Some((c, rest))
            <==> c.version >= 0
                 && (forall k :: 0 <= k < |c.outputs| && c.outputs[k].IsNull() ==> c.outputs[k] == NULL_OUT)
                 && !c.outputs[|c.outputs| - 1].IsNull()
  {
    hide Encode, Parse;
    ParseAfterEncode(c, curve, rest);
    var all := OutsAt(c.outputs, 0, |c.outputs|);
    if Tidied(c) == c {
      assert Trim(all) <= all;
      assert Trim(all) == c.outputs == all;
      assert all[|all| - 1] == c.outputs[|all| - 1];
    } else if forall k :: 0 <= k < |c.outputs| && c.outputs[k].IsNull() ==> c.outputs[k] == NULL_OUT {
      assert all == c.outputs;
    }
  }

  // ---------- the code ----------

  lemma {:induction false} NoAvailNoBits(outputs: seq<TxOut>, k: nat, count: nat)
    requires forall j :: k <= j < k + count ==> !Avail(outputs, j)
    ensures MaskBits(outputs, k, count) == 0
    decreases count
  {
    if count > 0 {
      NoAvailNoBits(outputs, k + 1, count - 1);
    }
  }

  lemma {:induction false} NonZeroGrows(outputs: seq<TxOut>, lo: nat, used: nat, b: nat)
    requires lo <= used <= b && MaskByte(outputs, b) != 0
    requires forall j :: used <= j < b ==> MaskByte(outputs, j) == 0
    ensures NonZero(outputs, lo, b + 1) == NonZero(outputs, lo, used) + 1
    decreases b - lo
  {
    hide MaskByte;
    if lo < b {
      NonZeroGrows(outputs, lo + 1, if lo < used then used else lo + 1, b);
    } else {
      assert NonZero(outputs, b + 1, b + 1) == 0;
    }
  }

  /** The number of mask bytes to write, and how many of them are not zero. */
  method CalcMaskSize(outputs: seq<TxOut>) returns (bytes: nat, nonzero: nat)
    ensures bytes == MaskSize(outputs) && nonzero == NonZero(outputs, 0, bytes)
  {
    hide MaskByte, UsedBytes;
    bytes, nonzero := 0, 0;
    UsedNone(outputs);
    var b: nat := 0;
    while 2 + b * 8 < |outputs|
      invariant b <= BytesFor(|outputs|)
      invariant bytes == UsedBytes(outputs, b) && nonzero == NonZero(outputs, 0, bytes)
    {
      var zero := AllSpent(outputs, b);
      UsedStep(outputs, b);
      if !zero {
        NonZeroGrows(outputs, 0, bytes, b);
        bytes := b + 1;
        nonzero := nonzero + 1;
      }
      b := b + 1;
    }
  }

  lemma UsedNone(outputs: seq<TxOut>)
    ensures UsedBytes(outputs, 0) == 0
  {
  }

  lemma UsedStep(outputs: seq<TxOut>, b: nat)
    ensures UsedBytes(outputs, b + 1) == if MaskByte(outputs, b) != 0 then b + 1 else UsedBytes(outputs, b)
  {
  }

  /** Whether the outputs of a mask byte are all spent or absent. */
  method AllSpent(outputs: seq<TxOut>, b: nat) returns (zero: bool)
    ensures zero == (MaskByte(outputs, b) == 0)
  {
    hide MaskBits;
    zero := true;
    var i: nat := 0;
    while i < 8 && 2 + b * 8 + i < |outputs|
      invariant i <= 8
      invariant zero ==> forall j :: 2 + b * 8 <= j < 2 + b * 8 + i ==> !Avail(outputs, j)
      invariant !zero ==> MaskByte(outputs, b) != 0
    {
      if !outputs[2 + b * 8 + i].IsNull() {
        zero := false;
        BitInByte(outputs, b, i);
      }
      i := i + 1;
    }
    if zero {
      NoAvailNoBits(outputs, 2 + 8 * b, 8);
    }
  }

  lemma MaskBitsStep(outputs: seq<TxOut>, k: nat, count: nat, weight: nat)
    requires count > 0
    ensures weight * MaskBits(outputs, k, count)
            == weight * Bit(outputs, k) + 2 * weight * MaskBits(outputs, k + 1, count - 1)
  {
    var m := MaskBits(outputs, k + 1, count - 1);
    assert weight * (2 * m) == 2 * weight * m;
  }

  lemma NoneLeft(outputs: seq<TxOut>, k: nat, count: nat, weight: nat)
    requires forall j :: k <= j < k + count ==> !Avail(outputs, j)
    ensures weight * MaskBits(outputs, k, count) == 0
  {
    NoAvailNoBits(outputs, k, count);
  }

  /** Sets a bit of the byte for each output that is not spent. */
  method MakeMaskByte(outputs: seq<TxOut>, b: nat) returns (ch: Byte)
    ensures ch == MaskByte(outputs, b)
  {
    hide MaskBits;
    var k := 2 + b * 8;
    var n: nat, weight: nat, i: nat := 0, 1, 0;
    while i < 8 && k + i < |outputs|
      invariant i <= 8 && n + weight * MaskBits(outputs, k + i, 8 - i) == MaskBits(outputs, k, 8)
    {
      MaskBitsStep(outputs, k + i, 8 - i, weight);
      if !outputs[k + i].IsNull() {
        n := n + weight;
      }
      weight := 2 * weight;
      i := i + 1;
    }
    NoneLeft(outputs, k + i, 8 - i, weight);
    MaskByteIs(outputs, b);
    ch := n;
  }

  method WriteMask(outputs: seq<TxOut>, size: nat, s: VarInt.Stream)
    modifies s
    ensures s.bytes == old(s.bytes) + Mask(outputs, 0, size)
  {
    hide MaskByte;
    var b: nat := 0;
    ghost var end := s.bytes + Mask(outputs, 0, size);
    while b < size
      invariant b <= size && s.bytes + Mask(outputs, b, size) == end
    {
      var ch := MakeMaskByte(outputs, b);
      assert s.bytes + Mask(outputs, b, size) == s.bytes + [ch] + Mask(outputs, b + 1, size);
      s.WriteByte(ch);
      b := b + 1;
    }
    assert s.bytes + Mask(outputs, size, size) == s.bytes;
  }

  method WriteOutput(o: TxOut, curve: Curve, s: VarInt.Stream)
    requires OutputFits(o)
    modifies s
    ensures s.bytes == old(s.bytes) + EncodeOutput(o, curve)
  {
    hide Compressed, EncodeScript, VarInt.Encode;
    CodeBound(o.value);
    Pow64();
    var x := CompressAmount(o.value);
    s.WriteVarInt(x, 64);
    s.bytes := s.bytes + EncodeScript(o.script, curve);
  }

  lemma Pow64()
    ensures Pow2(32) == VarInt.TWO_32 && Pow2(64) == TWO_64
  {
    hide Pow2;
    PowersOfTwo();
    PowSum(8, 8);
    PowSum(16, 16);
    PowSum(32, 32);
  }

  lemma {:induction false} PowSum(a: nat, b: nat)
    ensures Pow2(a + b) == Pow2(a) * Pow2(b)
  {
    if b > 0 {
      PowSum(a, b - 1);
      var x, y := Pow2(a), Pow2(b - 1);
      assert x * (2 * y) == 2 * (x * y);
    }
  }

  method WriteOutputs(outputs: seq<TxOut>, curve: Curve, s: VarInt.Stream)
    requires OutputsFit(outputs)
    modifies s
    ensures s.bytes == old(s.bytes) + EncodeOutputs(outputs, 0, |outputs|, curve)
  {
    hide EncodeOutput, OutputFits;
    var i: nat := 0;
    ghost var end := s.bytes + EncodeOutputs(outputs, 0, |outputs|, curve);
    while i < |outputs|
      invariant i <= |outputs| && s.bytes + EncodeOutputs(outputs, i, |outputs|, curve) == end
    {
      ghost var after := EncodeOutputs(outputs, i + 1, |outputs|, curve);
      if !outputs[i].IsNull() {
        ghost var o := EncodeOutput(outputs[i], curve);
        assert s.bytes + (o + after) == s.bytes + o + after;
        WriteOutput(outputs[i], curve, s);
      } else {
        assert [] + after == after;
      }
      i := i + 1;
    }
    assert s.bytes + [] == s.bytes;
  }

  method WriteSigned(n: int, s: VarInt.Stream)
    requires -VarInt.TWO_31 <= n < VarInt.TWO_31
    modifies s
    ensures s.bytes == old(s.bytes) + VarInt.EncodeSigned(n)
  {
    if n < 0 {
      s.WriteByte(n % 128);
    } else {
      Pow64();
      s.WriteVarInt(n, 32);
    }
  }

  /** The size of the mask and the header code. */
  method CalcCode(c: Coins) returns (size: nat, code: nat)
    requires CoinsFit(c) && !c.IsPruned()
    ensures size == MaskSize(c.outputs) && code == HeaderCode(c) && code < VarInt.TWO_32
  {
    hide MaskByte, UsedBytes, NonZero, OutputsFit;
    var count: nat;
    size, count := CalcMaskSize(c.outputs);
    var first := |c.outputs| > 0 && !c.outputs[0].IsNull();
    var second := |c.outputs| > 1 && !c.outputs[1].IsNull();
    HeaderCodeFacts(c);
    code := 8 * (count - if first || second then 0 else 1)
            + (if c.isCoinBase then 1 else 0) + (if first then 2 else 0) + if second then 4 else 0;
  }

  method WriteBody(c: Coins, size: nat, curve: Curve, s: VarInt.Stream)
    requires OutputsFit(c.outputs) && c.height < VarInt.TWO_31 && size == MaskSize(c.outputs)
    modifies s
    ensures s.bytes == old(s.bytes) + Body(c, curve)
  {
    hide MaskSize, Mask, EncodeOutputs, VarInt.EncodeSigned, OutputsFit;
    ghost var start := s.bytes;
    WriteMask(c.outputs, size, s);
    WriteOutputs(c.outputs, curve, s);
    WriteSigned(c.height, s);
    Regroup(start, Mask(c.outputs, 0, size), EncodeOutputs(c.outputs, 0, |c.outputs|, curve),
            VarInt.EncodeSigned(c.height));
    Regroup([], Mask(c.outputs, 0, size), EncodeOutputs(c.outputs, 0, |c.outputs|, curve),
            VarInt.EncodeSigned(c.height));
  }

  /** Writes coins of which at least one output is unspent. */
  method Serialize(c: Coins, curve: Curve, s: VarInt.Stream)
    requires CoinsFit(c) && !c.IsPruned()
    modifies s
    ensures s.bytes == old(s.bytes) + Encode(c, curve)
  {
    hide MaskSize, HeaderCode, Body, VarInt.Encode, VarInt.EncodeSigned, CoinsFit, Pow2;
    VersionRange(c);
    var size, code := CalcCode(c);
    ghost var start := s.bytes;
    WriteSigned(c.version, s);
    Pow64();
    s.WriteVarInt(code, 32);
    WriteBody(c, size, curve, s);
    ghost var version := VarInt.EncodeSigned(c.version);
    assert start + version + VarInt.Encode(code) + Body(c, curve) == start + (version + VarInt.Encode(code) + Body(c, curve));
  }

  /** How many bytes coins take, found without writing them. */
  method GetSerializeSize(c: Coins, curve: Curve) returns (size: nat)
    requires CoinsFit(c) && !c.IsPruned()
    ensures size == |Encode(c, curve)|
  {
    hide MaskSize, HeaderCode, EncodeOutputs, VarInt.Encode, OutputsFit;
    var maskSize, code := CalcCode(c);
    size := 1;
    if c.version >= 0 {
      size := VarInt.GetSizeOfVarInt(c.version);
    }
    var n := VarInt.GetSizeOfVarInt(code);
    size := size + n + maskSize;
    n := OutputsSize(c.outputs, curve);
    size := size + n;
    n := VarInt.GetSizeOfVarInt(c.height);
    size := size + n;
  }

  lemma SizeOfRest(outputs: seq<TxOut>, i: nat, curve: Curve)
    requires OutputsFit(outputs) && i <= |outputs|
    ensures |EncodeOutputs(outputs, i, |outputs|, curve)| ==
            if i == |outputs| then 0
            else (if outputs[i].IsNull() then 0 else |EncodeOutput(outputs[i], curve)|)
                 + |EncodeOutputs(outputs, i + 1, |outputs|, curve)|
  {
    hide EncodeOutput, OutputFits;
  }

  method OutputsSize(outputs: seq<TxOut>, curve: Curve) returns (size: nat)
    requires OutputsFit(outputs)
    ensures size == |EncodeOutputs(outputs, 0, |outputs|, curve)|
  {
    hide OutputFits, Compressed, EncodeOutput, EncodeOutputs;
    size := 0;
    var i: nat := 0;
    SizeOfRest(outputs, |outputs|, curve);
    while i < |outputs|
      invariant i <= |outputs|
      invariant size + |EncodeOutputs(outputs, i, |outputs|, curve)| == |EncodeOutputs(outputs, 0, |outputs|, curve)|
    {
      SizeOfRest(outputs, i, curve);
      if !outputs[i].IsNull() {
        var n := OutputSize(outputs[i], curve);
        size := size + n;
      }
      i := i + 1;
    }
  }

  method OutputSize(o: TxOut, curve: Curve) returns (size: nat)
    requires OutputFits(o)
    ensures size == |EncodeOutput(o, curve)|
  {
    hide Compressed;
    var x := CompressAmount(o.value);
    size := VarInt.GetSizeOfVarInt(x);
    size := size + |EncodeScript(o.script, curve)|;
  }

  method ReadSigned(s: VarInt.Stream) returns (ok: bool, n: int)
    modifies s
    ensures ok == VarInt.ParseI32(old(s.bytes)).Some?
    ensures ok ==> VarInt.ParseI32(old(s.bytes)) == Some((n, s.bytes))
  {
    ok, n := s.ReadVarInt(VarInt.TWO_32);
    n := if n < VarInt.TWO_31 then n else n - VarInt.TWO_32;
  }

  method ReadUnsigned(s: VarInt.Stream) returns (ok: bool, n: nat)
    modifies s
    ensures ok == VarInt.ParseU32(old(s.bytes)).Some?
    ensures ok ==> VarInt.ParseU32(old(s.bytes)) == Some((n, s.bytes))
  {
    ok, n := s.ReadVarInt(VarInt.TWO_32);
  }

  /** The bits of a byte, lowest first. */
  method Spread(ch: Byte) returns (bits: seq<bool>)
    ensures bits == BitsOf(ch, 8)
  {
    hide BitsOf;
    bits := [];
    var n: nat, p: nat := ch, 0;
    while p < 8
      invariant p <= 8 && bits + BitsOf(n, 8 - p) == BitsOf(ch, 8)
    {
      BitsOfStep(n, 8 - p, bits);
      bits := bits + [n % 2 == 1];
      n := n / 2;
      p := p + 1;
    }
    assert bits + BitsOf(n, 0) == bits;
  }

  lemma BitsOfStep(n: nat, count: nat, bits: seq<bool>)
    requires count > 0
    ensures bits + BitsOf(n, count) == bits + [n % 2 == 1] + BitsOf(n / 2, count - 1)
  {
  }

  /** What a result of reading bits is when some were read before. */
  function Joined(bits: seq<bool>, r: Option<(seq<bool>, seq<Byte>)>): Option<(seq<bool>, seq<Byte>)> {
    match r
    case None => None
    case Some((more, rest)) => Some((bits + more, rest))
  }

  method ReadMask(count0: nat, s: VarInt.Stream) returns (ok: bool, bits: seq<bool>)
    modifies s
    ensures ok == ParseMask(count0, old(s.bytes)).Some?
    ensures ok ==> ParseMask(count0, old(s.bytes)) == Some((bits, s.bytes))
  {
    hide BitsOf;
    var count := count0;
    bits := [];
    ok := true;
    JoinedNone(ParseMask(count, s.bytes));
    while count > 0
      invariant Joined(bits, ParseMask(count, s.bytes)) == ParseMask(count0, old(s.bytes))
      decreases |s.bytes|
    {
      var ch: Byte;
      ghost var was, c := s.bytes, count;
      ok, ch := s.ReadByte();
      if !ok {
        return;
      }
      assert was[1..] == s.bytes;
      var more := Spread(ch);
      if ch != 0 {
        count := count - 1;
      }
      JoinedStep(bits, more, ParseMask(count, s.bytes));
      assert Joined(more, ParseMask(count, s.bytes)) == ParseMask(c, was);
      bits := bits + more;
    }
    assert bits + [] == bits;
  }

  lemma JoinedNone(r: Option<(seq<bool>, seq<Byte>)>)
    ensures Joined([], r) == r
  {
    if r.Some? {
      assert [] + r.value.0 == r.value.0;
    }
  }

  lemma JoinedStep(bits: seq<bool>, more: seq<bool>, r: Option<(seq<bool>, seq<Byte>)>)
    ensures Joined(bits, Joined(more, r)) == Joined(bits + more, r)
  {
    if r.Some? {
      assert bits + (more + r.value.0) == bits + more + r.value.0;
    }
  }

  method ReadOutput(s: VarInt.Stream, curve: Curve) returns (ok: bool, o: TxOut)
    modifies s
    ensures ok == ParseOutput(old(s.bytes), curve).Some?
    ensures ok ==> ParseOutput(old(s.bytes), curve) == Some((o, s.bytes))
  {
    hide VarInt.Parse, ParseScript, Decompressed;
    o := NULL_OUT;
    var x: nat;
    ok, x := s.ReadVarInt(TWO_64);
    if !ok {
      return;
    }
    match ParseScript(s.bytes, curve) {
      case None =>
        ok := false;
      case Some((script, rest)) =>
        var value := DecompressAmount(x);
        o := TxOut(if value < TWO_64 / 2 then value else value - TWO_64, script);
        s.bytes := rest;
    }
  }

  function JoinedOutputs(os: seq<TxOut>, r: Option<(seq<TxOut>, seq<Byte>)>): Option<(seq<TxOut>, seq<Byte>)> {
    match r
    case None => None
    case Some((more, rest)) => Some((os + more, rest))
  }

  lemma JoinedOutputsNone(r: Option<(seq<TxOut>, seq<Byte>)>)
    ensures JoinedOutputs([], r) == r
  {
    if r.Some? {
      assert [] + r.value.0 == r.value.0;
    }
  }

  lemma JoinedOutputsStep(os: seq<TxOut>, o: TxOut, r: Option<(seq<TxOut>, seq<Byte>)>)
    ensures JoinedOutputs(os, JoinedOutputs([o], r)) == JoinedOutputs(os + [o], r)
  {
    if r.Some? {
      assert os + ([o] + r.value.0) == os + [o] + r.value.0;
    }
  }

  method ReadOutputs(avails: seq<bool>, s: VarInt.Stream, curve: Curve) returns (ok: bool, outputs: seq<TxOut>)
    modifies s
    ensures ok == ParseOutputs(avails, old(s.bytes), curve).Some?
    ensures ok ==> ParseOutputs(avails, old(s.bytes), curve) == Some((outputs, s.bytes))
  {
    hide ParseOutput;
    outputs, ok := [], true;
    var i: nat := 0;
    assert avails[0..] == avails;
    JoinedOutputsNone(ParseOutputs(avails, s.bytes, curve));
    while i < |avails|
      invariant i <= |avails|
      invariant JoinedOutputs(outputs, ParseOutputs(avails[i..], s.bytes, curve))
             == ParseOutputs(avails, old(s.bytes), curve)
    {
      var o := NULL_OUT;
      ghost var was := s.bytes;
      assert avails[i..][1..] == avails[i + 1..];
      if avails[i] {
        ok, o := ReadOutput(s, curve);
        if !ok {
          return;
        }
      }
      JoinedOutputsStep(outputs, o, ParseOutputs(avails[i + 1..], s.bytes, curve));
      assert ParseOutputs(avails[i..], was, curve)
          == JoinedOutputs([o], ParseOutputs(avails[i + 1..], s.bytes, curve));
      outputs := outputs + [o];
      i := i + 1;
    }
    assert outputs + [] == outputs;
  }

  /** Reads coins; false when the stream ends too early. */
  method Unserialize(s: VarInt.Stream, curve: Curve) returns (ok: bool, c: Coins)
    modifies s
    ensures ok == Parse(old(s.bytes), curve).Some?
    ensures ok ==> Parse(old(s.bytes), curve) == Some((c, s.bytes))
  {
    hide ParseMask, ParseOutputs, VarInt.ParseU32, VarInt.ParseI32, Trim;
    c := NO_COINS;
    var version: int, code: nat, bits: seq<bool>, outputs: seq<TxOut>, height: nat;
    ok, version := ReadSigned(s);
    if !ok {
      return;
    }
    ok, code := ReadUnsigned(s);
    if !ok {
      return;
    }
    ok, bits := ReadMask(code / 8 + if code / 2 % 4 != 0 then 0 else 1, s);
    if !ok {
      return;
    }
    ok, outputs := ReadOutputs([code / 2 % 2 == 1, code / 4 % 2 == 1] + bits, s, curve);
    if !ok {
      return;
    }
    ok, height := ReadUnsigned(s);
    c := Coins(code % 2 == 1, Trim(outputs), height, version);
  }

  // ---------- undo data ----------

  predicate RecordFits(u: TxInUndo) {
    && OutputFits(u.output) && 2 * u.height + 1 < VarInt.TWO_32
    && -VarInt.TWO_31 <= u.version < VarInt.TWO_31
  }

  /** Undo data carries the version of the transaction only together with its height. */
  function EncodeUndo(u: TxInUndo, curve: Curve): seq<Byte>
    requires RecordFits(u)
  {
    VarInt.Encode(2 * u.height + if u.isCoinBase then 1 else 0)
    + (if u.height > 0 then VarInt.EncodeSigned(u.version) else []) + EncodeOutput(u.output, curve)
  }

  function ParseUndo(s: seq<Byte>, curve: Curve): Option<(TxInUndo, seq<Byte>)> {
    match VarInt.ParseU32(s)
    case None => None
    case Some((code, rest)) =>
      match (if code / 2 > 0 then VarInt.ParseI32(rest) else Some((0, rest)))
      case None => None
      case Some((version, body)) =>
        match ParseOutput(body, curve)
        case None => None
        case Some((o, end)) => Some((TxInUndo(o, code % 2 == 1, code / 2, version), end))
  }

  /**
   Undo data is read back as StoredRecord says. It is recovered exactly when the version is not
   negative, and zero if there is no height to go with it.
   */
  lemma ParseAfterEncodeUndo(u: TxInUndo, curve: Curve, rest: seq<Byte>)
    requires RecordFits(u)
    ensures ParseUndo(EncodeUndo(u, curve) + rest, curve) == Some((StoredRecord(u), rest))
    ensures ParseUndo(EncodeUndo(u, curve) + rest, curve) == Some((u, rest))
            <==> if u.height > 0 then u.version >= 0 else u.version == 0
  {
    hide VarInt.ParseU32, VarInt.ParseI32, VarInt.Encode, VarInt.EncodeSigned, ParseOutput, EncodeOutput, OutputFits;
    var code := 2 * u.height + if u.isCoinBase then 1 else 0;
    var version := if u.height > 0 then VarInt.EncodeSigned(u.version) else [];
    var output := EncodeOutput(u.output, curve);
    Regroup(VarInt.Encode(code), version, output, rest);
    VarInt.UnsignedRoundTrip(code, version + (output + rest));
    VarInt.SignedRoundTrip(u.version, output + rest);
    assert [] + (output + rest) == output + rest;
    ParseEncodedOutput(u.output, curve, rest);
  }

  function EncodeRecords(records: seq<TxInUndo>, curve: Curve): seq<Byte>
    requires forall j :: 0 <= j < |records| ==> RecordFits(records[j])
  {
    if records == [] then [] else EncodeUndo(records[0], curve) + EncodeRecords(records[1..], curve)
  }

  function ParseRecords(n: nat, s: seq<Byte>, curve: Curve): Option<(seq<TxInUndo>, seq<Byte>)> {
    if n == 0 then
      Some(([], s))
    else
      match ParseUndo(s, curve)
      case None => None
      case Some((u, rest)) =>
        match ParseRecords(n - 1, rest, curve)
        case None => None
        case Some((records, end)) => Some(([u] + records, end))
  }

  /** The undo data of a transaction is read back as StoredRecords says. */
  lemma {:induction false} ParseEncodedRecords(records: seq<TxInUndo>, curve: Curve, rest: seq<Byte>)
    requires forall j :: 0 <= j < |records| ==> RecordFits(records[j])
    ensures ParseRecords(|records|, EncodeRecords(records, curve) + rest, curve) == Some((StoredRecords(records), rest))
  {
    hide ParseUndo, EncodeUndo, RecordFits, StoredRecord;
    if records == [] {
      assert EncodeRecords(records, curve) + rest == rest;
    } else {
      var more := EncodeRecords(records[1..], curve);
      assert EncodeRecords(records, curve) + rest == EncodeUndo(records[0], curve) + (more + rest);
      ParseAfterEncodeUndo(records[0], curve, more + rest);
      ParseEncodedRecords(records[1..], curve, rest);
      assert StoredRecords(records) == [StoredRecord(records[0])] + StoredRecords(records[1..]);
    }
  }

  /** A transaction of version -1 whose last output is spent comes back with version 127. */
  lemma VersionLost(curve: Curve, rest: seq<Byte>)
    ensures var c := Coins(false, [TxOut(CENT, [])], 7, -1);
            c.IsAvailable(0) &&
            var (left, u) := SpendOutput(c, 0);
            RecordFits(u) &&
            var read := ParseUndo(EncodeUndo(u, curve) + rest, curve);
            read.Some? && RestoreOutput(left, 0, read.value.0) == (c.(version := 127), true)
  {
    hide ParseUndo, EncodeUndo;
    var c := Coins(false, [TxOut(CENT, [])], 7, -1);
    var (left, u) := SpendOutput(c, 0);
    RestoreAfterSpend(c, 0);
    ParseAfterEncodeUndo(u, curve, rest);
  }
}
