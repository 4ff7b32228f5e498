/**
 The formats of the coin database as they are documented: what the bytes of an integer are
 worth, and the worked examples for integers, amounts and coins. Two of the examples for
 integers are not what the code writes.
 */
module Formats {
  import opened Amounts
  import opened Arith
  import opened Coins
  import opened Common
  import opened Compress
  import CoinsCodec
  import VarInt

  // ---------- integers ----------

  function Power128(i: nat): nat {
    if i == 0 then 1 else 128 * Power128(i - 1)
  }

  /** The last byte, and then up to the i-th one before it with one more than it shows, each without its highest bit. */
  function Worth(a: seq<Byte>, i: nat): nat
    requires i < |a|
  {
    if i == 0 then a[|a| - 1] % 128 else Worth(a, i - 1) + Power128(i) * (a[|a| - 1 - i] % 128 + 1)
  }

  lemma {:induction false} WorthAppended(a: seq<Byte>, b: Byte, i: nat)
    requires i < |a|
    ensures Worth(a + [b], i + 1) == b % 128 + 128 * (Worth(a, i) + 1)
  {
    if i > 0 {
      WorthAppended(a, b, i - 1);
      assert (a + [b])[|a| - 1 - i] == a[|a| - 1 - i];
      assert Power128(i + 1) * (a[|a| - 1 - i] % 128 + 1) == 128 * (Power128(i) * (a[|a| - 1 - i] % 128 + 1));
    } else {
      assert Worth(a + [b], 0) == b % 128;
      assert (a + [b])[|a| - 1] == a[|a| - 1];
      assert Power128(1) == 128;
    }
  }

  lemma {:induction false} DigitsAreWorth(n: nat, more: bool)
    ensures var a := VarInt.Digits(n, more); Worth(a, |a| - 1) == n
    decreases n
  {
    hide VarInt.Digits, Worth;
    if n <= 127 {
      SmallIsWorth(n, more);
    } else {
      var front := VarInt.Digits(n / 128 - 1, true);
      var last: Byte := n % 128 + if more then 128 else 0;
      DigitsAreWorth(n / 128 - 1, true);
      WorthAppended(front, last, |front| - 1);
      DigitsStep(n, more);
      LowBits(n, last);
    }
  }

  lemma LowBits(n: nat, last: Byte)
    requires last == n % 128 || last == n % 128 + 128
    ensures n > 127 ==> last % 128 + 128 * (n / 128 - 1 + 1) == n
  {
  }

  lemma SmallIsWorth(n: nat, more: bool)
    requires n <= 127
    ensures var a := VarInt.Digits(n, more); |a| == 1 && Worth(a, 0) == n
  {
  }

  lemma DigitsStep(n: nat, more: bool)
    requires n > 127
    ensures VarInt.Digits(n, more) == VarInt.Digits(n / 128 - 1, true) + [n % 128 + if more then 128 else 0]
  {
  }

  lemma {:induction false} OnlyLastEnds(n: nat, more: bool)
    ensures var a := VarInt.Digits(n, more);
            (forall i :: 0 <= i < |a| - 1 ==> a[i] >= 128) && (a[|a| - 1] >= 128 <==> more)
    decreases n
  {
    if n > 127 {
      OnlyLastEnds(n / 128 - 1, true);
      DigitsStep(n, more);
      hide VarInt.Digits;
    }
  }

  /** An integer is what its bytes are worth; all but the last have their highest bit set. */
  lemma EncodedIsWorth(n: nat)
    ensures var a := VarInt.Encode(n);
            a != [] && Worth(a, |a| - 1) == n && forall i :: 0 <= i < |a| ==> (a[i] >= 128 <==> i < |a| - 1)
  {
    DigitsAreWorth(n, false);
    OnlyLastEnds(n, false);
    hide VarInt.Digits, Worth;
  }

  /** The documented examples that are right. */
  lemma IntegerExamples()
    ensures VarInt.Encode(0) == [0] && VarInt.Encode(1) == [1] && VarInt.Encode(127) == [0x7F]
    ensures VarInt.Encode(128) == [0x80, 0x00] && VarInt.Encode(255) == [0x80, 0x7F] && VarInt.Encode(256) == [0x81, 0x00]
    ensures VarInt.Encode(16383) == [0xFE, 0x7F] && VarInt.Encode(16384) == [0xFF, 0x00]
    ensures VarInt.Encode(0x1_0000_0000) == [0x8E, 0xFE, 0xFE, 0xFF, 0x00]
  {
    assert VarInt.Digits(14, true) == [0x8E];
    assert VarInt.Digits(2046, true) == [0x8E, 0xFE];
    assert VarInt.Digits(262142, true) == [0x8E, 0xFE, 0xFE];
    assert VarInt.Digits(33554431, true) == [0x8E, 0xFE, 0xFE, 0xFF];
  }

  /** The documented bytes of 16511 and of 65535 are those of other numbers. */
  lemma WrongIntegerExamples()
    ensures VarInt.Encode(16511) == [0xFF, 0x7F] != [0x80, 0xFF, 0x7F]
    ensures VarInt.Encode(65535) == [0x82, 0xFE, 0x7F] != [0x82, 0xFD, 0x7F]
  {
    assert VarInt.Digits(2, true) == [0x82];
    assert VarInt.Digits(510, true) == [0x82, 0xFE];
  }

  // ---------- amounts ----------

  lemma AmountExample(m: nat, e: nat, code: nat)
    requires m > 0 && e <= 9 && (e < 9 ==> m % 10 != 0)
    requires code == if e < 9 then 1 + 10 * (9 * (m / 10) + m % 10 - 1) + e else 10 * m
    ensures Compressed(Padded(m, e)) == code && Decompressed(code) == Padded(m, e)
  {
    StripPadded(m, 0, e);
    DecompressCompressed(Padded(m, e));
  }

  lemma AmountExamples()
    ensures Compressed(0) == 0 && Compressed(1) == 1 && Compressed(CENT) == 0x7 && Compressed(COIN) == 0x9
    ensures Compressed(50 * COIN) == 0x32 && Compressed(21_000_000 * COIN) == 0x1406f40
  {
    AmountExample(1, 0, 1);
    AmountExample(1, 6, 7);
    AmountExample(1, 8, 9);
    AmountExample(5, 9, 50);
    AmountExample(2_100_000, 9, 0x1406f40);
    assert Padded(1, 6) == CENT && Padded(1, 8) == COIN;
    assert Padded(5, 9) == 50 * COIN && Padded(2_100_000, 9) == 21_000_000 * COIN;
  }

  // ---------- coins ----------

  /** The script that pays to a hash of a key. */
  function ToKeyHash(hash: seq<Byte>): seq<Byte> {
    [OP_DUP, OP_HASH160, 20] + hash + [OP_EQUALVERIFY, OP_CHECKSIG]
  }

  lemma ToKeyHashIsShort(hash: seq<Byte>, curve: Curve)
    requires |hash| == 20
    ensures EncodeScript(ToKeyHash(hash), curve) == [0] + hash && |ToKeyHash(hash)| == 25
  {
    var s := ToKeyHash(hash);
    assert s[..3] == [OP_DUP, OP_HASH160, 20] && s[23..] == [OP_EQUALVERIFY, OP_CHECKSIG] && s[3..23] == hash;
  }

  lemma OutputExample(value: nat, code: nat, hash: seq<Byte>, curve: Curve)
    requires |hash| == 20 && Compressed(value) == code && MoneyRange(value)
    ensures var o := TxOut(value, ToKeyHash(hash));
            CoinsCodec.OutputFits(o) && CoinsCodec.EncodeOutput(o, curve) == VarInt.Encode(code) + ([0] + hash)
  {
    ToKeyHashIsShort(hash, curve);
  }

  /** What the coins of the first example consist of. */
  lemma FirstParts(c: Coins, out: TxOut, curve: Curve)
    requires !out.IsNull() && CoinsCodec.OutputFits(out) && c == Coins(false, [NULL_OUT, out], 203998, 1)
    ensures CoinsCodec.CoinsFit(c) && !c.IsPruned()
    ensures CoinsCodec.Encode(c, curve)
            == VarInt.Encode(1) + VarInt.Encode(4) + ([] + CoinsCodec.EncodeOutput(out, curve) + VarInt.Encode(203998))
  {
    hide VarInt.Encode, CoinsCodec.EncodeOutput, CoinsCodec.OutputFits;
    var outputs := c.outputs;
    assert !c.outputs[1].IsNull();
    assert CoinsCodec.MaskSize(outputs) == 0 && CoinsCodec.HeaderCode(c) == 4;
    assert CoinsCodec.EncodeOutputs(outputs, 2, 2, curve) == [];
    assert CoinsCodec.EncodeOutputs(outputs, 1, 2, curve) == CoinsCodec.EncodeOutput(out, curve);
  }

  /** The first documented example: 600 coins in output 1, which pays to a hash of a key. */
  lemma FirstCoinsExample(hash: seq<Byte>, curve: Curve)
    requires |hash| == 20
    ensures var c := Coins(false, [NULL_OUT, TxOut(600 * COIN, ToKeyHash(hash))], 203998, 1);
            && CoinsCodec.CoinsFit(c) && !c.IsPruned()
            && CoinsCodec.Encode(c, curve) == [0x01, 0x04, 0x83, 0x58, 0x00] + hash + [0x8b, 0xb8, 0x5e]
  {
    hide CoinsCodec.OutputFits, CoinsCodec.EncodeOutput, EncodeScript, Compressed, ToKeyHash, VarInt.Encode;
    hide CoinsCodec.Encode, CoinsCodec.CoinsFit, Coins.IsPruned;
    var out := TxOut(600 * COIN, ToKeyHash(hash));
    AmountExample(60, 9, 600);
    assert Padded(60, 9) == 600 * COIN;
    OutputExample(600 * COIN, 600, hash, curve);
    FirstParts(Coins(false, [NULL_OUT, out], 203998, 1), out, curve);
    FirstIntegers();
  }

  lemma FirstIntegers()
    ensures VarInt.Encode(1) == [0x01] && VarInt.Encode(4) == [0x04] && VarInt.Encode(600) == [0x83, 0x58]
    ensures VarInt.Encode(203998) == [0x8b, 0xb8, 0x5e]
  {
    assert VarInt.Digits(3, true) == [0x83] && VarInt.Digits(11, true) == [0x8b];
    assert VarInt.Digits(1592, true) == [0x8b, 0xb8];
  }

  /** Seventeen outputs, of which two are unspent. */
  function Seventeen(four: TxOut, sixteen: TxOut): (r: seq<TxOut>)
    ensures |r| == 17 && r[4] == four && r[16] == sixteen
    ensures forall i :: 0 <= i < 17 && i != 4 && i != 16 ==> r[i] == NULL_OUT
  {
    seq(17, i => if i == 4 then four else if i == 16 then sixteen else NULL_OUT)
  }

  lemma SeventeenMask(four: TxOut, sixteen: TxOut)
    requires !four.IsNull() && !sixteen.IsNull()
    ensures var outputs := Seventeen(four, sixteen);
            && CoinsCodec.MaskSize(outputs) == 2 && CoinsCodec.NonZero(outputs, 0, 2) == 2
            && CoinsCodec.Mask(outputs, 0, 2) == [0x04, 0x40]
  {
    var outputs := Seventeen(four, sixteen);
    hide Seventeen;
    SeventeenBits(outputs, 2, 2);
    SeventeenBits(outputs, 10, 6);
    assert CoinsCodec.MaskByte(outputs, 0) == 4 && CoinsCodec.MaskByte(outputs, 1) == 64;
    hide CoinsCodec.MaskByte;
    assert CoinsCodec.Mask(outputs, 1, 2) == [64];
    assert CoinsCodec.NonZero(outputs, 1, 2) == 1;
  }

  /** Of eight outputs in a row, the one `at` places after the first is unspent. */
  lemma SeventeenBits(outputs: seq<TxOut>, k: nat, at: nat)
    requires at == 2 || at == 6
    requires forall i :: k <= i < k + 8 ==> (CoinsCodec.Avail(outputs, i) <==> i == k + at)
    ensures CoinsCodec.MaskBits(outputs, k, 8) == if at == 2 then 4 else 64
  {
    hide CoinsCodec.Avail;
    assert CoinsCodec.MaskBits(outputs, k + 7, 1) == 0;
    assert CoinsCodec.MaskBits(outputs, k + 6, 2) == if at == 6 then 1 else 0;
    assert CoinsCodec.MaskBits(outputs, k + 5, 3) == if at == 6 then 2 else 0;
    assert CoinsCodec.MaskBits(outputs, k + 4, 4) == if at == 6 then 4 else 0;
    assert CoinsCodec.MaskBits(outputs, k + 3, 5) == if at == 6 then 8 else 0;
    assert CoinsCodec.MaskBits(outputs, k + 2, 6) == if at == 6 then 16 else 1;
    assert CoinsCodec.MaskBits(outputs, k + 1, 7) == if at == 6 then 32 else 2;
  }

  /** Spent outputs leave no trace among the outputs. */
  lemma {:induction false} NothingBetween(outputs: seq<TxOut>, lo: nat, hi: nat, curve: Curve)
    requires CoinsCodec.OutputsFit(outputs) && lo <= hi <= |outputs|
    requires forall i :: lo <= i < hi ==> !CoinsCodec.Avail(outputs, i)
    ensures CoinsCodec.EncodeOutputs(outputs, lo, |outputs|, curve) == CoinsCodec.EncodeOutputs(outputs, hi, |outputs|, curve)
    decreases hi - lo
  {
    if lo < hi {
      NothingBetween(outputs, lo + 1, hi, curve);
    }
  }

  lemma SecondIntegers()
    ensures VarInt.Encode(1) == [0x01] && VarInt.Encode(9) == [0x09] && VarInt.Encode(993571) == [0xbb, 0xd1, 0x23]
    ensures VarInt.Encode(2114333561) == [0x86, 0xef, 0x97, 0xd5, 0x79] && VarInt.Encode(120891) == [0x86, 0xaf, 0x3b]
  {
    assert VarInt.Digits(59, true) == [0xbb];
    assert VarInt.Digits(7761, true) == [0xbb, 0xd1];
    assert VarInt.Digits(6, true) == [0x86];
    assert VarInt.Digits(943, true) == [0x86, 0xaf];
    assert VarInt.Digits(1007, true) == [0x86, 0xef];
    assert VarInt.Digits(129047, true) == [0x86, 0xef, 0x97];
    assert VarInt.Digits(16518229, true) == [0x86, 0xef, 0x97, 0xd5];
  }

  lemma SeventeenOutputs(four: TxOut, sixteen: TxOut, curve: Curve)
    requires !four.IsNull() && !sixteen.IsNull() && CoinsCodec.OutputFits(four) && CoinsCodec.OutputFits(sixteen)
    ensures var outputs := Seventeen(four, sixteen);
            && CoinsCodec.OutputsFit(outputs)
            && CoinsCodec.EncodeOutputs(outputs, 0, 17, curve)
               == CoinsCodec.EncodeOutput(four, curve) + CoinsCodec.EncodeOutput(sixteen, curve)
  {
    var outputs := Seventeen(four, sixteen);
    hide CoinsCodec.OutputFits, CoinsCodec.EncodeOutput, Seventeen;
    NothingBetween(outputs, 0, 4, curve);
    NothingBetween(outputs, 5, 16, curve);
    assert CoinsCodec.EncodeOutputs(outputs, 17, 17, curve) == [];
    assert CoinsCodec.EncodeOutputs(outputs, 16, 17, curve) == CoinsCodec.EncodeOutput(sixteen, curve);
  }

  /** What the coins of the second example consist of. */
  lemma SecondParts(c: Coins, four: TxOut, sixteen: TxOut, curve: Curve)
    requires !four.IsNull() && !sixteen.IsNull() && CoinsCodec.OutputFits(four) && CoinsCodec.OutputFits(sixteen)
    requires c == Coins(true, Seventeen(four, sixteen), 120891, 1)
    ensures CoinsCodec.CoinsFit(c) && !c.IsPruned()
    ensures CoinsCodec.Encode(c, curve)
            == VarInt.Encode(1) + VarInt.Encode(9)
               + ([0x04, 0x40] + (CoinsCodec.EncodeOutput(four, curve) + CoinsCodec.EncodeOutput(sixteen, curve))
                  + VarInt.Encode(120891))
  {
    SeventeenMask(four, sixteen);
    SeventeenOutputs(four, sixteen, curve);
    hide CoinsCodec.OutputFits, CoinsCodec.EncodeOutput, CoinsCodec.EncodeOutputs, CoinsCodec.MaskSize, CoinsCodec.Mask;
    hide CoinsCodec.NonZero, VarInt.Encode, Seventeen;
    assert !c.outputs[4].IsNull();
    assert CoinsCodec.HeaderCode(c) == 9;
  }

  /** The second documented example: outputs 4 and 16 of a coinbase are unspent. */
  lemma SecondCoinsExample(hash1: seq<Byte>, hash2: seq<Byte>, curve: Curve)
    requires |hash1| == |hash2| == 20
    ensures var four, sixteen := TxOut(234925952, ToKeyHash(hash1)), TxOut(110397, ToKeyHash(hash2));
            var c := Coins(true, Seventeen(four, sixteen), 120891, 1);
            && CoinsCodec.CoinsFit(c) && !c.IsPruned()
            && CoinsCodec.Encode(c, curve)
               == [0x01, 0x09, 0x04, 0x40, 0x86, 0xef, 0x97, 0xd5, 0x79, 0x00] + hash1
                  + [0xbb, 0xd1, 0x23, 0x00] + hash2 + [0x86, 0xaf, 0x3b]
  {
    hide CoinsCodec.OutputFits, CoinsCodec.EncodeOutput, EncodeScript, Compressed, Padded, ToKeyHash, VarInt.Encode, Seventeen;
    hide CoinsCodec.Encode, CoinsCodec.CoinsFit, Coins.IsPruned;
    var four, sixteen := TxOut(234925952, ToKeyHash(hash1)), TxOut(110397, ToKeyHash(hash2));
    NotPadded();
    OutputExample(234925952, 2114333561, hash1, curve);
    OutputExample(110397, 993571, hash2, curve);
    SecondParts(Coins(true, Seventeen(four, sixteen), 120891, 1), four, sixteen, curve);
    SecondIntegers();
  }

  lemma NotPadded()
    ensures Compressed(234925952) == 2114333561 && Compressed(110397) == 993571
  {
    AmountExample(234925952, 0, 2114333561);
    AmountExample(110397, 0, 993571);
  }
}
