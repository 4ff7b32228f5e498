/** The money supply: what the unspent outputs are worth, and what a block may add to it. */
module Money {
  import opened Common
  import opened Amounts
  import opened Coins
  import opened Blocks
  import opened Arith
  import Target

  function Unspent(outputs: seq<TxOut>): int {
    if outputs == [] then
      0
    else
      var last := outputs[|outputs| - 1];
      Unspent(outputs[..|outputs| - 1]) + if last.IsNull() then 0 else last.value
  }

  /** The value of all unspent outputs. */
  ghost function Total(s: CoinSet): int
    decreases |s|
  {
    if s == map[] then
      0
    else
      var id :| id in s;
      assert |s - {id}| < |s| by {
        assert (s - {id}).Keys == s.Keys - {id};
      }
      Unspent(s[id].outputs) + Total(s - {id})
  }

  lemma {:induction false} TotalSplit(s: CoinSet, id: TxId)
    requires id in s
    ensures Total(s) == Unspent(s[id].outputs) + Total(s - {id})
    decreases |s|
  {
    var pick :| pick in s && Total(s) == Unspent(s[pick].outputs) + Total(s - {pick});
    if pick != id {
      assert (s - {pick}).Keys == s.Keys - {pick};
      assert (s - {id}).Keys == s.Keys - {id};
      TotalSplit(s - {pick}, id);
      TotalSplit(s - {id}, pick);
      assert s - {pick} - {id} == s - {id} - {pick};
    }
  }

  lemma TotalStore(s: CoinSet, id: TxId, c: Coins)
    ensures Total(Store(s, id, c))
            == Total(s) - (if id in s then Unspent(s[id].outputs) else 0) + Unspent(c.outputs)
  {
    var s' := Store(s, id, c);
    if id in s {
      TotalSplit(s, id);
    } else {
      assert s - {id} == s;
    }
    if c.outputs != [] {
      TotalSplit(s', id);
      assert s' - {id} == s - {id};
    }
  }

  lemma {:induction false} UnspentAfterTrim(outputs: seq<TxOut>)
    ensures Unspent(Trim(outputs)) == Unspent(outputs)
  {
    if outputs != [] && outputs[|outputs| - 1].IsNull() {
      UnspentAfterTrim(outputs[..|outputs| - 1]);
    }
  }

  lemma {:induction false} UnspentWithout(outputs: seq<TxOut>, n: nat)
    requires n < |outputs| && !outputs[n].IsNull()
    ensures Unspent(outputs[n := NULL_OUT]) == Unspent(outputs) - outputs[n].value
  {
    var k := |outputs| - 1;
    if n == k {
      assert outputs[n := NULL_OUT][..k] == outputs[..k];
    } else {
      UnspentWithout(outputs[..k], n);
      assert outputs[n := NULL_OUT][..k] == outputs[..k][n := NULL_OUT];
    }
  }

  lemma {:induction false} UnspentOfNew(outputs: seq<TxOut>)
    requires forall i :: 0 <= i < |outputs| ==> outputs[i].value >= MIN_TXOUT_AMOUNT
    ensures Unspent(outputs) == SumValues(outputs)
  {
    if outputs != [] {
      UnspentOfNew(outputs[..|outputs| - 1]);
    }
  }

  lemma TotalAfterSpend(s: CoinSet, out: OutPoint)
    requires Available(s, out)
    ensures Total(SpendInput(s, out).0) == Total(s) - s[out.hash].outputs[out.n].value
  {
    var c := s[out.hash];
    var c' := SpendOutput(c, out.n).0;
    TotalStore(s, out.hash, c');
    UnspentWithout(c.outputs, out.n);
    UnspentAfterTrim(c.outputs[out.n := NULL_OUT]);
  }

  lemma {:induction false} SpendInputsFrame(s: CoinSet, inputs: seq<OutPoint>, out: OutPoint)
    requires HaveInputs(s, inputs) && Distinct(inputs) && out !in inputs && Available(s, out)
    ensures SpendInputs(s, inputs).0[out.hash].outputs[out.n] == s[out.hash].outputs[out.n]
  {
    if inputs != [] {
      var k := |inputs| - 1;
      SpendInputsFrame(s, inputs[..k], out);
      SpendInputFrame(SpendInputs(s, inputs[..k]).0, inputs[k], out);
    }
  }

  lemma {:induction false} TotalAfterSpends(s: CoinSet, inputs: seq<OutPoint>)
    requires HaveInputs(s, inputs) && Distinct(inputs)
    ensures Total(SpendInputs(s, inputs).0) == Total(s) - ValueIn(s, inputs)
  {
    if inputs != [] {
      var k := |inputs| - 1;
      TotalAfterSpends(s, inputs[..k]);
      assert inputs[k] !in inputs[..k];
      SpendInputsFrame(s, inputs[..k], inputs[k]);
      TotalAfterSpend(SpendInputs(s, inputs[..k]).0, inputs[k]);
    }
  }

  /** Nothing is created or lost but what the value counters say. */
  ghost predicate Balanced(s: CoinSet, txs: seq<Tx>, c: Connected) {
    && Total(c.coins) == Total(s) + c.valueOut - c.valueIn
    && (txs != [] ==> c.valueOut - c.valueIn == txs[0].ValueOut() - c.fees)
    && (txs == [] ==> c.valueOut - c.valueIn == 0 == c.fees)
  }

  lemma TotalAfterTx(c: Connected, tx: Tx, height: nat)
    requires CheckTransaction(tx) && tx.hash !in c.coins && ConnectTx(c, tx, height).Some?
    ensures var c' := ConnectTx(c, tx, height).value;
            && Total(c'.coins) - (c'.valueOut - c'.valueIn) == Total(c.coins) - (c.valueOut - c.valueIn)
            && c'.valueOut - c'.valueIn == c.valueOut - c.valueIn
                 + (if tx.IsCoinBase() then tx.ValueOut() else c.fees - c'.fees)
            && (tx.IsCoinBase() ==> c'.fees == c.fees)
  {
    UnspentOfNew(tx.outputs);
    var new_ := CoinsOf(tx, height);
    if tx.IsCoinBase() {
      TotalStore(c.coins, tx.hash, new_);
    } else {
      TotalAfterSpends(c.coins, tx.inputs);
      TotalStore(SpendInputs(c.coins, tx.inputs).0, tx.hash, new_);
    }
  }

  lemma {:induction false} TotalAfterTxs(s: CoinSet, txs: seq<Tx>, height: nat)
    requires ChecksOut(txs) && DistinctIds(txs) && NoOverwrite(s, txs)
    requires txs != [] ==> CoinBaseFirst(txs)
    requires ConnectTxs(s, txs, height).Some?
    ensures Balanced(s, txs, ConnectTxs(s, txs, height).value)
  {
    if txs != [] {
      var k := |txs| - 1;
      var front, last := txs[..k], txs[k];
      TotalAfterTxs(s, front, height);
      ConnectTxsKeys(s, front, height, last.hash);
      var c := ConnectTxs(s, front, height).value;
      TotalAfterTx(c, last, height);
    }
  }

  /** What a connected block does to the value of the coin set is what its money counters say. */
  lemma TotalAfterConnect(s: CoinSet, b: Block, height: nat, verified: bool)
    requires Connect(s, b, height, verified).Some?
    ensures var c := Connect(s, b, height, verified).value;
            Total(c.coins) == Total(s) + c.valueOut - c.valueIn
  {
    TotalAfterTxs(s, b.txs, height);
  }

  /** A connected block adds at most its subsidy: fees are only handed on. */
  lemma GrowthIsAtMostMint(s: CoinSet, b: Block, height: nat, verified: bool)
    requires Connect(s, b, height, verified).Some?
    ensures Total(Connect(s, b, height, verified).value.coins) <= Total(s) + Target.Mint(b.bits)
  {
    TotalAfterTxs(s, b.txs, height);
    var fee := (1 + b.txs[0].size / 1000) * MIN_TX_FEE;
    assert fee >= MIN_TX_FEE;
  }

  lemma DivBound(a: nat, f: nat, bits: nat, n: nat)
    requires f > 0 && bits > 0 && n * f <= bits
    ensures a * f / bits * n <= a
  {
    var q := a * f / bits;
    DivMul(a * f, bits);
    MulGe(n * f, bits, q);
    assert q * n * f == n * f * q <= bits * q == q * bits;
    MulCancel(q * n, a, f);
  }

  /**
   The subsidy is 999 coins over the square of the target, rounded down to a cent: the next
   higher cent would be more, but for what the first of the two divisions drops.
   */
  lemma MintIs(bits: nat)
    requires Target.Length(bits) >= 6
    ensures var mint, f := Target.Mint(bits), Target.FRACTION;
            && mint % CENT == 0
            && mint * bits * bits <= 999 * COIN * f * f < (mint + CENT) * bits * bits + f * bits
  {
    hide Target.Length;
    var f := Target.FRACTION;
    var limit: nat := 999 * COIN;
    TargetIsLong(bits);
    var once := Target.Scale(limit, bits);
    var twice := Target.Scale(once, bits);
    QuotientBounds(limit * f, bits);
    QuotientBounds(once * f, bits);
    var mint := twice / CENT * CENT;
    assert mint <= twice < mint + CENT && mint % CENT == 0;
    TwiceScaled(limit, f, bits, once, twice, mint);
    if mint > limit {
      MulGe(f * f, bits * bits, mint);
      MulGe(limit + 1, mint, f * f);
      MulGe(f, bits, f);
      MulGe(f, bits, bits);
    }
    MintUnlimited(bits, mint);
  }

  lemma TargetIsLong(bits: nat)
    requires Target.Length(bits) >= 6
    ensures bits >= 6 * Target.FRACTION
  {
  }

  lemma MintUnlimited(bits: nat, mint: nat)
    requires Target.Length(bits) >= 6 && bits > 0
    requires mint == Target.Scale(Target.Scale(999 * COIN, bits), bits) / CENT * CENT <= 999 * COIN
    ensures Target.Mint(bits) == mint
  {
  }

  lemma TwiceScaled(limit: nat, f: nat, bits: nat, once: nat, twice: nat, mint: nat)
    requires once * bits <= limit * f < once * bits + bits
    requires twice * bits <= once * f < twice * bits + bits
    requires mint <= twice < mint + CENT
    ensures mint * bits * bits <= limit * f * f < (mint + CENT) * bits * bits + f * bits
  {
    Between(limit * f, once * bits, bits, f);
    Between(once * f, twice * bits, bits, bits);
    MulSwap(once, f, bits);
    MulGe(mint, twice, bits);
    MulGe(mint * bits, twice * bits, bits);
    MulGe(twice + 1, mint + CENT, bits);
    MulGt(once * f, (mint + CENT) * bits, bits);
  }

  lemma Between(x: nat, y: nat, d: nat, k: nat)
    requires y <= x < y + d
    ensures y * k <= x * k <= y * k + k * d
  {
    MulGe(y, x, k);
    MulGe(x, y + d, k);
  }

  /** The subsidy is at most 999 coins over the square of the target length. */
  lemma MintBound(bits: nat)
    ensures Target.Mint(bits) * Target.Length(bits) * Target.Length(bits) <= 999 * COIN
  {
    var n := Target.Length(bits);
    var limit: nat := 999 * COIN;
    if Target.MIN_LENGTH <= n {
      var f := Target.FRACTION;
      DivMul(bits, f);
      DivBound(limit, f, bits, n);
      var once := Target.Scale(limit, bits);
      DivBound(once, f, bits, n);
      var twice := Target.Scale(once, bits);
      var mint := Target.Mint(bits);
      assert mint <= twice by {
        DivMul(twice, CENT);
      }
      MulGe(mint, twice, n);
      MulGe(mint * n, twice * n, n);
      MulGe(twice * n, once, n);
    } else {
      assert Target.Mint(bits) == 0;
    }
  }
}
