/**
 What a block that may be connected is sure to obey: maturity, fees, and that no output is
 spent twice, whatever the transactions of the block spend of each other.
 */
module BlockRules {
  import opened Common
  import opened Amounts
  import opened Coins
  import opened Blocks
  import Money
  import Target

  /** The fee is a cent for each thousand bytes that the transaction has at least started. */
  lemma MinFeeIs(tx: Tx, thousands: nat)
    requires 1000 * (thousands - 1) <= tx.size < 1000 * thousands
    ensures tx.MinFee() == if thousands * 1_000_000 <= MAX_MONEY then thousands * 1_000_000 else MAX_MONEY
  {
    assert tx.size / 1000 == thousands - 1;
  }

  /** Everything that decides whether a transaction may be connected. */
  ghost predicate Lawful(s: CoinSet, tx: Tx, height: nat, thousands: nat) {
    && HaveInputs(s, tx.inputs)
    && (forall i :: 0 <= i < |tx.inputs| ==>
          var c := s[tx.inputs[i].hash];
          && (c.isCoinBase ==> c.height + 3000 <= height)
          && 0 <= c.outputs[tx.inputs[i].n].value <= MAX_MONEY)
    && ValueIn(s, tx.inputs) <= MAX_MONEY
    && (thousands * 1_000_000 <= MAX_MONEY ==> ValueIn(s, tx.inputs) >= tx.ValueOut() + thousands * 1_000_000)
    && (thousands * 1_000_000 > MAX_MONEY ==> ValueIn(s, tx.inputs) >= tx.ValueOut() + MAX_MONEY)
  }

  lemma {:induction false} ValueInIsPositive(s: CoinSet, inputs: seq<OutPoint>)
    requires HaveInputs(s, inputs)
    requires forall i :: 0 <= i < |inputs| ==> s[inputs[i].hash].outputs[inputs[i].n].value >= 0
    ensures ValueIn(s, inputs) >= 0
  {
    if inputs != [] {
      ValueInIsPositive(s, inputs[..|inputs| - 1]);
    }
  }

  lemma LawfulWhen(s: CoinSet, tx: Tx, height: nat, thousands: nat)
    requires 1000 * (thousands - 1) <= tx.size < 1000 * thousands
    ensures CheckInputs(s, tx, height) <==> Lawful(s, tx, height, thousands)
  {
    MinFeeIs(tx, thousands);
    hide SumValues, ValueIn, Tx.MinFee;
    if Lawful(s, tx, height, thousands) {
      ValueInIsPositive(s, tx.inputs);
    }
  }

  lemma {:induction false} PrefixConnects(s: CoinSet, txs: seq<Tx>, height: nat, i: nat)
    requires ChecksOut(txs) && ConnectTxs(s, txs, height).Some? && i < |txs|
    ensures ConnectTxs(s, txs[..i], height).Some? && Distinct(txs[i].inputs)
    ensures ConnectTx(ConnectTxs(s, txs[..i], height).value, txs[i], height).Some?
    ensures ConnectTxs(s, txs[..i + 1], height) == ConnectTx(ConnectTxs(s, txs[..i], height).value, txs[i], height)
    decreases |txs|
  {
    hide ConnectTx;
    var k := |txs| - 1;
    assert CheckTransaction(txs[i]);
    assert txs[..i + 1][..i] == txs[..i];
    if i < k {
      PrefixConnects(s, txs[..k], height, i);
      assert txs[..k][..i] == txs[..i] && txs[..k][..i + 1] == txs[..i + 1];
    } else {
      assert txs[..i + 1] == txs;
    }
  }

  /**
   In a block that connects, every transaction after the coinbase spends outputs there are at
   that point, none of a coinbase before 3000 blocks, and leaves the fee for its size.
   */
  lemma ConnectedObeys(s: CoinSet, b: Block, height: nat, i: nat, thousands: nat)
    requires Connect(s, b, height, true).Some? && 0 < i < |b.txs|
    requires 1000 * (thousands - 1) <= b.txs[i].size < 1000 * thousands
    ensures ChecksOut(b.txs) && ConnectTxs(s, b.txs[..i], height).Some?
    ensures Lawful(ConnectTxs(s, b.txs[..i], height).value.coins, b.txs[i], height, thousands)
  {
    hide ConnectTxs, CheckInputs, Lawful;
    PrefixConnects(s, b.txs, height, i);
    LawfulWhen(ConnectTxs(s, b.txs[..i], height).value.coins, b.txs[i], height, thousands);
  }

  // ---------- no output is spent twice ----------

  lemma SpentIsGone(s: CoinSet, out: OutPoint)
    requires Available(s, out)
    ensures !Available(SpendInput(s, out).0, out)
  {
    var spent := s[out.hash].outputs[out.n := NULL_OUT];
    assert Trim(spent) <= spent;
  }

  lemma {:induction false} SpentStaysGone(s: CoinSet, inputs: seq<OutPoint>, out: OutPoint)
    requires HaveInputs(s, inputs) && Distinct(inputs)
    ensures out in inputs ==> !Available(SpendInputs(s, inputs).0, out)
    ensures !Available(s, out) ==> !Available(SpendInputs(s, inputs).0, out)
  {
    if inputs != [] {
      var k := |inputs| - 1;
      assert inputs[k] !in inputs[..k];
      var before := SpendInputs(s, inputs[..k]).0;
      SpentStaysGone(s, inputs[..k], out);
      if out == inputs[k] {
        SpentIsGone(before, out);
      } else {
        SpendInputFrame(before, inputs[k], out);
        assert out in inputs ==> out in inputs[..k];
      }
    }
  }

  /** A transaction makes no output available but its own, and those it spends no more. */
  lemma ConnectedAvailable(c: Connected, tx: Tx, height: nat, out: OutPoint)
    requires Distinct(tx.inputs) && ConnectTx(c, tx, height).Some? && out.hash != tx.hash
    ensures !tx.IsCoinBase() ==> HaveInputs(c.coins, tx.inputs)
    ensures !Available(c.coins, out) ==> !Available(ConnectTx(c, tx, height).value.coins, out)
    ensures !tx.IsCoinBase() && out in tx.inputs ==> !Available(ConnectTx(c, tx, height).value.coins, out)
  {
    hide SumValues, ValueIn;
    if !tx.IsCoinBase() {
      SpentStaysGone(c.coins, tx.inputs, out);
    }
  }

  /** An output that is not there stays away until a transaction of its name is connected. */
  lemma {:induction false} StaysUnavailable(s: CoinSet, txs: seq<Tx>, height: nat, out: OutPoint, i: nat, j: nat)
    requires ChecksOut(txs) && ConnectTxs(s, txs, height).Some? && i <= j <= |txs|
    requires ConnectTxs(s, txs[..i], height).Some? && !Available(ConnectTxs(s, txs[..i], height).value.coins, out)
    requires forall k :: i <= k < j ==> txs[k].hash != out.hash
    ensures ConnectTxs(s, txs[..j], height).Some? && !Available(ConnectTxs(s, txs[..j], height).value.coins, out)
    decreases j - i
  {
    if i < j {
      hide ConnectTxs, ConnectTx, Available;
      PrefixConnects(s, txs, height, i);
      ConnectedAvailable(ConnectTxs(s, txs[..i], height).value, txs[i], height, out);
      StaysUnavailable(s, txs, height, out, i + 1, j);
    }
  }

  /** A transaction spends only what was there before the block, or what an earlier one of the block added. */
  lemma {:induction false} KnownNames(s: CoinSet, txs: seq<Tx>, height: nat, id: TxId)
    requires ChecksOut(txs) && ConnectTxs(s, txs, height).Some? && id in ConnectTxs(s, txs, height).value.coins
    ensures id in s || exists k :: 0 <= k < |txs| && txs[k].hash == id
  {
    if id !in s && forall k :: 0 <= k < |txs| ==> txs[k].hash != id {
      ConnectTxsKeys(s, txs, height, id);
    }
  }

  /** No two transactions of a block that connects spend the same output. */
  lemma NoDoubleSpendInBlock(s: CoinSet, b: Block, height: nat, i: nat, j: nat, out: OutPoint)
    requires Connect(s, b, height, true).Some? && 0 < i < j < |b.txs|
    requires out in b.txs[i].inputs
    ensures out !in b.txs[j].inputs
  {
    hide ConnectTxs, ConnectTx;
    var txs := b.txs;
    PrefixConnects(s, txs, height, i);
    PrefixConnects(s, txs, height, j);
    SpenderHas(ConnectTxs(s, txs[..i], height).value, txs[i], height, out);
    KnownNames(s, txs[..i], height, out.hash);
    NamedBefore(s, b, height, i, out.hash);
    ConnectedAvailable(ConnectTxs(s, txs[..i], height).value, txs[i], height, out);
    StaysUnavailable(s, txs, height, out, i + 1, j);
    if out in txs[j].inputs {
      SpenderHas(ConnectTxs(s, txs[..j], height).value, txs[j], height, out);
    }
  }

  lemma SpenderHas(c: Connected, tx: Tx, height: nat, out: OutPoint)
    requires Distinct(tx.inputs) && ConnectTx(c, tx, height).Some? && !tx.IsCoinBase() && out in tx.inputs
    ensures Available(c.coins, out) && out.hash in c.coins
  {
    var k :| 0 <= k < |tx.inputs| && tx.inputs[k] == out;
    assert Available(c.coins, tx.inputs[k]);
  }

  /** The name of coins that are there is not that of a transaction still to come. */
  lemma NamedBefore(s: CoinSet, b: Block, height: nat, i: nat, id: TxId)
    requires Connect(s, b, height, true).Some? && i < |b.txs|
    requires id in s || exists k :: 0 <= k < i && b.txs[k].hash == id
    ensures forall k :: i <= k < |b.txs| ==> b.txs[k].hash != id
  {
  }

  /**
   A block whose transactions pass and that is verified connects exactly when what the coinbase
   pays out, with the fee for its size, is covered by the subsidy, the fees of the other
   transactions and one cent.
   */
  lemma CoinBaseLimit(s: CoinSet, b: Block, height: nat, thousands: nat)
    requires ConnectChecked(s, b, height).Some? && thousands * 1_000_000 <= MAX_MONEY
    requires b.txs != [] && 1000 * (thousands - 1) <= b.txs[0].size < 1000 * thousands
    ensures var c := ConnectChecked(s, b, height).value;
            var mined := b.txs[0].ValueOut();
            Connect(s, b, height, true).Some?
            <==> mined + thousands * 1_000_000 <= Target.Mint(b.bits) + (c.valueIn - (c.valueOut - mined)) + 1_000_000
  {
    hide Target.Mint, ConnectTxs, SumValues, Tx.MinFee;
    MinFeeIs(b.txs[0], thousands);
    Money.TotalAfterTxs(s, b.txs, height);
  }

  // ---------- where coins come from ----------

  /** Coins with what they show of their transaction, and those of its outputs that are left. */
  predicate StemsFrom(c: Coins, tx: Tx, height: nat) {
    && c.isCoinBase == tx.IsCoinBase() && c.height == height && c.version == tx.version
    && forall n :: 0 <= n < |c.outputs| ==> c.outputs[n].IsNull() || (n < |tx.outputs| && c.outputs[n] == tx.outputs[n])
  }

  /** The coins of s' are coins of s, of which some outputs may be spent. */
  ghost predicate Remains(s: CoinSet, s': CoinSet) {
    forall id :: id in s' ==> id in s && IsLeft(s[id], s'[id])
  }

  predicate IsLeft(c: Coins, left: Coins) {
    && left == c.(outputs := left.outputs)
    && forall n :: 0 <= n < |left.outputs| ==> left.outputs[n].IsNull() || (n < |c.outputs| && left.outputs[n] == c.outputs[n])
  }

  lemma SpendLeaves(s: CoinSet, out: OutPoint)
    requires Available(s, out)
    ensures Remains(s, SpendInput(s, out).0)
  {
    var c := s[out.hash];
    var spent := c.outputs[out.n := NULL_OUT];
    assert Trim(spent) <= spent;
    assert IsLeft(c, SpendOutput(c, out.n).0);
  }

  lemma {:induction false} SpendsLeave(s: CoinSet, inputs: seq<OutPoint>)
    requires HaveInputs(s, inputs) && Distinct(inputs)
    ensures Remains(s, SpendInputs(s, inputs).0)
  {
    if inputs != [] {
      var k := |inputs| - 1;
      assert inputs[k] !in inputs[..k];
      SpendsLeave(s, inputs[..k]);
      SpendLeaves(SpendInputs(s, inputs[..k]).0, inputs[k]);
    }
  }

  /** Each entry was there before, or stems from one of some transactions. */
  ghost predicate AllStem(s: CoinSet, txs: seq<Tx>, height: nat, s': CoinSet) {
    forall id :: id in s' ==> (id in s && IsLeft(s[id], s'[id])) || StemsFromOne(txs, height, id, s'[id])
  }

  ghost predicate StemsFromOne(txs: seq<Tx>, height: nat, id: TxId, c: Coins) {
    exists k :: 0 <= k < |txs| && txs[k].hash == id && StemsFrom(c, txs[k], height)
  }

  lemma LeftStems(c: Coins, left: Coins, tx: Tx, height: nat)
    requires StemsFrom(c, tx, height) && IsLeft(c, left)
    ensures StemsFrom(left, tx, height)
  {
  }

  lemma ConnectedTxLeaves(c: Connected, tx: Tx, height: nat)
    requires Distinct(tx.inputs) && ConnectTx(c, tx, height).Some?
    ensures var c' := ConnectTx(c, tx, height).value.coins;
            && tx.hash in c' && StemsFrom(c'[tx.hash], tx, height)
            && forall id :: id in c' && id != tx.hash ==> id in c.coins && IsLeft(c.coins[id], c'[id])
  {
    hide SumValues, ValueIn;
    if !tx.IsCoinBase() {
      SpendsLeave(c.coins, tx.inputs);
    }
  }

  lemma {:induction false} ConnectedStem(s: CoinSet, txs: seq<Tx>, height: nat)
    requires ChecksOut(txs) && ConnectTxs(s, txs, height).Some?
    ensures AllStem(s, txs, height, ConnectTxs(s, txs, height).value.coins)
  {
    if txs != [] {
      var k := |txs| - 1;
      var before, now := ConnectTxs(s, txs[..k], height).value.coins, ConnectTxs(s, txs, height).value.coins;
      assert CheckTransaction(txs[k]);
      ConnectedStem(s, txs[..k], height);
      ConnectedTxLeaves(ConnectTxs(s, txs[..k], height).value, txs[k], height);
      forall id | id in now
        ensures (id in s && IsLeft(s[id], now[id])) || StemsFromOne(txs, height, id, now[id])
      {
        if id != txs[k].hash {
          StemsOn(s, txs, height, id, before[id], now[id]);
        }
      }
    }
  }

  lemma StemsOn(s: CoinSet, txs: seq<Tx>, height: nat, id: TxId, c: Coins, left: Coins)
    requires txs != [] && IsLeft(c, left)
    requires (id in s && IsLeft(s[id], c)) || StemsFromOne(txs[..|txs| - 1], height, id, c)
    ensures (id in s && IsLeft(s[id], left)) || StemsFromOne(txs, height, id, left)
  {
    var front := txs[..|txs| - 1];
    if StemsFromOne(front, height, id, c) {
      var k :| 0 <= k < |front| && front[k].hash == id && StemsFrom(c, front[k], height);
      LeftStems(c, left, front[k], height);
      assert txs[k] == front[k];
    }
  }
}
