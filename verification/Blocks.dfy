/**
 Blocks and the coin set. A coin set holds the transactions that still have an unspent
 output; entries that are entirely spent do not show in it.
 */
module Blocks {
  import opened Common
  import opened Amounts
  import opened Coins
  import Target

  /** A 256-bit block hash. */
  type BlockId = nat

  type CoinSet = map<TxId, Coins>

  datatype Block = Block(txs: seq<Tx>, bits: nat)

  /** One list per transaction after the coinbase, one record per input. */
  type BlockUndo = seq<seq<TxInUndo>>

  ghost predicate ValidSet(s: CoinSet) {
    forall id :: id in s ==> s[id].IsTidy() && s[id].outputs != []
  }

  // ---------- checks that need no context ----------

  predicate CheckTransaction(tx: Tx) {
    && tx.inputs != []
    && tx.outputs != []
    && (forall i :: 0 <= i < |tx.outputs| ==> MIN_TXOUT_AMOUNT <= tx.outputs[i].value <= MAX_MONEY)
    && MoneyRange(tx.ValueOut())
    && Distinct(tx.inputs)
    && (tx.IsCoinBase() || NULL_PREVOUT !in tx.inputs)
  }

  predicate CheckBlock(b: Block) {
    && b.txs != []
    && b.txs[0].IsCoinBase()
    && (forall i :: 0 < i < |b.txs| ==> !b.txs[i].IsCoinBase())
    && (forall i :: 0 <= i < |b.txs| ==> CheckTransaction(b.txs[i]))
    && DistinctIds(b.txs)
  }

  predicate DistinctIds(txs: seq<Tx>) {
    forall i, j :: 0 <= i < j < |txs| ==> txs[i].hash != txs[j].hash
  }

  // ---------- spending and restoring inputs ----------

  predicate Available(s: CoinSet, out: OutPoint) {
    out.hash in s && s[out.hash].IsAvailable(out.n)
  }

  predicate HaveInputs(s: CoinSet, inputs: seq<OutPoint>) {
    forall i :: 0 <= i < |inputs| ==> Available(s, inputs[i])
  }

  /** The coins c of transaction id, or no entry when nothing of them is left. */
  function Store(s: CoinSet, id: TxId, c: Coins): CoinSet {
    if c.outputs == [] then s - {id} else s[id := c]
  }

  function SpendInput(s: CoinSet, out: OutPoint): (CoinSet, TxInUndo)
    requires Available(s, out)
  {
    var (c, undo) := SpendOutput(s[out.hash], out.n);
    (Store(s, out.hash, c), undo)
  }

  lemma SpendInputFrame(s: CoinSet, out: OutPoint, other: OutPoint)
    requires Available(s, out) && other != out
    ensures Available(SpendInput(s, out).0, other) <==> Available(s, other)
    ensures Available(s, other) ==> SpendInput(s, out).0[other.hash].outputs[other.n] == s[other.hash].outputs[other.n]
    ensures Available(s, other) ==> SpendInput(s, out).0[other.hash].isCoinBase == s[other.hash].isCoinBase
    ensures Available(s, other) ==> SpendInput(s, out).0[other.hash].height == s[other.hash].height
  {
    if other.hash == out.hash {
      var c := s[out.hash];
      var spent := c.outputs[out.n := NULL_OUT];
      var left := Trim(spent);
      assert c.IsAvailable(other.n) ==> !spent[other.n].IsNull();
      assert other.n < |left| ==> left[other.n] == spent[other.n] == c.outputs[other.n];
    }
  }

  /** Spends the inputs one after the other. */
  function SpendInputs(s: CoinSet, inputs: seq<OutPoint>): (r: (CoinSet, seq<TxInUndo>))
    requires HaveInputs(s, inputs) && Distinct(inputs)
    ensures |r.1| == |inputs|
    ensures forall out :: out !in inputs && Available(s, out) ==> Available(r.0, out)
    ensures r.0.Keys <= s.Keys
  {
    if inputs == [] then
      (s, [])
    else
      var k := |inputs| - 1;
      var (s', undo) := SpendInputs(s, inputs[..k]);
      assert inputs[k] !in inputs[..k];
      var (s'', u) := SpendInput(s', inputs[k]);
      assert forall out :: out !in inputs && Available(s, out) ==> Available(s'', out) by {
        forall out | out !in inputs && Available(s, out) ensures Available(s'', out) {
          assert out !in inputs[..k];
          SpendInputFrame(s', inputs[k], out);
        }
      }
      (s'', undo + [u])
  }

  /** None when the undo data does not fit the coin set. */
  function RestoreInput(s: CoinSet, out: OutPoint, undo: TxInUndo): Option<CoinSet> {
    var (c, clean) := RestoreOutput(if out.hash in s then s[out.hash] else NO_COINS, out.n, undo);
    if clean then Some(s[out.hash := c]) else None
  }

  /** Puts the inputs back, the last one first. */
  function RestoreInputs(s: CoinSet, inputs: seq<OutPoint>, undo: seq<TxInUndo>): Option<CoinSet>
    requires |inputs| == |undo|
    decreases |inputs|
  {
    if inputs == [] then
      Some(s)
    else
      var k := |inputs| - 1;
      match RestoreInput(s, inputs[k], undo[k])
      case None => None
      case Some(s') => RestoreInputs(s', inputs[..k], undo[..k])
  }

  lemma SpendInputKeepsValid(s: CoinSet, out: OutPoint)
    requires ValidSet(s) && Available(s, out)
    ensures ValidSet(SpendInput(s, out).0)
    ensures RestoreInput(SpendInput(s, out).0, out, SpendInput(s, out).1) == Some(s)
  {
    var c := s[out.hash];
    var (c', undo) := SpendOutput(c, out.n);
    SpendKeepsTidy(c, out.n);
    RestoreAfterSpend(c, out.n);
    var s' := Store(s, out.hash, c');
    if c'.outputs == [] {
      assert RestoreOutput(NO_COINS, out.n, undo) == RestoreOutput(c', out.n, undo);
    }
    assert s'[out.hash := c] == s;
  }

  /** Restoring the inputs a transaction spent gives back the coin set it spent them from. */
  lemma {:induction false} RestoreAfterSpendInputs(s: CoinSet, inputs: seq<OutPoint>)
    requires ValidSet(s) && HaveInputs(s, inputs) && Distinct(inputs)
    ensures var (s', undo) := SpendInputs(s, inputs);
            ValidSet(s') && RestoreInputs(s', inputs, undo) == Some(s)
  {
    if inputs != [] {
      var k := |inputs| - 1;
      RestoreAfterSpendInputs(s, inputs[..k]);
      var (s', undo) := SpendInputs(s, inputs[..k]);
      assert inputs[k] !in inputs[..k];
      SpendInputKeepsValid(s', inputs[k]);
      assert (undo + [SpendInput(s', inputs[k]).1])[..k] == undo;
    }
  }

  // ---------- connecting transactions ----------

  function ValueIn(s: CoinSet, inputs: seq<OutPoint>): int
    requires HaveInputs(s, inputs)
  {
    if inputs == [] then
      0
    else
      var out := inputs[|inputs| - 1];
      ValueIn(s, inputs[..|inputs| - 1]) + s[out.hash].outputs[out.n].value
  }

  /** Availability, maturity and the money rules; scripts are checked elsewhere. */
  predicate CheckInputs(s: CoinSet, tx: Tx, height: nat) {
    && HaveInputs(s, tx.inputs)
    && (forall i :: 0 <= i < |tx.inputs| ==>
          var c := s[tx.inputs[i].hash];
          && (c.isCoinBase ==> height - c.height >= COINBASE_MATURITY)
          && MoneyRange(c.outputs[tx.inputs[i].n].value))
    && MoneyRange(ValueIn(s, tx.inputs))
    && ValueIn(s, tx.inputs) - tx.ValueOut() >= tx.MinFee()
  }

  /** The coin set after some transactions, with their undo data and the value they moved. */
  datatype Connected = Connected(coins: CoinSet, undo: BlockUndo, valueIn: int, valueOut: int, fees: int)

  function ConnectTx(c: Connected, tx: Tx, height: nat): Option<Connected>
    requires Distinct(tx.inputs)
  {
    if tx.IsCoinBase() then
      Some(c.(coins := c.coins[tx.hash := CoinsOf(tx, height)], valueOut := c.valueOut + tx.ValueOut()))
    else if !CheckInputs(c.coins, tx, height) then
      None
    else
      var (coins, undo) := SpendInputs(c.coins, tx.inputs);
      var valueIn := ValueIn(c.coins, tx.inputs);
      Some(Connected(coins[tx.hash := CoinsOf(tx, height)], c.undo + [undo], c.valueIn + valueIn,
                     c.valueOut + tx.ValueOut(), c.fees + valueIn - tx.ValueOut()))
  }

  ghost predicate ChecksOut(txs: seq<Tx>) {
    forall i :: 0 <= i < |txs| ==> CheckTransaction(txs[i])
  }

  /** None when some transaction may not be connected. */
  function ConnectTxs(s: CoinSet, txs: seq<Tx>, height: nat): Option<Connected>
    requires forall i :: 0 <= i < |txs| ==> CheckTransaction(txs[i])
  {
    if txs == [] then
      Some(Connected(s, [], 0, 0, 0))
    else
      var last := txs[|txs| - 1];
      assert CheckTransaction(last);
      match ConnectTxs(s, txs[..|txs| - 1], height)
      case None => None
      case Some(c) => ConnectTx(c, last, height)
  }

  /** No transaction of the block may hide one that still has unspent outputs. */
  predicate NoOverwrite(s: CoinSet, txs: seq<Tx>) {
    forall i :: 0 <= i < |txs| ==> txs[i].hash !in s
  }

  /** The transactions of a block, connected one after the other. */
  function ConnectChecked(s: CoinSet, b: Block, height: nat): Option<Connected> {
    if !CheckBlock(b) || !NoOverwrite(s, b.txs) then None else ConnectTxs(s, b.txs, height)
  }

  /** Connecting a block; `verified` is the outcome of the script and signature-count checks. */
  function Connect(s: CoinSet, b: Block, height: nat, verified: bool): Option<Connected> {
    match ConnectChecked(s, b, height)
    case None => None
    case Some(c) =>
      if b.txs[0].ValueOut() > Target.Mint(b.bits) + c.fees - b.txs[0].MinFee() + MIN_TX_FEE || !verified
      then None else Some(c)
  }

  // ---------- disconnecting ----------

  /** None when the outputs found are not those the transaction added. */
  function RemoveOutputs(s: CoinSet, tx: Tx, height: nat): Option<CoinSet> {
    if tx.hash !in s then
      None
    else
      var expected := CoinsOf(tx, height);
      var found := if expected.version < 0 then s[tx.hash].(version := expected.version) else s[tx.hash];
      if found == expected then Some(s - {tx.hash}) else None
  }

  function DisconnectTx(s: CoinSet, tx: Tx, height: nat, undo: seq<TxInUndo>): Option<CoinSet> {
    match RemoveOutputs(s, tx, height)
    case None => None
    case Some(s') => if |undo| != |tx.inputs| then None else RestoreInputs(s', tx.inputs, undo)
  }

  /** Takes back the transactions, the last one first; the first has no inputs to restore. */
  function DisconnectTxs(s: CoinSet, txs: seq<Tx>, height: nat, undo: BlockUndo): Option<CoinSet>
    requires |txs| == |undo| + 1
    decreases |undo|
  {
    if undo == [] then
      RemoveOutputs(s, txs[0], height)
    else
      var k := |undo| - 1;
      match DisconnectTx(s, txs[k + 1], height, undo[k])
      case None => None
      case Some(s') => DisconnectTxs(s', txs[..k + 1], height, undo[..k])
  }

  /** None when the undo data is inconsistent with the block or the coin set. */
  function Disconnect(s: CoinSet, b: Block, height: nat, undo: BlockUndo): Option<CoinSet> {
    if |undo| + 1 != |b.txs| then None else DisconnectTxs(s, b.txs, height, undo)
  }

  // ---------- disconnecting undoes connecting ----------

  lemma CoinsOfIsTidy(tx: Tx, height: nat)
    requires CheckTransaction(tx) && height > 0
    ensures CoinsOf(tx, height).IsTidy() && CoinsOf(tx, height).outputs != []
  {
  }

  /** Taking back the outputs just added to a coin set that had none by that name. */
  lemma RemoveAfterAdd(s: CoinSet, tx: Tx, height: nat)
    requires ValidSet(s) && CheckTransaction(tx) && height > 0 && tx.hash !in s
    ensures ValidSet(s[tx.hash := CoinsOf(tx, height)])
    ensures RemoveOutputs(s[tx.hash := CoinsOf(tx, height)], tx, height) == Some(s)
  {
    CoinsOfIsTidy(tx, height);
    assert s[tx.hash := CoinsOf(tx, height)] - {tx.hash} == s;
  }

  /** Connecting one transaction keeps the coin set valid, and its undo data takes it back. */
  lemma ConnectTxFacts(c: Connected, tx: Tx, height: nat)
    requires ValidSet(c.coins) && CheckTransaction(tx) && height > 0
    requires tx.hash !in c.coins
    requires ConnectTx(c, tx, height).Some?
    ensures var c' := ConnectTx(c, tx, height).value;
            && ValidSet(c'.coins)
            && (tx.IsCoinBase() ==> c'.undo == c.undo && RemoveOutputs(c'.coins, tx, height) == Some(c.coins))
            && (!tx.IsCoinBase() ==>
                  && |c'.undo| == |c.undo| + 1
                  && c'.undo[..|c.undo|] == c.undo
                  && DisconnectTx(c'.coins, tx, height, c'.undo[|c.undo|]) == Some(c.coins))
  {
    hide ValidSet, RemoveOutputs, SumValues, ValueIn, RestoreInputs;
    if tx.IsCoinBase() {
      RemoveAfterAdd(c.coins, tx, height);
    } else {
      RestoreAfterSpendInputs(c.coins, tx.inputs);
      RemoveAfterAdd(SpendInputs(c.coins, tx.inputs).0, tx, height);
    }
  }

  /** Connecting adds no entry but those of the transactions connected. */
  lemma {:induction false} ConnectTxsKeys(s: CoinSet, txs: seq<Tx>, height: nat, id: TxId)
    requires ChecksOut(txs) && ConnectTxs(s, txs, height).Some?
    requires id !in s && forall i :: 0 <= i < |txs| ==> txs[i].hash != id
    ensures id !in ConnectTxs(s, txs, height).value.coins
  {
    if txs != [] {
      ConnectTxsKeys(s, txs[..|txs| - 1], height, id);
    }
  }

  ghost predicate CoinBaseFirst(txs: seq<Tx>) {
    txs != [] && txs[0].IsCoinBase() && forall i :: 0 < i < |txs| ==> !txs[i].IsCoinBase()
  }

  lemma {:induction false} DisconnectTxsAfterConnectTxs(s: CoinSet, txs: seq<Tx>, height: nat)
    requires ValidSet(s) && height > 0
    requires CoinBaseFirst(txs) && ChecksOut(txs) && DistinctIds(txs) && NoOverwrite(s, txs)
    requires ConnectTxs(s, txs, height).Some?
    ensures var c := ConnectTxs(s, txs, height).value;
            && ValidSet(c.coins)
            && |c.undo| + 1 == |txs|
            && DisconnectTxs(c.coins, txs, height, c.undo) == Some(s)
  {
    var k := |txs| - 1;
    var front, last := txs[..k], txs[k];
    var c := ConnectTxs(s, front, height).value;
    assert CheckTransaction(last) && last.hash !in s;
    ConnectTxsKeys(s, front, height, last.hash);
    if k == 0 {
      assert front == [] && c == Connected(s, [], 0, 0, 0);
      ConnectTxFacts(c, last, height);
    } else {
      DisconnectTxsAfterConnectTxs(s, front, height);
      ConnectTxFacts(c, last, height);
      assert ConnectTxs(s, txs, height) == ConnectTx(c, last, height);
    }
  }

  /**
   Disconnecting a block with the undo data as it was when the block was connected, before it
   was written, restores the coin set, with heights, versions and coinbase flags, whatever the
   block spends of itself.
   */
  lemma DisconnectAfterConnect(s: CoinSet, b: Block, height: nat, verified: bool)
    requires ValidSet(s) && height > 0
    requires Connect(s, b, height, verified).Some?
    ensures var c := Connect(s, b, height, verified).value;
            ValidSet(c.coins) && Disconnect(c.coins, b, height, c.undo) == Some(s)
  {
    DisconnectTxsAfterConnectTxs(s, b.txs, height);
  }

  // ---------- recorded undo data ----------

  ghost predicate NoNullUndo(undo: BlockUndo) {
    forall i, j :: 0 <= i < |undo| && 0 <= j < |undo[i]| ==> !undo[i][j].output.IsNull()
  }

  lemma UndoOfConnect(s: CoinSet, b: Block, height: nat)
    requires Connect(s, b, height, true).Some?
    ensures NoNullUndo(Connect(s, b, height, true).value.undo)
  {
    UndoOfConnectTxs(s, b.txs, height);
  }

  lemma {:induction false} UndoOfConnectTxs(s: CoinSet, txs: seq<Tx>, height: nat)
    requires ChecksOut(txs) && ConnectTxs(s, txs, height).Some?
    ensures NoNullUndo(ConnectTxs(s, txs, height).value.undo)
  {
    if txs != [] {
      UndoOfConnectTxs(s, txs[..|txs| - 1], height);
      var c := ConnectTxs(s, txs[..|txs| - 1], height).value;
      var last := txs[|txs| - 1];
      if !last.IsCoinBase() {
        UndoOfSpend(c.coins, last.inputs);
      }
    }
  }

  lemma {:induction false} UndoOfSpend(s: CoinSet, inputs: seq<OutPoint>)
    requires HaveInputs(s, inputs) && Distinct(inputs)
    ensures forall j :: 0 <= j < |inputs| ==> !SpendInputs(s, inputs).1[j].output.IsNull()
  {
    if inputs != [] {
      var k := |inputs| - 1;
      UndoOfSpend(s, inputs[..k]);
      assert Available(SpendInputs(s, inputs[..k]).0, inputs[k]);
    }
  }
}
