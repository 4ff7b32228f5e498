/**
 Coins and undo data that have been on disk. The serialized form loses negative versions, so
 what a block restores when it is disconnected is the coin set it was connected to, but for
 those versions; and every rule for connecting and disconnecting blocks bears with that.
 */
module Stored {
  import opened Common
  import opened Amounts
  import opened Coins
  import opened Blocks
  import Target

  function StoredRecords(records: seq<TxInUndo>): (r: seq<TxInUndo>)
    ensures |r| == |records|
  {
    seq(|records|, j requires 0 <= j < |records| => StoredRecord(records[j]))
  }

  function StoredUndo(undo: BlockUndo): (r: BlockUndo)
    ensures |r| == |undo|
  {
    seq(|undo|, i requires 0 <= i < |undo| => StoredRecords(undo[i]))
  }

  /** The coins of s', but negative versions may have been lost on the way. */
  ghost predicate Fades(s: CoinSet, s': CoinSet) {
    s.Keys == s'.Keys && forall id :: id in s ==> CoinsFade(s[id], s'[id])
  }

  predicate CoinsFade(c: Coins, c': Coins) {
    c' == c || c' == StoredCoins(c)
  }

  lemma FadesRefl(s: CoinSet)
    ensures Fades(s, s)
  {
  }

  lemma FadesTrans(a: CoinSet, b: CoinSet, c: CoinSet)
    requires Fades(a, b) && Fades(b, c)
    ensures Fades(a, c)
  {
    forall id | id in a ensures CoinsFade(a[id], c[id]) {
      assert CoinsFade(a[id], b[id]) && CoinsFade(b[id], c[id]);
    }
  }

  lemma NothingToLose(s: CoinSet, s': CoinSet)
    requires Fades(s, s') && forall id :: id in s ==> s[id].version >= 0
    ensures s == s'
  {
    assert forall id :: id in s ==> CoinsFade(s[id], s'[id]);
  }

  // ---------- connecting does not look at versions ----------

  lemma AvailableFades(s: CoinSet, s': CoinSet, out: OutPoint)
    requires Fades(s, s')
    ensures Available(s, out) <==> Available(s', out)
    ensures Available(s, out) ==> CoinsFade(s[out.hash], s'[out.hash])
  {
  }

  lemma SpendInputFades(s: CoinSet, s': CoinSet, out: OutPoint)
    requires Fades(s, s') && Available(s, out)
    ensures Available(s', out)
    ensures Fades(SpendInput(s, out).0, SpendInput(s', out).0)
    ensures StoredRecord(SpendInput(s, out).1) == StoredRecord(SpendInput(s', out).1)
  {
    AvailableFades(s, s', out);
    var (c, u) := SpendOutput(s[out.hash], out.n);
    var (c', u') := SpendOutput(s'[out.hash], out.n);
    assert CoinsFade(c, c');
    var r, r' := Store(s, out.hash, c), Store(s', out.hash, c');
    forall id | id in r ensures CoinsFade(r[id], r'[id]) {
      assert id != out.hash ==> CoinsFade(s[id], s'[id]);
    }
  }

  lemma {:induction false} SpendInputsFade(s: CoinSet, s': CoinSet, inputs: seq<OutPoint>)
    requires Fades(s, s') && HaveInputs(s, inputs) && Distinct(inputs)
    ensures HaveInputs(s', inputs)
    ensures Fades(SpendInputs(s, inputs).0, SpendInputs(s', inputs).0)
    ensures StoredRecords(SpendInputs(s, inputs).1) == StoredRecords(SpendInputs(s', inputs).1)
  {
    if inputs != [] {
      var k := |inputs| - 1;
      SpendInputsFade(s, s', inputs[..k]);
      AvailableFades(s, s', inputs[k]);
      assert inputs[k] !in inputs[..k];
      var (r, undo) := SpendInputs(s, inputs[..k]);
      var (r', undo') := SpendInputs(s', inputs[..k]);
      SpendInputFades(r, r', inputs[k]);
      StoredRecordsLonger(undo, SpendInput(r, inputs[k]).1);
      StoredRecordsLonger(undo', SpendInput(r', inputs[k]).1);
      HaveInputsLonger(s', inputs);
    }
  }

  lemma HaveInputsLonger(s: CoinSet, inputs: seq<OutPoint>)
    requires inputs != [] && HaveInputs(s, inputs[..|inputs| - 1]) && Available(s, inputs[|inputs| - 1])
    ensures HaveInputs(s, inputs)
  {
    forall i | 0 <= i < |inputs| ensures Available(s, inputs[i]) {
      assert i < |inputs| - 1 ==> Available(s, inputs[..|inputs| - 1][i]);
    }
  }

  lemma StoredRecordsLonger(records: seq<TxInUndo>, u: TxInUndo)
    ensures StoredRecords(records + [u]) == StoredRecords(records) + [StoredRecord(u)]
  {
  }

  lemma StoredUndoLonger(undo: BlockUndo, records: seq<TxInUndo>)
    ensures StoredUndo(undo + [records]) == StoredUndo(undo) + [StoredRecords(records)]
  {
  }

  lemma {:induction false} ValueInFades(s: CoinSet, s': CoinSet, inputs: seq<OutPoint>)
    requires Fades(s, s') && HaveInputs(s, inputs) && HaveInputs(s', inputs)
    ensures ValueIn(s, inputs) == ValueIn(s', inputs)
  {
    if inputs != [] {
      ValueInFades(s, s', inputs[..|inputs| - 1]);
      AvailableFades(s, s', inputs[|inputs| - 1]);
    }
  }

  lemma CheckInputsFades(s: CoinSet, s': CoinSet, tx: Tx, height: nat)
    requires Fades(s, s')
    ensures HaveInputs(s, tx.inputs) <==> HaveInputs(s', tx.inputs)
    ensures CheckInputs(s, tx, height) <==> CheckInputs(s', tx, height)
  {
    hide ValueIn, SumValues, Tx.MinFee;
    forall i | 0 <= i < |tx.inputs|
      ensures Available(s, tx.inputs[i]) <==> Available(s', tx.inputs[i])
      ensures Available(s, tx.inputs[i]) ==> CoinsFade(s[tx.inputs[i].hash], s'[tx.inputs[i].hash])
    {
      AvailableFades(s, s', tx.inputs[i]);
    }
    assert HaveInputs(s, tx.inputs) <==> HaveInputs(s', tx.inputs);
    if HaveInputs(s, tx.inputs) {
      ValueInFades(s, s', tx.inputs);
    }
  }

  /** The same but for negative versions. */
  ghost predicate ConnectedFades(c: Connected, c': Connected) {
    && Fades(c.coins, c'.coins)
    && StoredUndo(c.undo) == StoredUndo(c'.undo)
    && (c.valueIn, c.valueOut, c.fees) == (c'.valueIn, c'.valueOut, c'.fees)
  }

  lemma ConnectTxFades(c: Connected, c': Connected, tx: Tx, height: nat)
    requires ConnectedFades(c, c') && Distinct(tx.inputs)
    ensures ConnectTx(c, tx, height).Some? == ConnectTx(c', tx, height).Some?
    ensures ConnectTx(c, tx, height).Some? ==>
              ConnectedFades(ConnectTx(c, tx, height).value, ConnectTx(c', tx, height).value)
  {
    hide SumValues, ValueIn, CheckInputs, StoredUndo, Fades, HaveInputs, CoinsOf;
    CheckInputsFades(c.coins, c'.coins, tx, height);
    if tx.IsCoinBase() {
      SetFades(c.coins, c'.coins, tx.hash, CoinsOf(tx, height));
    } else if CheckInputs(c.coins, tx, height) {
      ConnectSpendFades(c, c', tx, height);
    }
  }

  lemma ConnectSpendFades(c: Connected, c': Connected, tx: Tx, height: nat)
    requires ConnectedFades(c, c') && Distinct(tx.inputs) && !tx.IsCoinBase()
    requires CheckInputs(c.coins, tx, height) && CheckInputs(c'.coins, tx, height)
    ensures ConnectedFades(ConnectTx(c, tx, height).value, ConnectTx(c', tx, height).value)
  {
    hide SumValues, ValueIn, CheckInputs, StoredUndo, StoredRecords, Fades, HaveInputs, CoinsOf, SpendInputs, Distinct;
    CheckedHaveInputs(c.coins, tx, height);
    SpendInputsFade(c.coins, c'.coins, tx.inputs);
    var (s, undo) := SpendInputs(c.coins, tx.inputs);
    var (s', undo') := SpendInputs(c'.coins, tx.inputs);
    ValueInFades(c.coins, c'.coins, tx.inputs);
    StoredUndoLonger(c.undo, undo);
    StoredUndoLonger(c'.undo, undo');
    SetFades(s, s', tx.hash, CoinsOf(tx, height));
  }

  lemma SetFades(s: CoinSet, s': CoinSet, id: TxId, c: Coins)
    requires Fades(s, s')
    ensures Fades(s[id := c], s'[id := c])
  {
  }

  lemma CheckedHaveInputs(s: CoinSet, tx: Tx, height: nat)
    requires CheckInputs(s, tx, height)
    ensures HaveInputs(s, tx.inputs)
  {
  }

  lemma {:induction false} ConnectTxsFade(s: CoinSet, s': CoinSet, txs: seq<Tx>, height: nat)
    requires Fades(s, s') && ChecksOut(txs)
    ensures ConnectTxs(s, txs, height).Some? == ConnectTxs(s', txs, height).Some?
    ensures ConnectTxs(s, txs, height).Some? ==>
              ConnectedFades(ConnectTxs(s, txs, height).value, ConnectTxs(s', txs, height).value)
  {
    if txs != [] {
      var k := |txs| - 1;
      ConnectTxsFade(s, s', txs[..k], height);
      if ConnectTxs(s, txs[..k], height).Some? {
        ConnectTxFades(ConnectTxs(s, txs[..k], height).value, ConnectTxs(s', txs[..k], height).value, txs[k], height);
      }
    }
  }

  /**
   Whether a block may be connected, the undo data written for it and the money it moves do
   not depend on versions lost before; and the coin sets that result differ by no more.
   */
  lemma ConnectFades(s: CoinSet, s': CoinSet, b: Block, height: nat, verified: bool)
    requires Fades(s, s')
    ensures Connect(s, b, height, verified).Some? == Connect(s', b, height, verified).Some?
    ensures Connect(s, b, height, verified).Some? ==>
              ConnectedFades(Connect(s, b, height, verified).value, Connect(s', b, height, verified).value)
    ensures ConnectChecked(s, b, height).Some? == ConnectChecked(s', b, height).Some?
    ensures ConnectChecked(s, b, height).Some? ==>
              ConnectedFades(ConnectChecked(s, b, height).value, ConnectChecked(s', b, height).value)
  {
    if CheckBlock(b) {
      ConnectTxsFade(s, s', b.txs, height);
    }
  }

  // ---------- disconnecting with undo data that was on disk ----------

  /** The coins of s with the versions they have in a, and those that a lacks as the disk returns them. */
  function Restored(s: CoinSet, a: CoinSet): CoinSet {
    map id | id in s :: s[id].(version := if id in a then a[id].version else StoredVersion(s[id].version))
  }

  /** Nothing is lost exactly when a lost nothing and the coins it lacks had no negative version. */
  lemma RestoredIsExact(s: CoinSet, a: CoinSet)
    ensures Restored(s, a) == s
            <==> forall id :: id in s ==> if id in a then a[id].version == s[id].version else s[id].version >= 0
  {
    var r := Restored(s, a);
    if r == s {
      assert forall id :: id in s ==> r[id].version == s[id].version;
    }
  }

  lemma RestoredFades(s: CoinSet, a: CoinSet)
    requires forall id :: id in s && id in a ==> a[id].version == s[id].version || a[id].version == StoredVersion(s[id].version)
    ensures Fades(s, Restored(s, a))
  {
  }

  /** Going back in two steps. */
  lemma RestoredTwice(s: CoinSet, s1: CoinSet, a: CoinSet)
    requires forall id :: id in s && id in s1 ==> s1[id].version == s[id].version
    requires forall id :: id in s && id in a ==> id in s1
    ensures Restored(s, Restored(s1, a)) == Restored(s, a)
  {
  }

  lemma SpendInputVersions(s: CoinSet, out: OutPoint)
    requires Available(s, out)
    ensures var s' := SpendInput(s, out).0; forall id :: id in s' ==> id in s && s'[id].version == s[id].version
  {
  }

  lemma {:induction false} SpendInputsVersions(s: CoinSet, inputs: seq<OutPoint>)
    requires HaveInputs(s, inputs) && Distinct(inputs)
    ensures var s' := SpendInputs(s, inputs).0; forall id :: id in s' ==> id in s && s'[id].version == s[id].version
  {
    if inputs != [] {
      var k := |inputs| - 1;
      SpendInputsVersions(s, inputs[..k]);
      assert inputs[k] !in inputs[..k];
      SpendInputVersions(SpendInputs(s, inputs[..k]).0, inputs[k]);
    }
  }

  lemma RestoreStoredInput(s: CoinSet, out: OutPoint, a: CoinSet)
    requires ValidSet(s) && Available(s, out) && Fades(SpendInput(s, out).0, a)
    ensures RestoreInput(a, out, StoredRecord(SpendInput(s, out).1)) == Some(Restored(s, a))
    ensures Fades(s, Restored(s, a))
  {
    SpentFades(s, out, a);
    RestoredFades(s, a);
    RestoreStoredOutput(s[out.hash], out.n, if out.hash in a then a[out.hash] else NO_COINS);
    hide ValidSet, RestoreOutput, StoredRecord, SpendOutput;
    var found := if out.hash in a then a[out.hash] else NO_COINS;
    var r := RestoreOutput(found, out.n, StoredRecord(SpendInput(s, out).1)).0;
    assert a[out.hash := r] == Restored(s, a);
  }

  /** What is left of each entry after a spend, in a coin set that lost versions. */
  lemma SpentFades(s: CoinSet, out: OutPoint, a: CoinSet)
    requires ValidSet(s) && Available(s, out) && Fades(SpendInput(s, out).0, a)
    ensures a.Keys + {out.hash} == s.Keys
    ensures forall id :: id in a ==>
              a[id].version == s[id].version || a[id].version == StoredVersion(s[id].version)
    ensures forall id :: id in a && id != out.hash ==> a[id] == s[id].(version := a[id].version)
    ensures s[out.hash].IsTidy()
    ensures var found := if out.hash in a then a[out.hash] else NO_COINS;
            var left := SpendOutput(s[out.hash], out.n).0;
            found.outputs == left.outputs && (out.hash in a ==> found == left.(version := found.version))
    ensures (out.hash in a) == (SpendOutput(s[out.hash], out.n).0.outputs != [])
  {
    var spent := SpendInput(s, out).0;
    forall id | id in a
      ensures CoinsFade(spent[id], a[id])
    {
      assert id in spent;
    }
  }

  lemma RestoreStoredOutput(c: Coins, n: nat, found: Coins)
    requires c.IsTidy() && c.IsAvailable(n)
    requires var left := SpendOutput(c, n).0;
             found.outputs == left.outputs && (left.outputs != [] ==> found == left.(version := found.version))
    ensures var (left, undo) := SpendOutput(c, n);
            RestoreOutput(found, n, StoredRecord(undo))
            == (c.(version := if left.outputs != [] then found.version else StoredVersion(c.version)), true)
  {
    var (left, undo) := SpendOutput(c, n);
    RestoreAfterSpend(c, n);
    hide Trim, PutOutput;
    RestoreOutputVersion(left, found, n, undo);
  }

  lemma RestoreOutputVersion(c: Coins, c': Coins, n: nat, undo: TxInUndo)
    requires c'.outputs == c.outputs && (undo.height == 0 ==> c' == c.(version := c'.version))
    ensures var (r, clean) := RestoreOutput(c, n, undo);
            RestoreOutput(c', n, StoredRecord(undo))
            == (r.(version := if undo.height == 0 then c'.version else StoredVersion(r.version)), clean)
  {
  }

  lemma {:induction false} RestoreStoredInputs(s: CoinSet, inputs: seq<OutPoint>, a: CoinSet)
    requires ValidSet(s) && HaveInputs(s, inputs) && Distinct(inputs) && Fades(SpendInputs(s, inputs).0, a)
    ensures RestoreInputs(a, inputs, StoredRecords(SpendInputs(s, inputs).1)) == Some(Restored(s, a))
    ensures Fades(s, Restored(s, a))
    decreases |inputs|
  {
    if inputs == [] {
      assert forall id :: id in s ==> CoinsFade(s[id], a[id]);
      assert Restored(s, a) == a;
    } else {
      var k := |inputs| - 1;
      assert inputs[k] !in inputs[..k];
      var (s1, undo) := SpendInputs(s, inputs[..k]);
      var u := SpendInput(s1, inputs[k]).1;
      RestoreAfterSpendInputs(s, inputs[..k]);
      RestoreStoredInput(s1, inputs[k], a);
      RestoreStoredInputs(s, inputs[..k], Restored(s1, a));
      SpendInputsVersions(s, inputs[..k]);
      SpendInputVersions(s1, inputs[k]);
      RestoredTwice(s, s1, a);
      StoredRecordsLonger(undo, u);
    }
  }

  /** Removing outputs works whether or not a negative version was lost. */
  lemma RemoveFaded(s: CoinSet, tx: Tx, height: nat, a: CoinSet)
    requires tx.hash !in s && Fades(s[tx.hash := CoinsOf(tx, height)], a)
    ensures RemoveOutputs(a, tx, height) == Some(a - {tx.hash})
    ensures Fades(s, a - {tx.hash})
  {
    var s' := s[tx.hash := CoinsOf(tx, height)];
    assert CoinsFade(s'[tx.hash], a[tx.hash]);
    assert forall id :: id in s ==> CoinsFade(s'[id], a[id]);
  }

  lemma DisconnectStoredTx(c: Connected, tx: Tx, height: nat, a: CoinSet)
    requires ValidSet(c.coins) && Distinct(tx.inputs) && tx.hash !in c.coins && ConnectTx(c, tx, height).Some?
    requires Fades(ConnectTx(c, tx, height).value.coins, a)
    ensures Fades(c.coins, Restored(c.coins, a))
    ensures tx.IsCoinBase() ==> RemoveOutputs(a, tx, height) == Some(Restored(c.coins, a))
    ensures !tx.IsCoinBase() ==>
              var undo := ConnectTx(c, tx, height).value.undo;
              && |undo| == |c.undo| + 1 && undo[..|c.undo|] == c.undo
              && DisconnectTx(a, tx, height, StoredRecords(undo[|c.undo|])) == Some(Restored(c.coins, a))
  {
    hide RemoveOutputs, RestoreInputs, SumValues, ValueIn, ValidSet, StoredRecords, CoinsOf;
    var rest := a - {tx.hash};
    assert Restored(c.coins, a) == Restored(c.coins, rest);
    if tx.IsCoinBase() {
      RemoveFaded(c.coins, tx, height, a);
      RestoreStoredInputsNone(c.coins, rest);
    } else {
      CheckedHaveInputs(c.coins, tx, height);
      var (spent, undo) := SpendInputs(c.coins, tx.inputs);
      RemoveFaded(spent, tx, height, a);
      RestoreStoredInputs(c.coins, tx.inputs, rest);
    }
  }

  lemma RestoreStoredInputsNone(s: CoinSet, a: CoinSet)
    requires Fades(s, a)
    ensures Restored(s, a) == a && Fades(s, Restored(s, a))
  {
    assert forall id :: id in s ==> CoinsFade(s[id], a[id]);
  }

  /** Connecting transactions changes no version. */
  lemma {:induction false} ConnectTxsVersions(s: CoinSet, txs: seq<Tx>, height: nat)
    requires ChecksOut(txs) && NoOverwrite(s, txs) && ConnectTxs(s, txs, height).Some?
    ensures var c := ConnectTxs(s, txs, height).value.coins;
            forall id :: id in s && id in c ==> c[id].version == s[id].version
  {
    if txs != [] {
      var k := |txs| - 1;
      ConnectTxsVersions(s, txs[..k], height);
      ConnectTxVersions(ConnectTxs(s, txs[..k], height).value, txs[k], height);
    }
  }

  lemma ConnectTxVersions(c: Connected, tx: Tx, height: nat)
    requires Distinct(tx.inputs) && ConnectTx(c, tx, height).Some?
    ensures var c' := ConnectTx(c, tx, height).value.coins;
            forall id :: id in c' && id != tx.hash ==> id in c.coins && c'[id].version == c.coins[id].version
  {
    hide SumValues, ValueIn, CheckInputs;
    if !tx.IsCoinBase() {
      CheckedHaveInputs(c.coins, tx, height);
      SpendInputsVersions(c.coins, tx.inputs);
    }
  }

  lemma {:induction false} DisconnectStoredTxs(s: CoinSet, txs: seq<Tx>, height: nat, a: CoinSet)
    requires ValidSet(s) && height > 0
    requires CoinBaseFirst(txs) && ChecksOut(txs) && DistinctIds(txs) && NoOverwrite(s, txs)
    requires ConnectTxs(s, txs, height).Some? && Fades(ConnectTxs(s, txs, height).value.coins, a)
    ensures var undo := ConnectTxs(s, txs, height).value.undo;
            |undo| + 1 == |txs| && DisconnectTxs(a, txs, height, StoredUndo(undo)) == Some(Restored(s, a))
    ensures Fades(s, Restored(s, a))
    decreases |txs|
  {
    hide RemoveOutputs, SumValues, ValidSet, Restored, ConnectTx, DisconnectTx, DisconnectTxs, StoredUndo, StoredRecords, Fades, Tx.IsCoinBase;
    var k := |txs| - 1;
    var front, last := txs[..k], txs[k];
    var c := ConnectTxs(s, front, height).value;
    assert CheckTransaction(last) && last.hash !in s;
    ConnectTxsKeys(s, front, height, last.hash);
    if k == 0 {
      assert front == [] && c == Connected(s, [], 0, 0, 0);
      DisconnectStoredTx(c, last, height, a);
      ConnectCoinBaseUndo(c, last, height);
      assert StoredUndo(c.undo) == [];
      DisconnectCoinBase(a, txs, height);
    } else {
      DisconnectTxsAfterConnectTxs(s, front, height);
      DisconnectStoredTx(c, last, height, a);
      DisconnectStoredTxs(s, front, height, Restored(c.coins, a));
      RestoredBefore(s, front, last, height, a);
      var records := ConnectTx(c, last, height).value.undo[|c.undo|];
      StoredUndoLonger(c.undo, records);
      assert ConnectTx(c, last, height).value.undo == c.undo + [records];
      DisconnectTxsStep(a, txs, height, StoredUndo(c.undo), StoredRecords(records));
    }
  }

  lemma DisconnectCoinBase(a: CoinSet, txs: seq<Tx>, height: nat)
    requires |txs| == 1
    ensures DisconnectTxs(a, txs, height, []) == RemoveOutputs(a, txs[0], height)
  {
  }

  lemma DisconnectTxsStep(a: CoinSet, txs: seq<Tx>, height: nat, undo: BlockUndo, records: seq<TxInUndo>)
    requires |txs| == |undo| + 2
    ensures DisconnectTxs(a, txs, height, undo + [records]) ==
            match DisconnectTx(a, txs[|undo| + 1], height, records)
            case None => None
            case Some(m) => DisconnectTxs(m, txs[..|undo| + 1], height, undo)
  {
    assert (undo + [records])[..|undo|] == undo;
  }

  lemma ConnectCoinBaseUndo(c: Connected, tx: Tx, height: nat)
    requires Distinct(tx.inputs) && tx.IsCoinBase()
    ensures ConnectTx(c, tx, height).Some? && ConnectTx(c, tx, height).value.undo == c.undo
  {
  }

  /** Taking one transaction back and then those before it. */
  lemma RestoredBefore(s: CoinSet, front: seq<Tx>, last: Tx, height: nat, a: CoinSet)
    requires ChecksOut(front) && NoOverwrite(s, front) && ConnectTxs(s, front, height).Some?
    requires Distinct(last.inputs) && last.hash !in s
    requires var c := ConnectTxs(s, front, height).value;
             ConnectTx(c, last, height).Some? && Fades(ConnectTx(c, last, height).value.coins, a)
    ensures Restored(s, Restored(ConnectTxs(s, front, height).value.coins, a)) == Restored(s, a)
  {
    hide ConnectTxs, ConnectTx;
    var c := ConnectTxs(s, front, height).value;
    ConnectTxsVersions(s, front, height);
    ConnectTxVersions(c, last, height);
    assert forall id :: id in a <==> id in ConnectTx(c, last, height).value.coins;
    RestoredTwice(s, c.coins, a);
  }

  /**
   With the undo data that was written when it was connected, a block can always be
   disconnected, from any coin set that lost no more than negative versions. The coins it used
   up come back as the disk returns them, all others with the versions they had.
   */
  lemma DisconnectStored(s: CoinSet, b: Block, height: nat, verified: bool, a: CoinSet)
    requires ValidSet(s) && height > 0
    requires Connect(s, b, height, verified).Some? && Fades(Connect(s, b, height, verified).value.coins, a)
    ensures Disconnect(a, b, height, StoredUndo(Connect(s, b, height, verified).value.undo)) == Some(Restored(s, a))
    ensures Fades(s, Restored(s, a))
  {
    DisconnectStoredTxs(s, b.txs, height, a);
  }

  /** The coin set is restored exactly when the block used up no coins of a negative version. */
  lemma RestoredExactlyWhen(s: CoinSet, b: Block, height: nat, verified: bool)
    requires ValidSet(s) && height > 0 && Connect(s, b, height, verified).Some?
    ensures var c := Connect(s, b, height, verified).value;
            Disconnect(c.coins, b, height, StoredUndo(c.undo)) == Some(s)
            <==> forall id :: id in s && id !in c.coins ==> s[id].version >= 0
  {
    hide Connect, Disconnect;
    var c := Connect(s, b, height, verified).value;
    DisconnectStored(s, b, height, verified, c.coins);
    ConnectVersions(s, b, height, verified);
    RestoredIsExact(s, c.coins);
  }

  lemma ConnectVersions(s: CoinSet, b: Block, height: nat, verified: bool)
    requires Connect(s, b, height, verified).Some?
    ensures var c := Connect(s, b, height, verified).value.coins;
            forall id :: id in s && id in c ==> c[id].version == s[id].version
  {
    ConnectTxsVersions(s, b.txs, height);
  }

  // ---------- a block that is not restored ----------

  /** A coin set with one output, of a transaction of version -1. */
  const BEFORE: CoinSet := map[7 := Coins(false, [TxOut(10 * CENT, [])], 5, -1)]

  const SPENDER := Tx(2, 1, [OutPoint(7, 0)], [TxOut(CENT, [])], 200)

  /** A block that spends that output. */
  const SPENDING := Block([Tx(1, 1, [NULL_PREVOUT], [TxOut(CENT, [])], 100), SPENDER], 0)

  lemma SpendingCounts()
    ensures ValidSet(BEFORE) && CheckBlock(SPENDING)
    ensures Connect(BEFORE, SPENDING, 6, true).Some?
    ensures 7 !in Connect(BEFORE, SPENDING, 6, true).value.coins
  {
    hide Target.Mint;
    var coinBase := SPENDING.txs[0];
    assert SumValues([TxOut(CENT, [])]) == CENT;
    var c0 := Connected(BEFORE, [], 0, 0, 0);
    assert SPENDING.txs[..1] == [coinBase] && SPENDING.txs[..0] == [];
    assert ConnectTxs(BEFORE, [], 6) == Some(c0);
    assert ConnectTxs(BEFORE, [coinBase], 6) == ConnectTx(c0, coinBase, 6);
    var c1 := ConnectTx(c0, coinBase, 6).value;
    assert ConnectTxs(BEFORE, SPENDING.txs, 6) == ConnectTx(c1, SPENDER, 6);
    assert ValueIn(c1.coins, SPENDER.inputs) == 10 * CENT;
    SpendsLast(c1.coins);
  }

  lemma SpendsLast(s: CoinSet)
    requires 7 in s && s[7] == BEFORE[7]
    ensures HaveInputs(s, SPENDER.inputs) && 7 !in SpendInputs(s, SPENDER.inputs).0
  {
    var spent := s[7].outputs[0 := NULL_OUT];
    assert spent[..0] == [] && Trim(spent) == [];
    assert SPENDER.inputs[..0] == [];
    assert SpendInputs(s, []) == (s, []);
  }

  /** Connected and disconnected again, the block leaves version 127 behind. */
  lemma VersionLost()
    ensures Connect(BEFORE, SPENDING, 6, true).Some?
    ensures var c := Connect(BEFORE, SPENDING, 6, true).value;
            var back := Disconnect(c.coins, SPENDING, 6, StoredUndo(c.undo));
            back.Some? && back.value != BEFORE && back.value == map[7 := BEFORE[7].(version := 127)]
  {
    hide Connect, Disconnect, StoredUndo;
    SpendingCounts();
    DisconnectStored(BEFORE, SPENDING, 6, true, Connect(BEFORE, SPENDING, 6, true).value.coins);
  }
}
