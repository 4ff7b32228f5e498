/**
 The unspent coins of transactions: how an output is spent and put back, how a block is
 applied to the coin set, and how the undo data recorded on the way takes it back again.

 Everything here is a function on values. Module CoinsView holds the code that does the
 same in place on a layered cache, and is proved against these functions.
 */
module Coins {
  import opened Common
  import opened Amounts

  /** A 256-bit transaction hash. Which transaction has which hash is left open. */
  type TxId = nat

  const MIN_TX_FEE: int := CENT
  const MIN_TXOUT_AMOUNT: int := MIN_TX_FEE
  const COINBASE_MATURITY: nat := 3000

  datatype TxOut = TxOut(value: int, script: seq<Byte>) {
    /** A spent or absent output; only the value tells. */
    predicate IsNull() {
      value == -1
    }
  }

  const NULL_OUT := TxOut(-1, [])

  datatype OutPoint = OutPoint(hash: TxId, n: nat)

  const NULL_PREVOUT := OutPoint(0, 0xFFFF_FFFF)

  /** `size` is the serialized size in bytes, which only the fee rule looks at. */
  datatype Tx = Tx(hash: TxId, version: int, inputs: seq<OutPoint>, outputs: seq<TxOut>, size: nat) {
    predicate IsCoinBase() {
      |inputs| == 1 && inputs[0] == NULL_PREVOUT
    }

    function ValueOut(): int {
      SumValues(outputs)
    }

    /** The fee a transaction must pay to enter a block. */
    function MinFee(): int {
      var fee := (1 + size / 1000) * MIN_TX_FEE;
      if MoneyRange(fee) then fee else MAX_MONEY
    }
  }

  function SumValues(outputs: seq<TxOut>): int {
    if outputs == [] then 0 else SumValues(outputs[..|outputs| - 1]) + outputs[|outputs| - 1].value
  }

  // ---------- the coins of one transaction ----------

  datatype Coins = Coins(isCoinBase: bool, outputs: seq<TxOut>, height: nat, version: int) {
    predicate IsAvailable(n: nat) {
      n < |outputs| && !outputs[n].IsNull()
    }

    predicate IsPruned() {
      forall i :: 0 <= i < |outputs| ==> outputs[i].IsNull()
    }

    /** No spent output at the end, spent outputs blanked, and a height that undo data can carry. */
    predicate IsTidy() {
      && (forall i :: 0 <= i < |outputs| && outputs[i].IsNull() ==> outputs[i] == NULL_OUT)
      && (outputs != [] ==> !outputs[|outputs| - 1].IsNull() && height > 0)
    }
  }

  const NO_COINS := Coins(false, [], 0, 0)

  /** What one input leaves behind: the output it spent and, with the last output, the metadata. */
  datatype TxInUndo = TxInUndo(output: TxOut, isCoinBase: bool, height: nat, version: int)

  function CoinsOf(tx: Tx, height: nat): Coins {
    Coins(tx.IsCoinBase(), tx.outputs, height, tx.version)
  }

  /** The outputs without the spent ones at the end. */
  function Trim(outputs: seq<TxOut>): (r: seq<TxOut>)
    ensures r <= outputs
    ensures r != [] ==> !r[|r| - 1].IsNull()
    ensures forall i :: |r| <= i < |outputs| ==> outputs[i].IsNull()
  {
    if outputs == [] || !outputs[|outputs| - 1].IsNull() then outputs else Trim(outputs[..|outputs| - 1])
  }

  function SpendOutput(c: Coins, n: nat): (Coins, TxInUndo)
    requires c.IsAvailable(n)
  {
    var left := Trim(c.outputs[n := NULL_OUT]);
    (c.(outputs := left),
     if left == [] then TxInUndo(c.outputs[n], c.isCoinBase, c.height, c.version)
     else TxInUndo(c.outputs[n], false, 0, 0))
  }

  /** The outputs made long enough to have an output n, which is set. */
  function PutOutput(outputs: seq<TxOut>, n: nat, output: TxOut): (r: seq<TxOut>)
    ensures |r| > n && r[n] == output
  {
    var padded := if |outputs| < n + 1 then outputs + seq(n + 1 - |outputs|, _ => NULL_OUT) else outputs;
    padded[n := output]
  }

  /** Puts an output back; false when the undo data does not fit the coins. */
  function RestoreOutput(c: Coins, n: nat, undo: TxInUndo): (Coins, bool) {
    var start := if undo.height != 0 then Coins(undo.isCoinBase, [], undo.height, undo.version) else c;
    (start.(outputs := PutOutput(start.outputs, n, undo.output)),
     c.IsPruned() == (undo.height != 0) && !start.IsAvailable(n))
  }

  // ---------- what the disk keeps ----------

  /** Versions are written by code for unsigned numbers, which keeps seven bits of a negative one. */
  function StoredVersion(version: int): int {
    if version < 0 then version % 128 else version
  }

  /** Undo data as it is read back; the version goes with the height. */
  function StoredRecord(u: TxInUndo): TxInUndo {
    u.(version := if u.height > 0 then StoredVersion(u.version) else 0)
  }

  /** Coins as they are read back. */
  function StoredCoins(c: Coins): Coins {
    c.(version := StoredVersion(c.version))
  }

  // ---------- spending and restoring ----------

  lemma TidyIsPruned(c: Coins)
    requires c.IsTidy()
    ensures c.IsPruned() <==> c.outputs == []
  {
    if c.outputs != [] {
      assert !c.outputs[|c.outputs| - 1].IsNull();
    }
  }

  lemma SpendKeepsTidy(c: Coins, n: nat)
    requires c.IsTidy() && c.IsAvailable(n)
    ensures SpendOutput(c, n).0.IsTidy()
  {
  }

  /** Restoring a spent output gives back exactly the coins it was taken from. */
  lemma RestoreAfterSpend(c: Coins, n: nat)
    requires c.IsTidy() && c.IsAvailable(n)
    ensures var (c', undo) := SpendOutput(c, n); RestoreOutput(c', n, undo) == (c, true)
  {
    var (c', undo) := SpendOutput(c, n);
    var spent := c.outputs[n := NULL_OUT];
    SpendKeepsTidy(c, n);
    TidyIsPruned(c');
    assert c'.outputs <= spent;
    var back := PutOutput(c'.outputs, n, c.outputs[n]);
    assert |back| == |c.outputs|;
    assert forall i :: |c'.outputs| <= i < |spent| ==> spent[i].IsNull();
    assert back == c.outputs;
  }

  /** Spending a restored output again gives back the coins and the undo data. */
  lemma SpendAfterRestore(c: Coins, n: nat, undo: TxInUndo)
    requires c.IsTidy() && RestoreOutput(c, n, undo).1
    requires !undo.output.IsNull()
    requires undo.height == 0 ==> undo == TxInUndo(undo.output, false, 0, 0)
    ensures var r := RestoreOutput(c, n, undo).0;
            r.IsAvailable(n) && SpendOutput(r, n).1 == undo && SpendOutput(r, n).0.outputs == c.outputs
  {
    TidyIsPruned(c);
    var r := RestoreOutput(c, n, undo).0;
    var spent := r.outputs[n := NULL_OUT];
    assert forall i :: 0 <= i < |c.outputs| && i != n ==> spent[i] == c.outputs[i];
    TrimIs(spent, c.outputs);
  }

  lemma {:induction false} TrimIs(outputs: seq<TxOut>, front: seq<TxOut>)
    requires front <= outputs
    requires front != [] ==> !front[|front| - 1].IsNull()
    requires forall i :: |front| <= i < |outputs| ==> outputs[i].IsNull()
    ensures Trim(outputs) == front
  {
    if |front| < |outputs| {
      TrimIs(outputs[..|outputs| - 1], front);
    }
  }
}
