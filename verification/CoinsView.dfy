/**
 The coins as the node keeps them: entries that are spent in place, held by caches that
 stand on top of each other, and the code that connects and disconnects blocks on them.
 What a cache holds is compared through Live, which ignores entries that are all spent.
 */
module CoinsView {
  import opened Common
  import opened Amounts
  import opened Coins
  import opened Blocks
  import opened Stored
  import Target

  // ---------- one entry ----------

  class CoinsEntry {
    var isCoinBase: bool
    var outputs: seq<TxOut>
    var height: nat
    var version: int

    function Value(): Coins
      reads this
    {
      Coins(isCoinBase, outputs, height, version)
    }

    constructor (c: Coins)
      ensures Value() == c
    {
      isCoinBase, outputs, height, version := c.isCoinBase, c.outputs, c.height, c.version;
    }

    method Cleanup()
      modifies this`outputs
      ensures outputs == Trim(old(outputs))
    {
      while |outputs| > 0 && outputs[|outputs| - 1].IsNull()
        invariant Trim(outputs) == Trim(old(outputs))
        decreases |outputs|
      {
        outputs := outputs[..|outputs| - 1];
      }
    }

    method Spend(n: nat) returns (ok: bool, undo: TxInUndo)
      modifies this`outputs
      ensures ok == old(Value()).IsAvailable(n)
      ensures ok ==> (Value(), undo) == SpendOutput(old(Value()), n)
      ensures !ok ==> Value() == old(Value())
    {
      undo := TxInUndo(NULL_OUT, false, 0, 0);
      if n >= |outputs| || outputs[n].IsNull() {
        return false, undo;
      }
      undo := TxInUndo(outputs[n], false, 0, 0);
      outputs := outputs[n := NULL_OUT];
      Cleanup();
      if |outputs| == 0 {
        undo := undo.(height := height, isCoinBase := isCoinBase, version := version);
      }
      ok := true;
    }

    /** The part of disconnecting a block that puts one output back. */
    method Restore(n: nat, undo: TxInUndo) returns (clean: bool)
      modifies this
      ensures (Value(), clean) == RestoreOutput(old(Value()), n, undo)
    {
      clean := true;
      var pruned := Value().IsPruned();
      if undo.height != 0 {
        if !pruned {
          clean := false;
        }
        outputs, isCoinBase, height, version := [], undo.isCoinBase, undo.height, undo.version;
      } else if pruned {
        clean := false;
      }
      if Value().IsAvailable(n) {
        clean := false;
      }
      if |outputs| < n + 1 {
        outputs := outputs + seq(n + 1 - |outputs|, _ => NULL_OUT);
      }
      outputs := outputs[n := undo.output];
    }
  }

  // ---------- what a cache stands for ----------

  /** The entries that still have something to spend. */
  function Live(m: map<TxId, Coins>): CoinSet {
    map id | id in m && !m[id].IsPruned() :: m[id]
  }

  ghost predicate AllTidy(m: map<TxId, Coins>) {
    forall id :: id in m ==> m[id].IsTidy()
  }

  lemma LiveStore(m: map<TxId, Coins>, id: TxId, c: Coins)
    requires AllTidy(m) && c.IsTidy()
    ensures AllTidy(m[id := c])
    ensures Live(m[id := c]) == Store(Live(m), id, c)
  {
    TidyIsPruned(c);
  }

  /** A coin database after a batch: what is entirely spent is erased, the rest is kept in serialized form. */
  function Written(m: map<TxId, Coins>, changes: map<TxId, Coins>): map<TxId, Coins> {
    map id | id in m.Keys + changes.Keys && !(id in changes && changes[id].IsPruned())
      :: if id in changes then StoredCoins(changes[id]) else m[id]
  }

  lemma WrittenNone(m: map<TxId, Coins>)
    ensures Written(m, map[]) == m
  {
  }

  lemma WrittenOne(m: map<TxId, Coins>, changes: map<TxId, Coins>, id: TxId, c: Coins)
    requires id !in changes
    ensures Written(m, changes[id := c])
            == if c.IsPruned() then Written(m, changes) - {id} else Written(m, changes)[id := StoredCoins(c)]
  {
    hide StoredCoins;
    var was, now := Written(m, changes), Written(m, changes[id := c]);
    if c.IsPruned() {
      assert now == was - {id};
    } else {
      assert now == was[id := StoredCoins(c)];
    }
  }

  lemma LiveWritten(m: map<TxId, Coins>, changes: map<TxId, Coins>)
    requires AllTidy(m + changes)
    ensures AllTidy(Written(m, changes))
    ensures Fades(Live(m + changes), Live(Written(m, changes)))
  {
    hide Live, StoredCoins, Fades;
    var was, now := m + changes, Written(m, changes);
    var kept := map id | id in was && id in now :: was[id];
    forall id | id in kept
      ensures CoinsFade(kept[id], now[id])
    {
      assert now[id] == if id in changes then StoredCoins(was[id]) else was[id];
    }
    assert now.Keys == kept.Keys;
    LiveFades(kept, now);
    LiveOfKept(was, kept);
  }

  lemma LiveOfKept(m: map<TxId, Coins>, kept: map<TxId, Coins>)
    requires forall id :: id in kept ==> id in m && kept[id] == m[id]
    requires forall id :: id in m && id !in kept ==> m[id].IsPruned()
    ensures Live(kept) == Live(m)
  {
  }

  lemma LiveFades(m: map<TxId, Coins>, m': map<TxId, Coins>)
    requires m.Keys == m'.Keys && forall id :: id in m ==> CoinsFade(m[id], m'[id])
    ensures AllTidy(m) ==> AllTidy(m')
    ensures Fades(Live(m), Live(m'))
  {
    forall id | id in m
      ensures m'[id].outputs == m[id].outputs && m[id].IsTidy() == m'[id].IsTidy()
      ensures m[id].IsPruned() == m'[id].IsPruned()
    {
      assert CoinsFade(m[id], m'[id]);
    }
  }

  // ---------- the cache ----------

  /** What a cache holds and which block it belongs to, and the same for the one below it. */
  datatype ViewState = ViewState(coins: map<TxId, Coins>, best: Option<BlockId>,
                                 baseCoins: map<TxId, Coins>, baseBest: Option<BlockId>)

  /** A cache over another one. Without one below, nothing more is known. */
  class CoinsViewCache {
    const base: CoinsViewCache?
    var entries: map<TxId, Coins>
    var tip: Option<BlockId>
    ghost const Repr: set<object>

    ghost predicate Valid()
      decreases Repr
    {
      && this in Repr
      && (base == null ==> Repr == {this})
      && (base != null ==> this !in base.Repr && Repr == {this} + base.Repr && base.Valid())
    }

    ghost function Contents(): map<TxId, Coins>
      requires Valid()
      reads Repr
      decreases Repr
    {
      BaseContents() + entries
    }

    ghost function BaseContents(): map<TxId, Coins>
      requires Valid()
      reads Repr
      decreases Repr, 0
    {
      if base == null then map[] else base.Contents()
    }

    ghost function Best(): Option<BlockId>
      requires Valid()
      reads Repr
      decreases Repr
    {
      if tip.Some? then tip else BaseBest()
    }

    ghost function BaseBest(): Option<BlockId>
      requires Valid()
      reads Repr
      decreases Repr, 0
    {
      if base == null then None else base.Best()
    }

    ghost function State(): ViewState
      requires Valid()
      reads Repr
    {
      ViewState(Contents(), Best(), BaseContents(), BaseBest())
    }

    constructor (base: CoinsViewCache?)
      requires base != null ==> base.Valid()
      ensures Valid() && this.base == base && fresh(Repr - if base == null then {} else base.Repr)
      ensures entries == map[] && tip == None
      ensures Contents() == BaseContents() && Best() == BaseBest()
    {
      this.base := base;
      entries := map[];
      tip := None;
      Repr := {this} + if base == null then {} else base.Repr;
    }

    /** Looking coins up copies them into the caches on the way; what is held does not change. */
    method GetCoins(id: TxId) returns (found: bool, c: Coins)
      requires Valid()
      modifies Repr
      ensures State() == old(State())
      ensures found <==> id in Contents()
      ensures found ==> c == Contents()[id]
      decreases Repr
    {
      if id in entries {
        return true, entries[id];
      }
      if base != null {
        found, c := base.GetCoins(id);
        if found {
          entries := entries[id := c];
          return;
        }
      }
      return false, NO_COINS;
    }

    method SetCoins(id: TxId, c: Coins)
      requires Valid()
      modifies this`entries
      ensures Contents() == old(Contents())[id := c] && Best() == old(Best())
      ensures BaseContents() == old(BaseContents()) && BaseBest() == old(BaseBest())
    {
      entries := entries[id := c];
    }

    method GetBestBlock() returns (id: Option<BlockId>)
      requires Valid()
      modifies Repr
      ensures id == Best() && (id.Some? ==> tip == id)
      ensures State() == old(State())
      decreases Repr
    {
      if tip == None && base != null {
        tip := base.GetBestBlock();
      }
      id := tip;
    }

    method SetBestBlock(id: BlockId)
      requires Valid()
      modifies this`tip
      ensures Best() == Some(id) && tip == Some(id)
      ensures Contents() == old(Contents())
      ensures BaseContents() == old(BaseContents()) && BaseBest() == old(BaseBest())
    {
      tip := Some(id);
    }

    method BatchWrite(changes: map<TxId, Coins>, id: Option<BlockId>)
      requires Valid()
      modifies this`entries, this`tip
      ensures Contents() == old(Contents()) + changes
      ensures tip == id
      ensures BaseContents() == old(BaseContents()) && BaseBest() == old(BaseBest())
    {
      var left := changes.Keys;
      while left != {}
        invariant left <= changes.Keys
        invariant entries == old(entries) + (map k | k in changes && k !in left :: changes[k])
        decreases left
      {
        var k :| k in left;
        entries := entries[k := changes[k]];
        left := left - {k};
      }
      assert entries == old(entries) + changes;
      tip := id;
    }

    /** Pushes the changes one level down. Nothing is gained or lost by it. */
    method Flush() returns (ok: bool)
      requires Valid()
      modifies Repr
      ensures ok == (base != null)
      ensures Contents() == old(Contents())
      ensures ok ==> entries == map[] && BaseContents() == Contents()
      ensures old(tip).Some? ==> tip == old(tip) && Best() == old(Best())
      ensures ok && old(tip).Some? ==> BaseBest() == Best() && base.tip == old(tip)
      ensures ok ==> base.BaseContents() == old(base.BaseContents()) && base.BaseBest() == old(base.BaseBest())
    {
      if base == null {
        return false;
      }
      base.BatchWrite(entries, tip);
      entries := map[];
      ok := true;
    }

    /** What the coin database at the bottom does with a batch of changes. */
    method WriteBatch(changes: map<TxId, Coins>, id: Option<BlockId>)
      requires Valid() && base == null
      modifies this`entries, this`tip
      ensures entries == Written(old(entries), changes)
      ensures tip == if id.Some? then id else old(tip)
    {
      hide Written, StoredCoins;
      var left := changes.Keys;
      ghost var done: map<TxId, Coins> := map[];
      WrittenNone(entries);
      while left != {}
        invariant done.Keys !! left && done.Keys + left == changes.Keys
        invariant forall k :: k in done ==> done[k] == changes[k]
        invariant entries == Written(old(entries), done) && tip == old(tip)
        decreases left
      {
        var k :| k in left;
        WrittenOne(old(entries), done, k, changes[k]);
        entries := if changes[k].IsPruned() then entries - {k} else entries[k := StoredCoins(changes[k])];
        left, done := left - {k}, done[k := changes[k]];
      }
      assert done == changes;
      tip := if id.Some? then id else tip;
    }

    /** Pushes the changes into the coin database below. Only negative versions are lost by it. */
    method FlushToDisk() returns (ok: bool)
      requires Valid() && AllTidy(Contents()) && (base != null ==> base.base == null)
      modifies Repr
      ensures ok == (base != null)
      ensures ok ==> entries == map[] && Contents() == BaseContents() == Written(old(BaseContents()), old(entries))
      ensures !ok ==> Contents() == old(Contents())
      ensures AllTidy(Contents()) && Fades(old(Live(Contents())), Live(Contents()))
      ensures old(tip).Some? ==> tip == old(tip) && Best() == old(Best())
      ensures ok && old(tip).Some? ==> BaseBest() == Best() && base.tip == old(tip)
    {
      hide Fades, AllTidy, Live, Written;
      LiveWritten(BaseContents(), entries);
      if base == null {
        FadesRefl(Live(Contents()));
        return false;
      }
      assert base.BaseContents() == map[] && base.entries == BaseContents();
      base.WriteBatch(entries, tip);
      entries := map[];
      assert base.BaseContents() == map[] && BaseContents() == base.entries;
      ok := true;
    }

    // ---------- transactions ----------

    /** Spends the inputs of a transaction and adds its outputs. */
    method UpdateCoins(tx: Tx, height: nat) returns (undo: seq<TxInUndo>)
      requires Valid() && AllTidy(Contents()) && CheckTransaction(tx) && height > 0
      requires !tx.IsCoinBase() ==> HaveInputs(Live(Contents()), tx.inputs)
      modifies Repr
      ensures AllTidy(Contents()) && Best() == old(Best())
      ensures BaseContents() == old(BaseContents()) && BaseBest() == old(BaseBest())
      ensures tx.IsCoinBase() ==> undo == [] && Live(Contents()) == old(Live(Contents()))[tx.hash := CoinsOf(tx, height)]
      ensures !tx.IsCoinBase() ==>
                var (coins, u) := SpendInputs(old(Live(Contents())), tx.inputs);
                undo == u && Live(Contents()) == coins[tx.hash := CoinsOf(tx, height)]
    {
      undo := [];
      if !tx.IsCoinBase() {
        undo := SpendAll(tx.inputs);
      }
      ghost var spent := Contents();
      CoinsOfIsTidy(tx, height);
      LiveStore(spent, tx.hash, CoinsOf(tx, height));
      SetCoins(tx.hash, CoinsOf(tx, height));
    }

    method SpendOne(out: OutPoint) returns (undo: TxInUndo)
      requires Valid() && AllTidy(Contents()) && Available(Live(Contents()), out)
      modifies Repr
      ensures AllTidy(Contents()) && Best() == old(Best())
      ensures BaseContents() == old(BaseContents()) && BaseBest() == old(BaseBest())
      ensures (Live(Contents()), undo) == SpendInput(old(Live(Contents())), out)
    {
      hide BaseContents, BaseBest, AllTidy, Live, SpendInput, SpendOutput;
      SpendOneMeans(Contents(), out);
      var found, c := GetCoins(out.hash);
      assert found;
      var entry := new CoinsEntry(c);
      var ok, u := entry.Spend(out.n);
      assert ok;
      undo := u;
      SetCoins(out.hash, entry.Value());
    }

    method SpendAll(inputs: seq<OutPoint>) returns (undo: seq<TxInUndo>)
      requires Valid() && AllTidy(Contents()) && Distinct(inputs) && HaveInputs(Live(Contents()), inputs)
      modifies Repr
      ensures AllTidy(Contents()) && Best() == old(Best())
      ensures BaseContents() == old(BaseContents()) && BaseBest() == old(BaseBest())
      ensures (Live(Contents()), undo) == SpendInputs(old(Live(Contents())), inputs)
    {
      hide Contents, BaseContents, Best, BaseBest, AllTidy, Live, SpendInput;
      undo := [];
      ghost var start := Live(Contents());
      assert inputs[..0] == [];
      for i := 0 to |inputs|
        invariant AllTidy(Contents()) && Best() == old(Best())
        invariant BaseContents() == old(BaseContents()) && BaseBest() == old(BaseBest())
        invariant (Live(Contents()), undo) == SpendInputs(start, inputs[..i])
      {
        SpendInputsStep(start, inputs, i);
        var u := SpendOne(inputs[i]);
        undo := undo + [u];
      }
      assert inputs[..|inputs|] == inputs;
    }

    // ---------- connecting a block ----------

    /** Looks for coins that are not entirely spent. */
    method FindLive(id: TxId) returns (live: bool, c: Coins)
      requires Valid()
      modifies Repr
      ensures State() == old(State())
      ensures live <==> id in Live(Contents())
      ensures live ==> c == Live(Contents())[id]
    {
      var found, coins := GetCoins(id);
      live, c := found && !coins.IsPruned(), coins;
    }

    method HasInputs(inputs: seq<OutPoint>) returns (ok: bool)
      requires Valid() && AllTidy(Contents())
      modifies Repr
      ensures State() == old(State())
      ensures ok == HaveInputs(Live(Contents()), inputs)
    {
      hide Contents, BaseContents, Best, BaseBest, AllTidy, Live;
      ghost var live := Live(Contents());
      for i := 0 to |inputs|
        invariant State() == old(State())
        invariant forall j :: 0 <= j < i ==> Available(live, inputs[j])
      {
        var found, c := FindLive(inputs[i].hash);
        if !found || !c.IsAvailable(inputs[i].n) {
          assert !Available(live, inputs[i]);
          return false;
        }
        assert Available(live, inputs[i]);
      }
      ok := true;
    }

    /** The value of one available input, and whether it is mature and in range. */
    method InputPass(out: OutPoint, height: nat) returns (ok: bool, value: int)
      requires Valid() && AllTidy(Contents()) && Available(Live(Contents()), out)
      modifies Repr
      ensures State() == old(State())
      ensures ok == InputPasses(Live(Contents()), out, height)
      ensures value == Live(Contents())[out.hash].outputs[out.n].value
    {
      var found, c := GetCoins(out.hash);
      assert found;
      value := c.outputs[out.n].value;
      ok := !(c.isCoinBase && height - c.height < COINBASE_MATURITY) && MoneyRange(value);
    }

    /** The money and maturity rules, summing up the inputs on the way. */
    method InputsPass(tx: Tx, height: nat) returns (ok: bool, valueIn: int)
      requires Valid() && AllTidy(Contents())
      modifies Repr
      ensures State() == old(State())
      ensures ok == CheckInputs(Live(Contents()), tx, height)
      ensures ok ==> valueIn == ValueIn(Live(Contents()), tx.inputs)
    {
      valueIn := 0;
      ok := HasInputs(tx.inputs);
      if !ok {
        return;
      }
      ok, valueIn := SumInputs(tx.inputs, height);
      InputsPassMeans(Live(Contents()), tx, height);
      ok := ok && valueIn - tx.ValueOut() >= tx.MinFee();
    }

    method SumInputs(inputs: seq<OutPoint>, height: nat) returns (ok: bool, valueIn: int)
      requires Valid() && AllTidy(Contents()) && HaveInputs(Live(Contents()), inputs)
      modifies Repr
      ensures State() == old(State())
      ensures ok == AllPass(Live(Contents()), inputs, height)
      ensures ok ==> valueIn == ValueIn(Live(Contents()), inputs)
    {
      hide Contents, BaseContents, Best, BaseBest, AllTidy, Live;
      valueIn, ok := 0, true;
      ghost var live := Live(Contents());
      assert inputs[..0] == [];
      for i := 0 to |inputs|
        invariant State() == old(State())
        invariant HaveInputs(live, inputs[..i]) && valueIn == ValueIn(live, inputs[..i])
        invariant AllPass(live, inputs[..i], height)
      {
        ValueInStep(live, inputs, i);
        var pass, value := InputPass(inputs[i], height);
        valueIn := valueIn + value;
        AllPassStep(live, inputs, i, height);
        if !pass || !MoneyRange(valueIn) {
          return false, valueIn;
        }
      }
      assert inputs[..|inputs|] == inputs;
    }

    /** One transaction of a block. */
    method ConnectTransaction(tx: Tx, height: nat) returns (ok: bool, undo: seq<TxInUndo>, valueIn: int)
      requires Valid() && AllTidy(Contents()) && CheckTransaction(tx) && height > 0
      modifies Repr
      ensures Best() == old(Best()) && BaseContents() == old(BaseContents()) && BaseBest() == old(BaseBest())
      ensures ok ==> AllTidy(Contents())
      ensures TxConnected(old(Live(Contents())), tx, height, ok, Live(Contents()), undo, valueIn)
    {
      undo, valueIn := [], 0;
      if !tx.IsCoinBase() {
        ok, valueIn := InputsPass(tx, height);
        if !ok {
          return;
        }
      }
      undo := UpdateCoins(tx, height);
      ok := true;
    }

    method ConnectAll(txs: seq<Tx>, height: nat)
      returns (ok: bool, undo: BlockUndo, valueIn: int, valueOut: int, fees: int)
      requires Valid() && AllTidy(Contents()) && ChecksOut(txs) && height > 0
      modifies Repr
      ensures Best() == old(Best()) && BaseContents() == old(BaseContents()) && BaseBest() == old(BaseBest())
      ensures ok ==> AllTidy(Contents())
      ensures ConnectTxs(old(Live(Contents())), txs, height) ==
              if ok then Some(Connected(Live(Contents()), undo, valueIn, valueOut, fees)) else None
    {
      hide CheckTransaction, TxConnected, ConnectTxs, SumValues;
      hide Contents, BaseContents, Best, BaseBest, Live, AllTidy;
      ghost var start := Live(Contents());
      ok, undo, valueIn, valueOut, fees := true, [], 0, 0, 0;
      assert txs[..0] == [];
      ConnectNone(start, height);
      for i := 0 to |txs|
        invariant AllTidy(Contents())
        invariant Best() == old(Best()) && BaseContents() == old(BaseContents()) && BaseBest() == old(BaseBest())
        invariant ConnectTxs(start, txs[..i], height) ==
                  Some(Connected(Live(Contents()), undo, valueIn, valueOut, fees))
      {
        ghost var c := Connected(Live(Contents()), undo, valueIn, valueOut, fees);
        assert CheckTransaction(txs[i]);
        var pass, txUndo, txIn := ConnectTransaction(txs[i], height);
        ConnectTxsExtend(start, txs, height, i, c, pass, Live(Contents()), txUndo, txIn);
        if !pass {
          return false, undo, valueIn, valueOut, fees;
        }
        valueIn, valueOut := valueIn + txIn, valueOut + txs[i].ValueOut();
        if !txs[i].IsCoinBase() {
          fees := fees + txIn - txs[i].ValueOut();
          undo := undo + [txUndo];
        }
      }
      assert txs[..|txs|] == txs;
    }

    /**
     Connects the transactions of a block: agrees with Connect on whether it may be
     connected and, when it may, on the coin set and the undo data that result. Also tells
     whether every single transaction passed, which decides if the money supply is recorded.
     */
    method ConnectTransactions(b: Block, height: nat, verified: bool)
      returns (ok: bool, passed: bool, undo: BlockUndo, moneyDelta: int)
      requires Valid() && AllTidy(Contents()) && height > 0
      modifies Repr
      ensures Best() == old(Best()) && BaseContents() == old(BaseContents()) && BaseBest() == old(BaseBest())
      ensures passed == ConnectChecked(old(Live(Contents())), b, height).Some?
      ensures passed ==> var c := ConnectChecked(old(Live(Contents())), b, height).value;
                         moneyDelta == c.valueOut - c.valueIn
      ensures ok == Connect(old(Live(Contents())), b, height, verified).Some?
      ensures ok ==> AllTidy(Contents())
      ensures ok ==> var c := Connect(old(Live(Contents())), b, height, verified).value;
                     passed && Live(Contents()) == c.coins && undo == c.undo && moneyDelta == c.valueOut - c.valueIn
    {
      hide Target.Mint, CheckTransaction, ConnectTxs, SumValues;
      undo, moneyDelta := [], 0;
      if !CheckBlock(b) {
        return false, false, undo, moneyDelta;
      }
      var clash := Overwrites(b.txs);
      if clash {
        return false, false, undo, moneyDelta;
      }
      var connected, blockUndo, valueIn, valueOut, fees := ConnectAll(b.txs, height);
      passed, undo, moneyDelta := connected, blockUndo, valueOut - valueIn;
      ok := && passed
            && b.txs[0].ValueOut() <= Target.Mint(b.bits) + fees - b.txs[0].MinFee() + MIN_TX_FEE
            && verified;
    }

    method Overwrites(txs: seq<Tx>) returns (clash: bool)
      requires Valid() && AllTidy(Contents())
      modifies Repr
      ensures State() == old(State())
      ensures clash == !NoOverwrite(Live(Contents()), txs)
    {
      hide Contents, BaseContents, Best, BaseBest, AllTidy, Live;
      ghost var live := Live(Contents());
      for i := 0 to |txs|
        invariant State() == old(State())
        invariant forall j :: 0 <= j < i ==> txs[j].hash !in live
      {
        var found, c := FindLive(txs[i].hash);
        if found {
          return true;
        }
      }
      clash := false;
    }

    // ---------- disconnecting a block ----------

    /** Puts one spent output back. False marks the coin database as damaged. */
    method RestoreOne(out: OutPoint, undo: TxInUndo) returns (clean: bool)
      requires Valid() && !undo.output.IsNull()
      modifies Repr
      ensures Best() == old(Best()) && BaseContents() == old(BaseContents()) && BaseBest() == old(BaseBest())
      ensures old(AllTidy(Contents())) ==>
                && (clean ==> AllTidy(Contents()))
                && RestoreInput(old(Live(Contents())), out, undo) == if clean then Some(Live(Contents())) else None
    {
      hide BaseContents, BaseBest, AllTidy, Live, RestoreInput, RestoreOutput;
      ghost var before := Contents();
      var found, c := GetCoins(out.hash);
      var entry := new CoinsEntry(if found then c else NO_COINS);
      clean := entry.Restore(out.n, undo);
      SetCoins(out.hash, entry.Value());
      if AllTidy(before) {
        RestoreOneMeans(before, out, undo);
      }
    }

    method RestoreAll(inputs: seq<OutPoint>, undo: seq<TxInUndo>) returns (clean: bool)
      requires Valid() && |inputs| == |undo| && forall j :: 0 <= j < |undo| ==> !undo[j].output.IsNull()
      modifies Repr
      ensures Best() == old(Best()) && BaseContents() == old(BaseContents()) && BaseBest() == old(BaseBest())
      ensures old(AllTidy(Contents())) ==>
                && (clean ==> AllTidy(Contents()))
                && RestoreInputs(old(Live(Contents())), inputs, undo) == if clean then Some(Live(Contents())) else None
    {
      hide Contents, BaseContents, Best, BaseBest, Live, AllTidy, RestoreInput;
      clean := true;
      var j := |inputs|;
      ghost var start := Live(Contents());
      ghost var tidy := AllTidy(Contents());
      assert inputs[..j] == inputs && undo[..j] == undo;
      while j > 0
        invariant j <= |inputs|
        invariant Best() == old(Best()) && BaseContents() == old(BaseContents()) && BaseBest() == old(BaseBest())
        invariant tidy && clean ==> AllTidy(Contents())
        invariant tidy ==> RestoreInputs(start, inputs, undo) ==
                             if clean then RestoreInputs(Live(Contents()), inputs[..j], undo[..j]) else None
      {
        j := j - 1;
        assert inputs[..j + 1][..j] == inputs[..j] && undo[..j + 1][..j] == undo[..j];
        var ok := RestoreOne(inputs[j], undo[j]);
        if !ok {
          clean := false;
        }
      }
    }

    /** Takes the outputs of a transaction away. */
    method RemoveOne(tx: Tx, height: nat) returns (clean: bool)
      requires Valid() && CheckTransaction(tx)
      modifies Repr
      ensures Best() == old(Best()) && BaseContents() == old(BaseContents()) && BaseBest() == old(BaseBest())
      ensures old(AllTidy(Contents())) ==>
                && (clean ==> AllTidy(Contents()))
                && RemoveOutputs(old(Live(Contents())), tx, height) == if clean then Some(Live(Contents())) else None
    {
      hide BaseContents, BaseBest, AllTidy, Live, CheckTransaction, RemoveOutputs;
      clean := true;
      ghost var before := Contents();
      var found, outs := GetCoins(tx.hash);
      if !found {
        clean := false;
        SetCoins(tx.hash, NO_COINS);
        outs := NO_COINS;
      }
      var expected := CoinsOf(tx, height);
      if expected.version < 0 {
        outs := outs.(version := expected.version);
      }
      if outs != expected {
        clean := false;
      }
      SetCoins(tx.hash, NO_COINS);
      assert Contents() == before[tx.hash := NO_COINS];
      if AllTidy(before) {
        RemoveOneMeans(before, tx, height);
      }
    }

    /** One transaction of a block, the coinbase being the only one without inputs to restore. */
    method DisconnectTransaction(tx: Tx, height: nat, undo: Option<seq<TxInUndo>>) returns (clean: bool)
      requires Valid() && CheckTransaction(tx)
      requires undo.Some? ==> forall j :: 0 <= j < |undo.value| ==> !undo.value[j].output.IsNull()
      modifies Repr
      ensures Best() == old(Best()) && BaseContents() == old(BaseContents()) && BaseBest() == old(BaseBest())
      ensures old(AllTidy(Contents())) ==>
                && (clean ==> AllTidy(Contents()))
                && (if undo.Some? then DisconnectTx(old(Live(Contents())), tx, height, undo.value)
                    else RemoveOutputs(old(Live(Contents())), tx, height))
                   == if clean then Some(Live(Contents())) else None
    {
      hide Contents, BaseContents, Best, BaseBest, Live, AllTidy, RemoveOutputs, RestoreInputs, CheckTransaction;
      clean := RemoveOne(tx, height);
      if undo.Some? {
        if |undo.value| != |tx.inputs| {
          return false;
        }
        var restored := RestoreAll(tx.inputs, undo.value);
        clean := clean && restored;
      }
    }

    /**
     Takes the transactions of a block back: agrees with Disconnect on whether the undo
     data fits and, when it does, on the coin set that results.
     */
    method DisconnectTransactions(b: Block, height: nat, undo: BlockUndo) returns (clean: bool)
      requires Valid() && AllTidy(Contents()) && b.txs != [] && ChecksOut(b.txs) && NoNullUndo(undo)
      modifies Repr
      ensures Best() == old(Best()) && BaseContents() == old(BaseContents()) && BaseBest() == old(BaseBest())
      ensures clean ==> AllTidy(Contents())
      ensures Disconnect(old(Live(Contents())), b, height, undo) == if clean then Some(Live(Contents())) else None
    {
      hide Contents, BaseContents, Best, BaseBest, Live, AllTidy, RemoveOutputs, CheckTransaction;
      clean := true;
      if |undo| + 1 != |b.txs| {
        return false;
      }
      var i := |b.txs|;
      ghost var start := Live(Contents());
      assert b.txs[..i] == b.txs && undo[..i - 1] == undo;
      while i > 0
        invariant i <= |b.txs|
        invariant Best() == old(Best()) && BaseContents() == old(BaseContents()) && BaseBest() == old(BaseBest())
        invariant clean ==> AllTidy(Contents())
        invariant DisconnectTxs(start, b.txs, height, undo) ==
                  if !clean then None else if i == 0 then Some(Live(Contents()))
                  else DisconnectTxs(Live(Contents()), b.txs[..i], height, undo[..i - 1])
      {
        i := i - 1;
        assert CheckTransaction(b.txs[i]);
        assert b.txs[..i + 1][..i] == b.txs[..i];
        assert i > 0 ==> undo[..i][..i - 1] == undo[..i - 1];
        var ok := DisconnectTransaction(b.txs[i], height, if i > 0 then Some(undo[i - 1]) else None);
        if !ok {
          clean := false;
        }
      }
    }
  }

  // ---------- steps of the loops above ----------

  lemma RemoveOneMeans(m: map<TxId, Coins>, tx: Tx, height: nat)
    requires AllTidy(m) && CheckTransaction(tx)
    ensures AllTidy(m[tx.hash := NO_COINS])
    ensures var expected := CoinsOf(tx, height);
            var found := if tx.hash in m then m[tx.hash] else NO_COINS;
            var adjusted := if expected.version < 0 then found.(version := expected.version) else found;
            RemoveOutputs(Live(m), tx, height)
              == if tx.hash in m && adjusted == expected then Some(Live(m[tx.hash := NO_COINS])) else None
  {
    hide SumValues;
    LiveStore(m, tx.hash, NO_COINS);
    if tx.hash in m {
      TidyIsPruned(m[tx.hash]);
    }
  }

  lemma SpendOneMeans(m: map<TxId, Coins>, out: OutPoint)
    requires AllTidy(m) && Available(Live(m), out)
    ensures out.hash in m && m[out.hash].IsAvailable(out.n)
    ensures var (c, undo) := SpendOutput(m[out.hash], out.n);
            && AllTidy(m[out.hash := c])
            && SpendInput(Live(m), out) == (Live(m[out.hash := c]), undo)
  {
    var (c, undo) := SpendOutput(m[out.hash], out.n);
    SpendKeepsTidy(m[out.hash], out.n);
    LiveStore(m, out.hash, c);
  }

  lemma RestoreOneMeans(m: map<TxId, Coins>, out: OutPoint, undo: TxInUndo)
    requires AllTidy(m) && !undo.output.IsNull()
    ensures var (c, clean) := RestoreOutput(if out.hash in m then m[out.hash] else NO_COINS, out.n, undo);
            && (clean ==> AllTidy(m[out.hash := c]))
            && RestoreInput(Live(m), out, undo) == if clean then Some(Live(m[out.hash := c])) else None
  {
    var was := if out.hash in m then m[out.hash] else NO_COINS;
    TidyIsPruned(was);
    var (c, clean) := RestoreOutput(was, out.n, undo);
    if clean {
      assert c.IsTidy();
      assert c.outputs[out.n] == undo.output;
      LiveStore(m, out.hash, c);
    }
  }

  lemma SpendInputsStep(s: CoinSet, inputs: seq<OutPoint>, i: nat)
    requires i < |inputs| && HaveInputs(s, inputs) && Distinct(inputs)
    ensures HaveInputs(s, inputs[..i]) && Distinct(inputs[..i])
    ensures HaveInputs(s, inputs[..i + 1]) && Distinct(inputs[..i + 1])
    ensures var (s', undo) := SpendInputs(s, inputs[..i]);
            && Available(s', inputs[i])
            && SpendInputs(s, inputs[..i + 1]) == (SpendInput(s', inputs[i]).0, undo + [SpendInput(s', inputs[i]).1])
  {
    assert inputs[..i + 1][..i] == inputs[..i] && inputs[i] !in inputs[..i];
    assert Available(s, inputs[i]);
  }

  /** What connecting a single transaction does to the coin set, and whether it may be connected. */
  ghost predicate TxConnected(s: CoinSet, tx: Tx, height: nat, ok: bool, s': CoinSet, undo: seq<TxInUndo>, valueIn: int)
    requires Distinct(tx.inputs)
  {
    if tx.IsCoinBase() then
      ok && s' == s[tx.hash := CoinsOf(tx, height)] && undo == [] && valueIn == 0
    else
      && ok == CheckInputs(s, tx, height)
      && (ok ==>
            && valueIn == ValueIn(s, tx.inputs)
            && undo == SpendInputs(s, tx.inputs).1
            && s' == SpendInputs(s, tx.inputs).0[tx.hash := CoinsOf(tx, height)])
  }

  /** The counters after connecting one more transaction. */
  function Counted(c: Connected, tx: Tx, s': CoinSet, undo: seq<TxInUndo>, valueIn: int): Connected {
    if tx.IsCoinBase() then
      Connected(s', c.undo, c.valueIn + valueIn, c.valueOut + tx.ValueOut(), c.fees)
    else
      Connected(s', c.undo + [undo], c.valueIn + valueIn, c.valueOut + tx.ValueOut(), c.fees + valueIn - tx.ValueOut())
  }

  lemma ConnectNone(s: CoinSet, height: nat)
    ensures ConnectTxs(s, [], height) == Some(Connected(s, [], 0, 0, 0))
  {
  }

  lemma ConnectTxsExtend(s: CoinSet, txs: seq<Tx>, height: nat, i: nat, c: Connected,
                         ok: bool, s': CoinSet, undo: seq<TxInUndo>, valueIn: int)
    requires ChecksOut(txs) && i < |txs| && ConnectTxs(s, txs[..i], height) == Some(c)
    requires CheckTransaction(txs[i]) && TxConnected(c.coins, txs[i], height, ok, s', undo, valueIn)
    ensures ok ==> ConnectTxs(s, txs[..i + 1], height) == Some(Counted(c, txs[i], s', undo, valueIn))
    ensures !ok ==> ConnectTxs(s, txs, height).None?
  {
    hide CheckInputs, SpendInputs, ValueIn, SumValues;
    ConnectTxsStep(s, txs, height, i);
    if !ok {
      ConnectTxsFailed(s, txs, height, i + 1);
    }
  }

  ghost predicate InputPasses(s: CoinSet, out: OutPoint, height: nat) {
    && Available(s, out)
    && (s[out.hash].isCoinBase ==> height - s[out.hash].height >= COINBASE_MATURITY)
    && MoneyRange(s[out.hash].outputs[out.n].value)
  }

  lemma ValueInStep(s: CoinSet, inputs: seq<OutPoint>, i: nat)
    requires i < |inputs| && HaveInputs(s, inputs)
    ensures Available(s, inputs[i])
    ensures ValueIn(s, inputs[..i + 1]) == ValueIn(s, inputs[..i]) + s[inputs[i].hash].outputs[inputs[i].n].value
  {
    assert inputs[..i + 1][..i] == inputs[..i];
  }

  /** Every input passes, and no partial sum of their values leaves the money range. */
  ghost predicate AllPass(s: CoinSet, inputs: seq<OutPoint>, height: nat)
    requires HaveInputs(s, inputs)
  {
    && (forall i :: 0 <= i < |inputs| ==> InputPasses(s, inputs[i], height))
    && MoneyRange(ValueIn(s, inputs))
  }

  lemma AllPassStep(s: CoinSet, inputs: seq<OutPoint>, i: nat, height: nat)
    requires i < |inputs| && HaveInputs(s, inputs) && AllPass(s, inputs[..i], height)
    ensures HaveInputs(s, inputs[..i + 1])
    ensures InputPasses(s, inputs[i], height) && MoneyRange(ValueIn(s, inputs[..i + 1])) ==>
              AllPass(s, inputs[..i + 1], height)
    ensures !InputPasses(s, inputs[i], height) || !MoneyRange(ValueIn(s, inputs[..i + 1])) ==>
              !AllPass(s, inputs, height)
  {
    PartialValueIn(s, inputs, i + 1, height);
    assert forall j :: 0 <= j < i ==> inputs[..i][j] == inputs[j];
    if InputPasses(s, inputs[i], height) {
      assert forall j :: 0 <= j < i + 1 && j != i ==> InputPasses(s, inputs[..i][j], height);
    }
  }

  lemma InputsPassMeans(s: CoinSet, tx: Tx, height: nat)
    requires HaveInputs(s, tx.inputs)
    ensures CheckInputs(s, tx, height) <==>
              AllPass(s, tx.inputs, height) && ValueIn(s, tx.inputs) - tx.ValueOut() >= tx.MinFee()
  {
    if CheckInputs(s, tx, height) {
      forall i | 0 <= i < |tx.inputs| ensures InputPasses(s, tx.inputs[i], height) {
        assert Available(s, tx.inputs[i]);
      }
    } else if forall i :: 0 <= i < |tx.inputs| ==> InputPasses(s, tx.inputs[i], height) {
      assert forall i :: 0 <= i < |tx.inputs| ==> InputPasses(s, tx.inputs[i], height);
    }
  }

  /** Once a partial sum of input values is out of range, the inputs cannot pass. */
  lemma {:induction false} PartialValueIn(s: CoinSet, inputs: seq<OutPoint>, i: nat, height: nat)
    requires HaveInputs(s, inputs) && i <= |inputs|
    ensures HaveInputs(s, inputs[..i])
    ensures (forall j :: 0 <= j < |inputs| ==> InputPasses(s, inputs[j], height)) ==>
              0 <= ValueIn(s, inputs[..i]) <= ValueIn(s, inputs)
    decreases |inputs|, |inputs| - i
  {
    if i < |inputs| {
      PartialValueIn(s, inputs, i + 1, height);
      PartialValueIn(s, inputs[..i], i, height);
      assert inputs[..i][..i] == inputs[..i];
      ValueInStep(s, inputs, i);
      assert InputPasses(s, inputs[i], height) ==> s[inputs[i].hash].outputs[inputs[i].n].value >= 0;
    } else {
      assert inputs[..i] == inputs;
      if i > 0 {
        PartialValueIn(s, inputs[..i - 1], i - 1, height);
        assert inputs[..i - 1][..i - 1] == inputs[..i - 1];
        ValueInStep(s, inputs, i - 1);
        assert InputPasses(s, inputs[i - 1], height) ==> s[inputs[i - 1].hash].outputs[inputs[i - 1].n].value >= 0;
      }
    }
  }

  lemma ConnectTxsStep(s: CoinSet, txs: seq<Tx>, height: nat, i: nat)
    requires ChecksOut(txs) && i < |txs|
    ensures CheckTransaction(txs[i])
    ensures ConnectTxs(s, txs[..i + 1], height) ==
            match ConnectTxs(s, txs[..i], height)
            case None => None
            case Some(c) => ConnectTx(c, txs[i], height)
  {
    assert txs[..i + 1][..i] == txs[..i];
  }

  lemma {:induction false} ConnectTxsFailed(s: CoinSet, txs: seq<Tx>, height: nat, i: nat)
    requires ChecksOut(txs) && i <= |txs| && ConnectTxs(s, txs[..i], height).None?
    ensures ConnectTxs(s, txs, height).None?
    decreases |txs| - i
  {
    if i == |txs| {
      assert txs[..i] == txs;
    } else {
      ConnectTxsStep(s, txs, height, i);
      ConnectTxsFailed(s, txs, height, i + 1);
    }
  }
}
