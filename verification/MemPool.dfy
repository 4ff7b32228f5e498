/**
 The memory pool: transactions that wait for a block, and an index of the outputs they spend.

 A hash is made from the transaction it names, and so from the hashes of the transactions it
 spends. Two facts follow that the code relies on: one hash names one transaction, and no
 transaction is its own ancestor. The second is given as a rank that grows from a transaction
 to those that spend it.
 */
module MemPool {
  import opened Blocks
  import opened Coins
  import opened Common

  type Pool = map<TxId, Tx>
  type Rank = TxId -> nat

  datatype InPoint = InPoint(id: TxId, n: nat)

  // ---------- descendants ----------

  predicate IsRanked(tx: Tx, rank: Rank) {
    forall i :: 0 <= i < |tx.inputs| ==> rank(tx.inputs[i].hash) < rank(tx.hash)
  }

  ghost predicate AllRanked(pool: Pool, rank: Rank) {
    forall id :: id in pool ==> pool[id].hash == id && IsRanked(pool[id], rank)
  }

  /** The output exists in the pool. */
  predicate HasOutput(pool: Pool, out: OutPoint) {
    out.hash in pool && out.n < |pool[out.hash].outputs|
  }

  /** A transaction that spends an output of another one, or of a descendant of that one. */
  ghost predicate Descends(pool: Pool, rank: Rank, root: TxId, id: TxId)
    requires AllRanked(pool, rank)
    decreases rank(id)
  {
    id == root
    || (id in pool && exists i :: 0 <= i < |pool[id].inputs| && SpendsDescendant(pool, rank, root, id, i))
  }

  ghost predicate SpendsDescendant(pool: Pool, rank: Rank, root: TxId, id: TxId, i: nat)
    requires AllRanked(pool, rank) && id in pool && i < |pool[id].inputs|
    decreases rank(id), 0
  {
    var out := pool[id].inputs[i];
    assert IsRanked(pool[id], rank);
    HasOutput(pool, out) && Descends(pool, rank, root, out.hash)
  }

  ghost function Descendants(pool: Pool, rank: Rank, root: TxId): set<TxId>
    requires AllRanked(pool, rank)
  {
    set id | id in pool && Descends(pool, rank, root, id)
  }

  /** With a transaction goes everything that spends it. */
  ghost predicate Closed(pool: Pool, ids: set<TxId>) {
    && ids <= pool.Keys
    && forall id, i :: id in pool && 0 <= i < |pool[id].inputs|
                       && pool[id].inputs[i].hash in ids && HasOutput(pool, pool[id].inputs[i])
                       ==> id in ids
  }

  lemma {:induction false} DescendsRank(pool: Pool, rank: Rank, root: TxId, id: TxId)
    requires AllRanked(pool, rank) && Descends(pool, rank, root, id)
    ensures id == root || rank(root) < rank(id)
    decreases rank(id)
  {
    if id != root {
      var i :| 0 <= i < |pool[id].inputs| && SpendsDescendant(pool, rank, root, id, i);
      assert IsRanked(pool[id], rank);
      DescendsRank(pool, rank, root, pool[id].inputs[i].hash);
    }
  }

  /** A descendant, in part of a pool, of a descendant in the whole pool. */
  lemma {:induction false} DescendsVia(part: Pool, pool: Pool, rank: Rank, root: TxId, via: TxId, id: TxId)
    requires AllRanked(pool, rank) && AllRanked(part, rank) && part.Items <= pool.Items
    requires Descends(pool, rank, root, via) && Descends(part, rank, via, id)
    ensures Descends(pool, rank, root, id)
    decreases rank(id)
  {
    if id != via {
      var i :| 0 <= i < |part[id].inputs| && SpendsDescendant(part, rank, via, id, i);
      var out := part[id].inputs[i];
      PartOf(part, pool, id);
      PartOf(part, pool, out.hash);
      assert IsRanked(part[id], rank);
      DescendsVia(part, pool, rank, root, via, out.hash);
      assert SpendsDescendant(pool, rank, root, id, i);
    }
  }

  lemma DescendsSelf(pool: Pool, rank: Rank, id: TxId)
    requires AllRanked(pool, rank) && id in pool
    ensures id in Descendants(pool, rank, id)
  {
  }

  lemma PartOf(part: Pool, pool: Pool, id: TxId)
    requires part.Items <= pool.Items && id in part
    ensures id in pool && pool[id] == part[id]
  {
    assert (id, part[id]) in part.Items;
  }

  lemma Without(pool: Pool, ids: set<TxId>)
    ensures (pool - ids).Items <= pool.Items
  {
  }

  /** Removing descendants in what is left of a pool keeps the removed set closed. */
  lemma ClosedWithDescendants(pool: Pool, rank: Rank, gone: set<TxId>, root: TxId)
    requires AllRanked(pool, rank) && Closed(pool, gone)
    ensures AllRanked(pool - gone, rank)
    ensures Closed(pool, gone + Descendants(pool - gone, rank, root))
  {
    var left := pool - gone;
    var more := Descendants(left, rank, root);
    forall id, i | id in pool && 0 <= i < |pool[id].inputs| && pool[id].inputs[i].hash in gone + more
                   && HasOutput(pool, pool[id].inputs[i])
      ensures id in gone + more
    {
      if id !in gone {
        var out := pool[id].inputs[i];
        assert out.hash in more && id in left;
        assert SpendsDescendant(left, rank, root, id, i);
      }
    }
  }

  ghost predicate SpendersIn(pool: Pool, root: Tx, ids: set<TxId>) {
    forall c, i :: c in pool && 0 <= i < |pool[c].inputs| && pool[c].inputs[i].hash == root.hash
                   && pool[c].inputs[i].n < |root.outputs|
                   ==> c in ids
  }

  /** A closed set that holds everything spending the root holds all its descendants but the root. */
  lemma {:induction false} ClosedHoldsDescendants(pool: Pool, rank: Rank, gone: set<TxId>, root: Tx, id: TxId)
    requires var all := pool[root.hash := root]; AllRanked(all, rank) && Descends(all, rank, root.hash, id)
    requires root.hash in pool ==> pool[root.hash] == root
    requires Closed(pool, gone) && id in pool && id != root.hash
    requires SpendersIn(pool, root, gone)
    ensures id in gone
    decreases rank(id)
  {
    var all := pool[root.hash := root];
    var i :| 0 <= i < |all[id].inputs| && SpendsDescendant(all, rank, root.hash, id, i);
    var out := all[id].inputs[i];
    assert IsRanked(all[id], rank);
    if out.hash != root.hash {
      ClosedHoldsDescendants(pool, rank, gone, root, out.hash);
      assert HasOutput(pool, pool[id].inputs[i]);
    }
  }

  // ---------- the index ----------

  /** The index names exactly the inputs of pooled transactions, so no output is spent twice. */
  ghost predicate Indexed(pool: Pool, next: map<OutPoint, InPoint>) {
    && (forall id, i :: id in pool && 0 <= i < |pool[id].inputs| ==>
          pool[id].inputs[i] in next && next[pool[id].inputs[i]] == InPoint(id, i))
    && (forall out :: out in next ==>
          next[out].id in pool && next[out].n < |pool[next[out].id].inputs|
          && pool[next[out].id].inputs[next[out].n] == out)
  }

  /** No output is spent twice, within a transaction or by two of them. */
  lemma NoDoubleSpend(pool: Pool, next: map<OutPoint, InPoint>, a: TxId, i: nat, b: TxId, j: nat)
    requires Indexed(pool, next) && a in pool && b in pool
    requires i < |pool[a].inputs| && j < |pool[b].inputs| && pool[a].inputs[i] == pool[b].inputs[j]
    ensures a == b && i == j
  {
    assert next[pool[a].inputs[i]] == InPoint(a, i);
    assert next[pool[b].inputs[j]] == InPoint(b, j);
  }

  lemma InputIndexed(pool: Pool, next: map<OutPoint, InPoint>, id: TxId, i: nat)
    requires Indexed(pool, next) && id in pool && i < |pool[id].inputs|
    ensures pool[id].inputs[i] in next
  {
  }

  lemma IndexedAt(pool: Pool, next: map<OutPoint, InPoint>, out: OutPoint)
    requires Indexed(pool, next) && out in next
    ensures next[out].id in pool && next[out].n < |pool[next[out].id].inputs|
    ensures pool[next[out].id].inputs[next[out].n] == out
  {
  }

  /** The inputs as a set. */
  function InputSet(tx: Tx): set<OutPoint> {
    set i | 0 <= i < |tx.inputs| :: tx.inputs[i]
  }

  lemma IndexWithout(pool: Pool, next: map<OutPoint, InPoint>, id: TxId)
    requires Indexed(pool, next) && id in pool
    ensures Indexed(pool - {id}, next - InputSet(pool[id]))
  {
    var left, rest := pool - {id}, next - InputSet(pool[id]);
    forall a, i | a in left && 0 <= i < |left[a].inputs|
      ensures left[a].inputs[i] in rest && rest[left[a].inputs[i]] == InPoint(a, i)
    {
      var out := left[a].inputs[i];
      assert next[out] == InPoint(a, i);
      assert forall j :: 0 <= j < |pool[id].inputs| ==> next[pool[id].inputs[j]] == InPoint(id, j);
    }
    forall out | out in rest
      ensures rest[out].id in left && rest[out].n < |left[rest[out].id].inputs|
      ensures left[rest[out].id].inputs[rest[out].n] == out
    {
      var p := next[out];
      assert pool[p.id].inputs[p.n] in InputSet(pool[p.id]);
    }
  }

  /** What is not spent in a pool is not spent in part of it, and what is, is by the same input. */
  lemma IndexShrinks(pool: Pool, next: map<OutPoint, InPoint>, part: Pool, rest: map<OutPoint, InPoint>, out: OutPoint)
    requires Indexed(pool, next) && Indexed(part, rest) && part.Items <= pool.Items && out in rest
    ensures out in next && next[out] == rest[out]
  {
    var p := rest[out];
    PartOf(part, pool, p.id);
    assert pool[p.id].inputs[p.n] == out;
  }

  /** What is spent in the rest of a pool was spent before, by the same transaction. */
  lemma StillUnspent(pool: Pool, next: map<OutPoint, InPoint>, part: Pool, rest: map<OutPoint, InPoint>)
    requires Indexed(pool, next) && Indexed(part, rest) && part.Items <= pool.Items
    ensures forall out :: out in rest ==> out in next && next[out] == rest[out] && next[out].id in part
  {
    forall out | out in rest
      ensures out in next && next[out] == rest[out] && next[out].id in part
    {
      IndexShrinks(pool, next, part, rest, out);
    }
  }

  /** The index with the first inputs of a transaction added. */
  function WithInputs(next: map<OutPoint, InPoint>, tx: Tx, n: nat): map<OutPoint, InPoint>
    requires n <= |tx.inputs|
  {
    if n == 0 then next else WithInputs(next, tx, n - 1)[tx.inputs[n - 1] := InPoint(tx.hash, n - 1)]
  }

  lemma WithInputsStep(next: map<OutPoint, InPoint>, tx: Tx, n: nat)
    requires n < |tx.inputs|
    ensures WithInputs(next, tx, n + 1) == WithInputs(next, tx, n)[tx.inputs[n] := InPoint(tx.hash, n)]
    ensures WithInputs(next, tx, 0) == next
  {
  }

  lemma {:induction false} WithInputsFacts(next: map<OutPoint, InPoint>, tx: Tx, n: nat)
    requires n <= |tx.inputs| && Distinct(tx.inputs) && forall i :: 0 <= i < n ==> tx.inputs[i] !in next
    ensures var longer := WithInputs(next, tx, n);
            && (forall i :: 0 <= i < n ==> tx.inputs[i] in longer && longer[tx.inputs[i]] == InPoint(tx.hash, i))
            && (forall out :: out in next ==> out in longer && longer[out] == next[out])
            && (forall out :: out in longer && out !in next ==>
                  longer[out].id == tx.hash && longer[out].n < n && tx.inputs[longer[out].n] == out)
  {
    if n > 0 {
      WithInputsFacts(next, tx, n - 1);
    }
  }

  lemma IndexAdded(pool: Pool, next: map<OutPoint, InPoint>, tx: Tx)
    requires Indexed(pool, next) && tx.hash !in pool && Distinct(tx.inputs)
    requires forall i :: 0 <= i < |tx.inputs| ==> tx.inputs[i] !in next
    ensures Indexed(pool[tx.hash := tx], WithInputs(next, tx, |tx.inputs|))
    ensures WithInputs(next, tx, 0) == next
  {
    WithInputsFacts(next, tx, |tx.inputs|);
  }

  // ---------- removing what spends a transaction ----------

  /** What has been removed so far: a closed set of descendants of the root. */
  ghost predicate Removed(pool: Pool, rank: Rank, gone: set<TxId>, root: Tx)
    requires AllRanked(pool[root.hash := root], rank)
  {
    && Closed(pool, gone)
    && forall id :: id in gone ==> id != root.hash && Descends(pool[root.hash := root], rank, root.hash, id)
  }

  lemma RemovedNone(pool: Pool, rank: Rank, root: Tx)
    requires AllRanked(pool[root.hash := root], rank)
    ensures Removed(pool, rank, {}, root)
  {
  }

  /** A transaction that spends the root, and its descendants, join what has been removed. */
  lemma SpenderStep(pool: Pool, rank: Rank, gone: set<TxId>, root: Tx, child: TxId, i: nat)
    requires AllRanked(pool[root.hash := root], rank) && (root.hash in pool ==> pool[root.hash] == root)
    requires Removed(pool, rank, gone, root) && child in pool && child !in gone
    requires i < |pool[child].inputs| && pool[child].inputs[i].hash == root.hash
    requires pool[child].inputs[i].n < |root.outputs|
    ensures rank(root.hash) < rank(child) && AllRanked(pool - gone, rank)
    ensures Removed(pool, rank, gone + Descendants(pool - gone, rank, child), root)
  {
    var all, left := pool[root.hash := root], pool - gone;
    assert all[child] == pool[child] && IsRanked(all[child], rank);
    forall id | id in pool
      ensures pool[id].hash == id && IsRanked(pool[id], rank)
    {
      assert all[id] == pool[id];
    }
    ClosedWithDescendants(pool, rank, gone, child);
    assert SpendsDescendant(all, rank, root.hash, child, i);
    Without(pool, gone);
    forall id | id in Descendants(left, rank, child)
      ensures id != root.hash && Descends(all, rank, root.hash, id)
    {
      DescendsRank(left, rank, child, id);
      DescendsVia(left, all, rank, root.hash, child, id);
    }
  }

  /** Once no output of the root is spent any more, all its descendants have been removed. */
  lemma AllSpendersGone(pool: Pool, rank: Rank, gone: set<TxId>, root: Tx, next: map<OutPoint, InPoint>)
    requires AllRanked(pool[root.hash := root], rank) && (root.hash in pool ==> pool[root.hash] == root)
    requires Removed(pool, rank, gone, root) && Indexed(pool - gone, next)
    requires forall j :: 0 <= j < |root.outputs| ==> OutPoint(root.hash, j) !in next
    ensures root.hash !in gone && Descendants(pool[root.hash := root], rank, root.hash) == gone + {root.hash}
  {
    var all := pool[root.hash := root];
    forall c, i: nat | c in pool && i < |pool[c].inputs| && pool[c].inputs[i].hash == root.hash
                       && pool[c].inputs[i].n < |root.outputs|
      ensures c in gone
    {
      assert pool[c].inputs[i] == OutPoint(root.hash, pool[c].inputs[i].n);
      if c !in gone {
        InputIndexed(pool - gone, next, c, i);
      }
    }
    forall id | id in Descendants(all, rank, root.hash) && id != root.hash
      ensures id in gone
    {
      ClosedHoldsDescendants(pool, rank, gone, root, id);
    }
  }

  // ---------- the pool ----------

  class TxMemPool {
    var mapTx: Pool
    var mapNextTx: map<OutPoint, InPoint>
    ghost const rank: Rank

    ghost predicate Valid()
      reads this
    {
      AllRanked(mapTx, rank) && Indexed(mapTx, mapNextTx)
    }

    /** A transaction as its hash says. */
    ghost predicate Genuine(tx: Tx)
      reads this
    {
      IsRanked(tx, rank) && (tx.hash in mapTx ==> mapTx[tx.hash] == tx)
    }

    constructor (ghost rank: Rank)
      ensures Valid() && mapTx == map[] && this.rank == rank
    {
      this.rank := rank;
      mapTx, mapNextTx := map[], map[];
    }

    /** Adds a transaction that is new and spends nothing that another one spends. */
    method AddUnchecked(tx: Tx)
      requires Valid() && Genuine(tx) && Distinct(tx.inputs)
      requires tx.hash !in mapTx && forall i :: 0 <= i < |tx.inputs| ==> tx.inputs[i] !in mapNextTx
      modifies this
      ensures Valid() && mapTx == old(mapTx)[tx.hash := tx]
    {
      hide Indexed, IsRanked, WithInputs;
      IndexAdded(mapTx, mapNextTx, tx);
      mapTx := mapTx[tx.hash := tx];
      var i: nat := 0;
      while i < |tx.inputs|
        invariant i <= |tx.inputs| && mapTx == old(mapTx)[tx.hash := tx]
        invariant mapNextTx == WithInputs(old(mapNextTx), tx, i)
      {
        WithInputsStep(old(mapNextTx), tx, i);
        mapNextTx := mapNextTx[tx.inputs[i] := InPoint(tx.hash, i)];
        i := i + 1;
      }
    }

    /**
     Admits a transaction unless it fails the checks, is there already, or spends what another
     pooled transaction spends. `inputsOk` stands for the checks that need coins and scripts.
     */
    method Accept(tx: Tx, inputsOk: bool) returns (ok: bool)
      requires Valid() && Genuine(tx)
      modifies this
      ensures Valid()
      ensures ok == (CheckTransaction(tx) && !tx.IsCoinBase() && inputsOk && tx.hash !in old(mapTx)
                     && forall i :: 0 <= i < |tx.inputs| ==> tx.inputs[i] !in old(mapNextTx))
      ensures mapTx == if ok then old(mapTx)[tx.hash := tx] else old(mapTx)
      ensures !ok ==> mapNextTx == old(mapNextTx)
    {
      ok := false;
      if !CheckTransaction(tx) || tx.IsCoinBase() || tx.hash in mapTx {
        return;
      }
      var i: nat := 0;
      while i < |tx.inputs|
        invariant i <= |tx.inputs| && forall j :: 0 <= j < i ==> tx.inputs[j] !in mapNextTx
      {
        if tx.inputs[i] in mapNextTx {
          return;
        }
        i := i + 1;
      }
      if !inputsOk {
        return;
      }
      AddUnchecked(tx);
      ok := true;
    }

    /** How many pooled transactions rank above one. */
    ghost function Above(id: TxId): nat
      reads this
    {
      |set t | t in mapTx && rank(t) > rank(id)|
    }

    /**
     Removes a transaction, which need not be in the pool; with `recursive`, exactly the pooled
     transactions that descend from it go with it.
     */
    method Remove(tx: Tx, recursive: bool)
      requires Valid() && Genuine(tx)
      modifies this
      ensures Valid()
      ensures mapTx == old(mapTx) - if recursive then Descendants(old(mapTx)[tx.hash := tx], rank, tx.hash) else {tx.hash}
      decreases Above(tx.hash), recursive
    {
      ghost var pool, all := mapTx, mapTx[tx.hash := tx];
      ghost var gone := {};
      if recursive {
        gone := RemoveSpenders(tx);
      }
      if tx.hash in mapTx {
        RemoveOne(tx);
      }
      assert recursive ==> Descendants(all, rank, tx.hash) == gone + {tx.hash};
      assert mapTx == pool - (gone + {tx.hash});
    }

    method RemoveOne(tx: Tx)
      requires Valid() && tx.hash in mapTx && mapTx[tx.hash] == tx
      modifies this
      ensures Valid() && mapTx == old(mapTx) - {tx.hash}
    {
      hide Indexed, IsRanked;
      IndexWithout(mapTx, mapNextTx, tx.hash);
      var i: nat := 0;
      while i < |tx.inputs|
        invariant i <= |tx.inputs| && mapTx == old(mapTx)
        invariant mapNextTx == old(mapNextTx) - set j | 0 <= j < i :: tx.inputs[j]
      {
        mapNextTx := mapNextTx - {tx.inputs[i]};
        i := i + 1;
      }
      mapTx := mapTx - {tx.hash};
    }

    /** Removes, output by output, what spends a transaction. */
    method RemoveSpenders(tx: Tx) returns (ghost gone: set<TxId>)
      requires Valid() && Genuine(tx)
      modifies this
      ensures Valid() && mapTx == old(mapTx) - gone && tx.hash !in gone
      ensures Descendants(old(mapTx)[tx.hash := tx], rank, tx.hash) == gone + {tx.hash}
      decreases Above(tx.hash), false
    {
      hide Indexed, IsRanked, Removed, Descends, Closed;
      RankedTogether(tx);
      ghost var pool := mapTx;
      ghost var all := pool[tx.hash := tx];
      gone := {};
      RemovedNone(pool, rank, tx);
      var i: nat := 0;
      while i < |tx.outputs|
        invariant i <= |tx.outputs| && Valid() && mapTx == pool - gone
        invariant AllRanked(all, rank) && Removed(pool, rank, gone, tx)
        invariant forall j :: 0 <= j < i ==> OutPoint(tx.hash, j) !in mapNextTx
      {
        var out := OutPoint(tx.hash, i);
        if out in mapNextTx {
          IndexedAt(mapTx, mapNextTx, out);
          var child := mapTx[mapNextTx[out].id];
          ghost var more := Descendants(mapTx, rank, child.hash);
          assert mapTx[child.hash := child] == mapTx;
          DescendsSelf(mapTx, rank, child.hash);
          SpenderStep(pool, rank, gone, tx, child.hash, mapNextTx[out].n);
          AboveShrinks(pool, tx.hash, child.hash);
          ghost var before, nextBefore := mapTx, mapNextTx;
          Remove(child, true);
          gone := gone + more;
          StillUnspent(before, nextBefore, mapTx, mapNextTx);
        }
        i := i + 1;
      }
      AllSpendersGone(pool, rank, gone, tx, mapNextTx);
    }

    lemma RankedTogether(tx: Tx)
      requires Valid() && Genuine(tx)
      ensures AllRanked(mapTx[tx.hash := tx], rank)
    {
    }

    lemma AboveShrinks(pool: Pool, root: TxId, child: TxId)
      requires mapTx.Items <= pool.Items && child in mapTx && rank(root) < rank(child)
      ensures Above(child) < |set t | t in pool && rank(t) > rank(root)|
    {
      var few, many := set t | t in mapTx && rank(t) > rank(child), set t | t in pool && rank(t) > rank(root);
      forall t | t in few
        ensures t in many
      {
        PartOf(mapTx, pool, t);
      }
      PartOf(mapTx, pool, child);
      assert child in many && child !in few;
      Shrinks(few, many);
    }

    /**
     Removes what spends an output that a given transaction spends, and what descends from it.
     Afterwards no other pooled transaction shares an input with the given one.
     */
    method RemoveConflicts(tx: Tx)
      requires Valid() && Genuine(tx)
      modifies this
      ensures Valid() && mapTx == old(mapTx) - ConflictsWith(old(mapTx), rank, tx)
      ensures forall id :: id in mapTx && id != tx.hash ==> !SharesInput(mapTx[id], tx)
    {
      hide Indexed, IsRanked, Descends, ClosedConflicts;
      ghost var pool := mapTx;
      ghost var gone := {};
      ConflictsNone(pool, rank, tx);
      var i: nat := 0;
      while i < |tx.inputs|
        invariant i <= |tx.inputs| && Valid() && mapTx == pool - gone
        invariant ClosedConflicts(pool, rank, gone, tx)
        invariant forall j :: 0 <= j < i && tx.inputs[j] in mapNextTx ==> mapNextTx[tx.inputs[j]].id == tx.hash
      {
        var out := tx.inputs[i];
        if out in mapNextTx {
          IndexedAt(mapTx, mapNextTx, out);
          var conflict := mapTx[mapNextTx[out].id];
          if conflict != tx {
            assert mapTx[conflict.hash := conflict] == mapTx;
            DescendsSelf(mapTx, rank, conflict.hash);
            ConflictStep(pool, rank, gone, tx, conflict.hash, mapNextTx[out].n, i);
            gone := gone + Descendants(mapTx, rank, conflict.hash);
            ghost var before, nextBefore := mapTx, mapNextTx;
            Remove(conflict, true);
            StillUnspent(before, nextBefore, mapTx, mapNextTx);
          }
        }
        i := i + 1;
      }
      AllConflictsGone(pool, rank, gone, tx, mapNextTx);
    }

    /** What the pool does when a block is connected: its transactions leave, and so does all that conflicts with them. */
    method BlockConnected(txs: seq<Tx>)
      requires Valid() && forall i :: 0 <= i < |txs| ==> Genuine(txs[i])
      modifies this
      ensures Valid() && mapTx.Items <= old(mapTx).Items
      ensures mapTx == AfterBlock(old(mapTx), rank, txs)
      ensures forall i, id :: 0 <= i < |txs| && id in mapTx ==> id != txs[i].hash && !SharesInput(mapTx[id], txs[i])
      ensures forall id :: id in old(mapTx) && id !in mapTx ==> HasToGo(old(mapTx), rank, txs, id)
    {
      hide Indexed, Descends, IsRanked, HasToGo, AfterBlock, ConflictsWith;
      var k: nat := 0;
      AfterNoBlock(mapTx, rank);
      assert txs[..0] == [];
      while k < |txs|
        invariant k <= |txs| && Valid() && mapTx.Items <= old(mapTx).Items
        invariant mapTx == AfterBlock(old(mapTx), rank, txs[..k])
        invariant forall i :: 0 <= i < |txs| ==> Genuine(txs[i])
        invariant forall i, id :: 0 <= i < k && id in mapTx ==> id != txs[i].hash && !SharesInput(mapTx[id], txs[i])
        invariant forall id :: id in old(mapTx) && id !in mapTx ==> HasToGo(old(mapTx), rank, txs, id)
      {
        ghost var before := mapTx;
        AfterBlockStep(old(mapTx), rank, txs, k);
        Remove(txs[k], false);
        Without(before, {txs[k].hash});
        ghost var between := mapTx;
        RemoveConflicts(txs[k]);
        Without(between, ConflictsWith(between, rank, txs[k]));
        GoneWith(old(mapTx), rank, txs, k, between);
        forall i | 0 <= i < |txs|
          ensures Genuine(txs[i])
        {
        }
        k := k + 1;
      }
      assert txs[..|txs|] == txs;
    }
  }

  lemma AfterNoBlock(pool: Pool, rank: Rank)
    requires AllRanked(pool, rank)
    ensures AfterBlock(pool, rank, []) == pool
  {
  }

  // ---------- removing what conflicts with a transaction ----------

  predicate SharesInput(a: Tx, b: Tx) {
    exists i, j :: 0 <= i < |a.inputs| && 0 <= j < |b.inputs| && a.inputs[i] == b.inputs[j]
  }

  ghost predicate InConflict(pool: Pool, rank: Rank, tx: Tx, root: TxId, id: TxId)
    requires AllRanked(pool, rank)
  {
    root in pool && root != tx.hash && SharesInput(pool[root], tx) && Descends(pool, rank, root, id)
  }

  /** What conflicts with a transaction, with all descendants. */
  ghost function ConflictsWith(pool: Pool, rank: Rank, tx: Tx): set<TxId>
    requires AllRanked(pool, rank)
  {
    set id | id in pool && exists root :: InConflict(pool, rank, tx, root, id)
  }

  /** The pool after a block: one transaction after the other leaves, and then all that conflicts with it. */
  ghost function AfterBlock(pool: Pool, rank: Rank, txs: seq<Tx>): (r: Pool)
    requires AllRanked(pool, rank)
    ensures AllRanked(r, rank)
  {
    if txs == [] then
      pool
    else
      var k := |txs| - 1;
      var left := AfterBlock(pool, rank, txs[..k]) - {txs[k].hash};
      left - ConflictsWith(left, rank, txs[k])
  }

  lemma AfterBlockStep(pool: Pool, rank: Rank, txs: seq<Tx>, k: nat)
    requires AllRanked(pool, rank) && k < |txs|
    ensures var left := AfterBlock(pool, rank, txs[..k]) - {txs[k].hash};
            AllRanked(left, rank) && AfterBlock(pool, rank, txs[..k + 1]) == left - ConflictsWith(left, rank, txs[k])
  {
    hide ConflictsWith, IsRanked;
    assert txs[..k + 1][..k] == txs[..k];
  }

  /** What a block takes out of the pool: its own transactions, those that conflict with it, and their descendants. */
  ghost predicate HasToGo(pool: Pool, rank: Rank, txs: seq<Tx>, id: TxId)
    requires AllRanked(pool, rank)
  {
    exists i :: 0 <= i < |txs| && (id == txs[i].hash || id in ConflictsWith(pool, rank, txs[i]))
  }

  /** What conflicts with a transaction in part of a pool does so in the whole pool. */
  lemma GoneWith(pool: Pool, rank: Rank, txs: seq<Tx>, k: nat, part: Pool)
    requires AllRanked(pool, rank) && AllRanked(part, rank) && part.Items <= pool.Items && k < |txs|
    ensures forall id :: id == txs[k].hash || id in ConflictsWith(part, rank, txs[k]) ==> HasToGo(pool, rank, txs, id)
  {
    forall id | id in ConflictsWith(part, rank, txs[k])
      ensures id in ConflictsWith(pool, rank, txs[k])
    {
      var root :| InConflict(part, rank, txs[k], root, id);
      PartOf(part, pool, root);
      PartOf(part, pool, id);
      DescendsVia(part, pool, rank, root, root, id);
      assert InConflict(pool, rank, txs[k], root, id);
    }
  }

  ghost predicate ClosedConflicts(pool: Pool, rank: Rank, gone: set<TxId>, tx: Tx)
    requires AllRanked(pool, rank)
  {
    Closed(pool, gone) && gone <= ConflictsWith(pool, rank, tx)
  }

  lemma ConflictsNone(pool: Pool, rank: Rank, tx: Tx)
    requires AllRanked(pool, rank)
    ensures ClosedConflicts(pool, rank, {}, tx)
  {
  }

  lemma ConflictStep(pool: Pool, rank: Rank, gone: set<TxId>, tx: Tx, root: TxId, i: nat, j: nat)
    requires AllRanked(pool, rank) && ClosedConflicts(pool, rank, gone, tx)
    requires root in pool && root !in gone && root != tx.hash
    requires i < |pool[root].inputs| && j < |tx.inputs| && pool[root].inputs[i] == tx.inputs[j]
    ensures AllRanked(pool - gone, rank)
    ensures ClosedConflicts(pool, rank, gone + Descendants(pool - gone, rank, root), tx)
  {
    ClosedWithDescendants(pool, rank, gone, root);
    Without(pool, gone);
    forall id | id in Descendants(pool - gone, rank, root)
      ensures InConflict(pool, rank, tx, root, id)
    {
      DescendsVia(pool - gone, pool, rank, root, root, id);
    }
  }

  /** A closed set with the root in it holds all descendants of the root. */
  lemma {:induction false} ClosedFromRoot(pool: Pool, rank: Rank, gone: set<TxId>, root: TxId, id: TxId)
    requires AllRanked(pool, rank) && Closed(pool, gone) && root in gone && Descends(pool, rank, root, id)
    ensures id in gone
    decreases rank(id)
  {
    if id != root {
      var i :| 0 <= i < |pool[id].inputs| && SpendsDescendant(pool, rank, root, id, i);
      assert IsRanked(pool[id], rank);
      ClosedFromRoot(pool, rank, gone, root, pool[id].inputs[i].hash);
    }
  }

  lemma AllConflictsGone(pool: Pool, rank: Rank, gone: set<TxId>, tx: Tx, next: map<OutPoint, InPoint>)
    requires AllRanked(pool, rank) && ClosedConflicts(pool, rank, gone, tx) && Indexed(pool - gone, next)
    requires forall j :: 0 <= j < |tx.inputs| && tx.inputs[j] in next ==> next[tx.inputs[j]].id == tx.hash
    ensures ConflictsWith(pool, rank, tx) == gone
    ensures forall id :: id in pool - gone && id != tx.hash ==> !SharesInput(pool[id], tx)
  {
    var left := pool - gone;
    forall id | id in left && id != tx.hash
      ensures !SharesInput(pool[id], tx)
    {
      forall i, j | 0 <= i < |pool[id].inputs| && 0 <= j < |tx.inputs|
        ensures pool[id].inputs[i] != tx.inputs[j]
      {
        assert next[left[id].inputs[i]] == InPoint(id, i);
      }
    }
    forall id | id in ConflictsWith(pool, rank, tx)
      ensures id in gone
    {
      var root :| InConflict(pool, rank, tx, root, id);
      ClosedFromRoot(pool, rank, gone, root, id);
    }
  }
}
