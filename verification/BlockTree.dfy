/**
 The tree of known blocks, and what it means to replay the branch that ends in a block.
 A tip is an optional block: no tip is the state before the genesis block.
 */
module BlockTree {
  import opened Common
  import opened Coins
  import opened Blocks
  import opened Stored
  import Money
  import Target

  type Tip = Option<BlockId>

  /** The part of a block index entry that never changes. Only the genesis block has no predecessor. */
  datatype BlockIndex = BlockIndex(prev: Tip, height: nat, work: nat, block: Block)

  type Tree = map<BlockId, BlockIndex>

  ghost predicate WellFormed(t: Tree) {
    && (forall id :: id in t && t[id].prev.None? ==> t[id].height == 0)
    && (forall id :: id in t && t[id].prev.Some? ==> FollowsOn(t, t[id].prev.value, t[id]))
    && (forall a, b :: a in t && b in t && t[a].prev.None? && t[b].prev.None? ==> a == b)
  }

  ghost predicate FollowsOn(t: Tree, parent: BlockId, node: BlockIndex) {
    parent in t && node.height == t[parent].height + 1 && node.work > t[parent].work
  }

  ghost predicate Known(t: Tree, tip: Tip) {
    tip.Some? ==> tip.value in t
  }

  ghost function Depth(t: Tree, tip: Tip): nat
    requires Known(t, tip)
  {
    if tip.None? then 0 else t[tip.value].height + 1
  }

  // ---------- ancestors ----------

  /** Is `a` on the branch that ends in `b`? */
  ghost predicate Ancestor(t: Tree, a: Tip, b: Tip)
    requires WellFormed(t) && Known(t, b)
    decreases Depth(t, b)
  {
    a == b || (b.Some? && Ancestor(t, a, t[b.value].prev))
  }

  lemma {:induction false} AncestorFacts(t: Tree, a: Tip, b: Tip)
    requires WellFormed(t) && Known(t, b) && Ancestor(t, a, b)
    ensures Known(t, a)
    ensures a == b || Depth(t, a) < Depth(t, b)
    ensures a.Some? && a != b ==> t[a.value].work < t[b.value].work
    decreases Depth(t, b)
  {
    if a != b {
      AncestorFacts(t, a, t[b.value].prev);
    }
  }

  lemma AncestorRefl(t: Tree, a: Tip)
    requires WellFormed(t) && Known(t, a)
    ensures Ancestor(t, a, a)
  {
  }

  lemma {:induction false} AncestorTrans(t: Tree, a: Tip, b: Tip, c: Tip)
    requires WellFormed(t) && Known(t, c) && Ancestor(t, b, c)
    requires Known(t, b) && Ancestor(t, a, b)
    ensures Ancestor(t, a, c)
    decreases Depth(t, c)
  {
    if b != c {
      AncestorTrans(t, a, b, t[c.value].prev);
    }
  }

  /** The ancestors of a block form a line. */
  lemma {:induction false} AncestorsLinear(t: Tree, a: Tip, b: Tip, c: Tip)
    requires WellFormed(t) && Known(t, c) && Ancestor(t, a, c) && Ancestor(t, b, c)
    requires Known(t, a) && Known(t, b) && Depth(t, a) <= Depth(t, b)
    ensures Ancestor(t, a, b)
    decreases Depth(t, c)
  {
    AncestorFacts(t, b, c);
    if b != c {
      AncestorFacts(t, a, c);
      AncestorsLinear(t, a, b, t[c.value].prev);
    }
  }

  lemma {:induction false} NothingIsAncestorOfAll(t: Tree, b: Tip)
    requires WellFormed(t) && Known(t, b)
    ensures Ancestor(t, None, b)
    decreases Depth(t, b)
  {
    if b.Some? {
      NothingIsAncestorOfAll(t, t[b.value].prev);
    }
  }

  /** A block cannot follow its own descendant. */
  lemma NoAncestorFollows(t: Tree, a: BlockId, b: Tip)
    requires WellFormed(t) && Known(t, b) && a in t && t[a].prev == b
    ensures !Ancestor(t, Some(a), b)
  {
    if Ancestor(t, Some(a), b) {
      AncestorFacts(t, Some(a), b);
    }
  }

  // ---------- chain work ----------

  /** The work of all blocks of the branch that ends in `tip`. */
  ghost function ChainWork(t: Tree, tip: Tip): nat
    requires WellFormed(t) && Known(t, tip)
    decreases Depth(t, tip)
  {
    if tip.None? then 0 else ChainWork(t, t[tip.value].prev) + Target.Work(t[tip.value].block.bits)
  }

  /** Every index entry shows the work of its whole branch. */
  ghost predicate WorkIsRight(t: Tree)
    requires WellFormed(t)
  {
    forall id :: id in t ==> t[id].work == ChainWork(t, Some(id))
  }

  lemma {:induction false} ChainWorkGrow(t: Tree, t': Tree, tip: Tip)
    requires Grows(t, t') && Known(t, tip)
    ensures ChainWork(t', tip) == ChainWork(t, tip)
    decreases Depth(t, tip)
  {
    hide Target.Work;
    if tip.Some? {
      ChainWorkGrow(t, t', t[tip.value].prev);
    }
  }

  /** A new entry that adds the work of its block to that of its predecessor keeps all work right. */
  lemma WorkGrow(t: Tree, id: BlockId, node: BlockIndex)
    requires id !in t && Grows(t, t[id := node]) && WorkIsRight(t) && Known(t, node.prev)
    requires node.work == (if node.prev.Some? then t[node.prev.value].work else 0) + Target.Work(node.block.bits)
    ensures WorkIsRight(t[id := node])
  {
    hide Target.Work;
    var t' := t[id := node];
    forall b | b in t'
      ensures t'[b].work == ChainWork(t', Some(b))
    {
      if b == id {
        ChainWorkGrow(t, t', node.prev);
      } else {
        ChainWorkGrow(t, t', Some(b));
      }
    }
  }

  // ---------- replay ----------

  /** Connecting the block of an index entry. The genesis block adds no coins. */
  function Extend(s: CoinSet, node: BlockIndex, verified: bool): Option<Connected> {
    if node.prev.None? then
      if CheckBlock(node.block) && verified then Some(Connected(s, [], 0, 0, 0)) else None
    else
      Connect(s, node.block, node.height, verified)
  }

  /** The coin set after connecting, from nothing, every block of the branch that ends in `tip`. */
  ghost function Replay(t: Tree, tip: Tip): Option<CoinSet>
    requires WellFormed(t) && Known(t, tip)
    decreases Depth(t, tip)
  {
    if tip.None? then
      Some(map[])
    else
      match Replay(t, t[tip.value].prev)
      case None => None
      case Some(s) =>
        match Extend(s, t[tip.value], true)
        case None => None
        case Some(c) => Some(c.coins)
  }

  lemma {:induction false} ReplayIsValid(t: Tree, tip: Tip)
    requires WellFormed(t) && Known(t, tip) && Replay(t, tip).Some?
    ensures ValidSet(Replay(t, tip).value)
    decreases Depth(t, tip)
  {
    if tip.Some? {
      var node := t[tip.value];
      ReplayIsValid(t, node.prev);
      if node.prev.Some? {
        DisconnectAfterConnect(Replay(t, node.prev).value, node.block, node.height, true);
      }
    }
  }

  lemma {:induction false} ReplayOfAncestor(t: Tree, a: Tip, b: Tip)
    requires WellFormed(t) && Known(t, b) && Known(t, a) && Ancestor(t, a, b) && Replay(t, b).Some?
    ensures Replay(t, a).Some?
    decreases Depth(t, b)
  {
    if a != b {
      ReplayOfAncestor(t, a, t[b.value].prev);
    }
  }

  // ---------- growth ----------

  ghost predicate Grows(t: Tree, t': Tree) {
    WellFormed(t) && WellFormed(t') && forall id :: id in t ==> id in t' && t'[id] == t[id]
  }

  lemma {:induction false} AncestorGrow(t: Tree, t': Tree, a: Tip, b: Tip)
    requires Grows(t, t') && Known(t, b)
    ensures Ancestor(t', a, b) <==> Ancestor(t, a, b)
    decreases Depth(t, b)
  {
    if b.Some? {
      AncestorGrow(t, t', a, t[b.value].prev);
    }
  }

  lemma {:induction false} ReplayGrow(t: Tree, t': Tree, tip: Tip)
    requires Grows(t, t') && Known(t, tip)
    ensures Replay(t', tip) == Replay(t, tip)
    decreases Depth(t, tip)
  {
    hide Extend;
    if tip.Some? {
      ReplayGrow(t, t', t[tip.value].prev);
    }
  }

  // ---------- what is recorded about connected blocks ----------

  /** What is read back of the undo data that replaying the branch up to block `id` writes for it. */
  ghost predicate UndoFits(t: Tree, id: BlockId, undo: BlockUndo)
    requires WellFormed(t)
  {
    && id in t
    && t[id].prev.Some?
    && Replay(t, Some(id)).Some?
    && undo == StoredUndo(Extend(Replay(t, t[id].prev).value, t[id], true).value.undo)
  }

  /** Undo data that fits takes the coins of a block back to those of its predecessor, but for lost versions. */
  lemma UndoTakesBack(t: Tree, id: BlockId, undo: BlockUndo, s: CoinSet)
    requires WellFormed(t) && UndoFits(t, id, undo) && Fades(Replay(t, Some(id)).value, s)
    ensures ChecksOut(t[id].block.txs) && t[id].block.txs != []
    ensures Replay(t, t[id].prev).Some?
    ensures var before := Replay(t, t[id].prev).value;
            && Disconnect(s, t[id].block, t[id].height, undo) == Some(Restored(before, s))
            && Fades(before, Restored(before, s))
  {
    hide Connect, Disconnect, Fades, Restored;
    ReplayIsValid(t, t[id].prev);
    DisconnectStored(Replay(t, t[id].prev).value, t[id].block, t[id].height, true, s);
    ConnectChecks(Replay(t, t[id].prev).value, t[id].block, t[id].height);
  }

  /** The checks that are not modelled can only add to the reasons to refuse a block. */
  lemma ConnectVerified(s: CoinSet, b: Block, height: nat, verified: bool)
    ensures Connect(s, b, height, verified) == if verified then Connect(s, b, height, true) else None
  {
  }

  lemma ConnectIsChecked(s: CoinSet, b: Block, height: nat)
    requires Connect(s, b, height, true).Some?
    ensures ConnectChecked(s, b, height) == Connect(s, b, height, true)
  {
  }

  lemma ConnectChecks(s: CoinSet, b: Block, height: nat)
    requires Connect(s, b, height, true).Some?
    ensures ChecksOut(b.txs) && b.txs != []
  {
  }

  /** The money supply a block index entry should show. */
  ghost predicate SupplyFits(t: Tree, tip: Tip, supply: int)
    requires WellFormed(t) && Known(t, tip)
  {
    Replay(t, tip).Some? ==> supply == Money.Total(Replay(t, tip).value)
  }

  lemma SupplyAfter(t: Tree, id: BlockId, before: int)
    requires WellFormed(t) && id in t && SupplyFits(t, t[id].prev, before) && Replay(t, Some(id)).Some?
    ensures var c := Extend(Replay(t, t[id].prev).value, t[id], true).value;
            SupplyFits(t, Some(id), before + c.valueOut - c.valueIn)
  {
    hide Connect, CheckBlock, Money.Total;
    var node := t[id];
    if node.prev.Some? {
      Money.TotalAfterConnect(Replay(t, node.prev).value, node.block, node.height, true);
    }
  }

  /** Connecting a block to the coins of its branch is one more step of the replay. */
  lemma ExtendReplays(t: Tree, id: BlockId, before: int, verified: bool, s: CoinSet)
    requires WellFormed(t) && id in t && SupplyFits(t, t[id].prev, before)
    requires Replay(t, t[id].prev).Some? && Fades(Replay(t, t[id].prev).value, s)
    ensures var c := Extend(s, t[id], verified);
            && (t[id].prev.Some? ==> t[id].height > 0)
            && c.Some? == (verified && Replay(t, Some(id)).Some?)
            && (c.Some? ==>
                  && Fades(Replay(t, Some(id)).value, c.value.coins)
                  && SupplyFits(t, Some(id), before + c.value.valueOut - c.value.valueIn)
                  && (t[id].prev.Some? ==> UndoFits(t, id, StoredUndo(c.value.undo))))
  {
    hide Connect, CheckBlock, Money.Total, Fades, StoredUndo;
    var node, was := t[id], Replay(t, t[id].prev).value;
    ConnectVerified(was, node.block, node.height, verified);
    ConnectFades(was, s, node.block, node.height, verified);
    if Replay(t, Some(id)).Some? {
      SupplyAfter(t, id, before);
    }
  }

  /** What the transactions of a block alone do to the money supply is right, whether or not the block connects. */
  lemma CheckedSupply(t: Tree, id: BlockId, before: int, s: CoinSet)
    requires WellFormed(t) && id in t && t[id].prev.Some? && SupplyFits(t, t[id].prev, before)
    requires Replay(t, t[id].prev).Some? && Fades(Replay(t, t[id].prev).value, s)
    requires ConnectChecked(s, t[id].block, t[id].height).Some?
    ensures var c := ConnectChecked(s, t[id].block, t[id].height).value;
            SupplyFits(t, Some(id), before + c.valueOut - c.valueIn)
  {
    hide Connect, ConnectChecked, CheckBlock, Money.Total, Fades, StoredUndo;
    var node, was := t[id], Replay(t, t[id].prev).value;
    if Replay(t, Some(id)).Some? {
      ConnectFades(was, s, node.block, node.height, true);
      ConnectIsChecked(was, node.block, node.height);
      SupplyAfter(t, id, before);
    }
  }

  /** No transaction of the branch that ends in `tip` has a negative version. */
  ghost predicate PlainVersions(t: Tree, tip: Tip)
    requires WellFormed(t) && Known(t, tip)
  {
    forall id :: id in t && Ancestor(t, Some(id), tip) ==> PlainBlock(t[id].block)
  }

  predicate PlainBlock(b: Block) {
    forall i :: 0 <= i < |b.txs| ==> b.txs[i].version >= 0
  }

  ghost predicate PlainSet(s: CoinSet) {
    forall id :: id in s ==> s[id].version >= 0
  }

  lemma {:induction false} ReplayIsPlain(t: Tree, tip: Tip)
    requires WellFormed(t) && Known(t, tip) && Replay(t, tip).Some? && PlainVersions(t, tip)
    ensures PlainSet(Replay(t, tip).value)
    decreases Depth(t, tip)
  {
    hide Connect, CheckBlock, PlainSet, PlainBlock;
    if tip.None? {
      EmptyIsPlain();
    } else {
      var node := t[tip.value];
      assert Ancestor(t, tip, tip);
      ReplayIsPlain(t, node.prev);
      ConnectPlain(Replay(t, node.prev).value, node.block, node.height);
    }
  }

  lemma EmptyIsPlain()
    ensures PlainSet(map[])
  {
  }

  lemma ConnectPlain(s: CoinSet, b: Block, height: nat)
    requires PlainSet(s) && PlainBlock(b)
    ensures Connect(s, b, height, true).Some? ==> PlainSet(Connect(s, b, height, true).value.coins)
  {
    if Connect(s, b, height, true).Some? {
      ConnectTxsPlain(s, b.txs, height);
    }
  }

  lemma {:induction false} ConnectTxsPlain(s: CoinSet, txs: seq<Tx>, height: nat)
    requires ChecksOut(txs) && ConnectTxs(s, txs, height).Some? && PlainSet(s)
    requires forall i :: 0 <= i < |txs| ==> txs[i].version >= 0
    ensures PlainSet(ConnectTxs(s, txs, height).value.coins)
  {
    if txs != [] {
      var k := |txs| - 1;
      ConnectTxsPlain(s, txs[..k], height);
      ConnectTxPlain(ConnectTxs(s, txs[..k], height).value, txs[k], height);
    }
  }

  lemma ConnectTxPlain(c: Connected, tx: Tx, height: nat)
    requires Distinct(tx.inputs) && ConnectTx(c, tx, height).Some? && PlainSet(c.coins) && tx.version >= 0
    ensures PlainSet(ConnectTx(c, tx, height).value.coins)
  {
    ConnectTxVersions(c, tx, height);
    assert ConnectTx(c, tx, height).value.coins[tx.hash] == CoinsOf(tx, height);
  }

  /** Where no version is negative, nothing is lost. */
  lemma PlainReplay(t: Tree, tip: Tip, s: CoinSet)
    requires WellFormed(t) && Known(t, tip) && Replay(t, tip).Some? && PlainVersions(t, tip)
    requires Fades(Replay(t, tip).value, s)
    ensures Replay(t, tip) == Some(s)
  {
    ReplayIsPlain(t, tip);
    NothingToLose(Replay(t, tip).value, s);
  }

  /** Along any branch that replays, a block adds at most its subsidy to the money supply. */
  lemma SupplyGrowth(t: Tree, id: BlockId, before: int, after: int)
    requires WellFormed(t) && id in t && Replay(t, Some(id)).Some?
    requires SupplyFits(t, t[id].prev, before) && SupplyFits(t, Some(id), after)
    ensures after <= before + Target.Mint(t[id].block.bits)
  {
    hide Connect, CheckBlock, Money.Total, Target.Mint;
    var node := t[id];
    if node.prev.Some? {
      Money.GrowthIsAtMostMint(Replay(t, node.prev).value, node.block, node.height, true);
    }
  }

  // ---------- the forward pointers ----------

  /** `next` leads from each block of the branch that ends in `tip` to its successor there. */
  ghost predicate NextIsMain(t: Tree, tip: Tip, next: map<BlockId, BlockId>)
    requires WellFormed(t) && Known(t, tip)
  {
    && (forall a :: a in next ==> next[a] in t && t[next[a]].prev == Some(a) && Ancestor(t, Some(next[a]), tip))
    && (forall b :: b in t && t[b].prev.Some? && Ancestor(t, Some(b), tip) ==>
          t[b].prev.value in next && next[t[b].prev.value] == b)
  }

  /** Not being the last block, a block has a successor exactly when it is on the branch. */
  lemma {:induction false} NextMeansMain(t: Tree, tip: Tip, next: map<BlockId, BlockId>, id: BlockId)
    requires WellFormed(t) && Known(t, tip) && NextIsMain(t, tip, next) && id in t
    ensures (id in next || tip == Some(id)) <==> Ancestor(t, Some(id), tip)
    ensures tip == Some(id) ==> id !in next
  {
    if id in next {
      AncestorTrans(t, Some(id), Some(next[id]), tip);
      if tip == Some(id) {
        NoAncestorFollows(t, next[id], tip);
      }
    } else if Ancestor(t, Some(id), tip) && tip != Some(id) {
      var b := Successor(t, id, tip);
      assert false;
    }
  }

  /** The block after `id` on the branch that ends in `tip`. */
  lemma {:induction false} Successor(t: Tree, id: BlockId, tip: Tip) returns (b: BlockId)
    requires WellFormed(t) && Known(t, tip) && Ancestor(t, Some(id), tip) && tip != Some(id)
    ensures b in t && t[b].prev == Some(id) && Ancestor(t, Some(b), tip)
    decreases Depth(t, tip)
  {
    if t[tip.value].prev == Some(id) {
      b := tip.value;
    } else {
      b := Successor(t, id, t[tip.value].prev);
    }
  }

  lemma NextAfterDisconnect(t: Tree, id: BlockId, next: map<BlockId, BlockId>)
    requires WellFormed(t) && id in t && NextIsMain(t, Some(id), next)
    ensures NextIsMain(t, t[id].prev, if t[id].prev.Some? then next - {t[id].prev.value} else next)
  {
    var prev := t[id].prev;
    var next' := if prev.Some? then next - {prev.value} else next;
    forall a | a in next'
      ensures next'[a] in t && t[next'[a]].prev == Some(a) && Ancestor(t, Some(next'[a]), prev)
    {
      assert a in next && prev != Some(a) && Ancestor(t, Some(next[a]), Some(id));
    }
    forall b | b in t && t[b].prev.Some? && Ancestor(t, Some(b), prev)
      ensures t[b].prev.value in next' && next'[t[b].prev.value] == b
    {
      AncestorFacts(t, Some(b), prev);
      assert Ancestor(t, Some(b), Some(id));
    }
  }

  lemma NextAfterConnect(t: Tree, id: BlockId, next: map<BlockId, BlockId>)
    requires WellFormed(t) && id in t && NextIsMain(t, t[id].prev, next)
    ensures NextIsMain(t, Some(id), if t[id].prev.Some? then next[t[id].prev.value := id] else next)
  {
    var prev := t[id].prev;
    var next' := if prev.Some? then next[prev.value := id] else next;
    forall a | a in next'
      ensures next'[a] in t && t[next'[a]].prev == Some(a) && Ancestor(t, Some(next'[a]), Some(id))
    {
      if prev != Some(a) {
        assert Ancestor(t, Some(next[a]), prev);
      }
    }
    forall b | b in t && t[b].prev.Some? && Ancestor(t, Some(b), Some(id))
      ensures t[b].prev.value in next' && next'[t[b].prev.value] == b
    {
      if b != id && t[b].prev == prev {
        NoAncestorFollows(t, b, prev);
      }
    }
  }
}
