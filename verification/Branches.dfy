/**
 Branches of the block tree as the node walks them, and what it keeps on record about the
 blocks it has connected.
 */
module Branches {
  import opened Common
  import opened Coins
  import opened Blocks
  import opened BlockTree
  import opened CoinsView
  import opened Stored

  /** From each block of `path` to its predecessor, from `top` down to, but without, `bottom`. */
  ghost predicate Descends(t: Tree, top: Tip, path: seq<BlockId>, bottom: Tip)
    requires WellFormed(t)
    decreases |path|
  {
    if path == [] then
      top == bottom
    else
      top == Some(path[0]) && path[0] in t && Descends(t, t[path[0]].prev, path[1..], bottom)
  }

  /** The tip reached after stepping down past the first i blocks of a path. */
  ghost function TipAt(path: seq<BlockId>, bottom: Tip, i: nat): Tip
    requires i <= |path|
  {
    if i < |path| then Some(path[i]) else bottom
  }

  lemma {:induction false} DescendsEnds(t: Tree, top: Tip, path: seq<BlockId>, bottom: Tip)
    requires WellFormed(t) && Known(t, top) && Descends(t, top, path, bottom)
    ensures Known(t, bottom) && Ancestor(t, bottom, top) && TipAt(path, bottom, 0) == top
    decreases |path|
  {
    if path != [] {
      DescendsEnds(t, t[path[0]].prev, path[1..], bottom);
    }
  }

  lemma {:induction false} DescendsAt(t: Tree, top: Tip, path: seq<BlockId>, bottom: Tip, i: nat)
    requires WellFormed(t) && Known(t, top) && Descends(t, top, path, bottom) && i <= |path|
    ensures Known(t, TipAt(path, bottom, i)) && Descends(t, TipAt(path, bottom, i), path[i..], bottom)
    ensures i < |path| ==> path[i] in t && t[path[i]].prev == TipAt(path, bottom, i + 1)
    ensures Ancestor(t, TipAt(path, bottom, i), top)
    decreases i
  {
    if i == 0 {
      assert path[0..] == path;
      if path != [] {
        DescendsEnds(t, t[path[0]].prev, path[1..], bottom);
        assert |path| > 1 ==> path[1..][0] == path[1];
      }
    } else {
      DescendsAt(t, t[path[0]].prev, path[1..], bottom, i - 1);
      assert path[1..][i - 1..] == path[i..];
      assert i < |path| ==> path[1..][i - 1] == path[i];
    }
  }

  lemma {:induction false} DescendsExtend(t: Tree, top: Tip, path: seq<BlockId>, id: BlockId)
    requires WellFormed(t) && Known(t, top) && id in t && Descends(t, top, path, Some(id))
    ensures Descends(t, top, path + [id], t[id].prev)
    decreases |path|
  {
    if path == [] {
      assert (path + [id])[1..] == [];
    } else {
      DescendsExtend(t, t[path[0]].prev, path[1..], id);
      assert (path + [id])[1..] == path[1..] + [id];
    }
  }

  /** The tip is at `tip`, and the view holds what replaying its branch gives, but for lost versions. */
  ghost predicate AtTip(t: Tree, tip: Tip, view: CoinsViewCache)
    requires WellFormed(t) && view.Valid()
    reads view.Repr
  {
    && Known(t, tip)
    && view.Best() == tip
    && AllTidy(view.Contents())
    && Replay(t, tip).Some?
    && Fades(Replay(t, tip).value, Live(view.Contents()))
  }

  /** The same, with the tip on record in the view itself. */
  ghost predicate ViewAt(t: Tree, tip: Tip, view: CoinsViewCache)
    requires WellFormed(t) && view.Valid()
    reads view.Repr
  {
    AtTip(t, tip, view) && (tip.Some? ==> view.tip == tip)
  }

  /** What was on record stays as it was written. */
  ghost predicate Keeps(before: map<BlockId, BlockUndo>, after: map<BlockId, BlockUndo>) {
    forall id :: id in before ==> id in after && after[id] == before[id]
  }

  /** Undo data exists for every block of the branch but the genesis block. */
  ghost predicate Undoable(t: Tree, tip: Tip, undo: map<BlockId, BlockUndo>)
    requires WellFormed(t) && Known(t, tip)
  {
    forall id :: id in t && t[id].prev.Some? && Ancestor(t, Some(id), tip) ==> id in undo
  }

  ghost predicate UndoIsRight(t: Tree, undo: map<BlockId, BlockUndo>)
    requires WellFormed(t)
  {
    forall id :: id in undo ==> UndoFits(t, id, undo[id])
  }

  function SupplyAt(supply: map<BlockId, int>, tip: Tip): int {
    if tip.Some? && tip.value in supply then supply[tip.value] else 0
  }

  ghost predicate SupplyIsRight(t: Tree, tip: Tip, supply: map<BlockId, int>)
    requires WellFormed(t) && Known(t, tip)
  {
    forall id :: id in t && Ancestor(t, Some(id), tip) ==> SupplyFits(t, Some(id), SupplyAt(supply, Some(id)))
  }

  /** A money supply on record is right on every branch; the genesis block never gets one. */
  ghost predicate SupplyRecorded(t: Tree, supply: map<BlockId, int>)
    requires WellFormed(t)
  {
    forall id :: id in supply ==> id in t && t[id].prev.Some? && SupplyFits(t, Some(id), supply[id])
  }

  lemma RecordUndo(t: Tree, undo: map<BlockId, BlockUndo>, id: BlockId, blockUndo: BlockUndo)
    requires WellFormed(t) && UndoIsRight(t, undo) && UndoFits(t, id, blockUndo)
    ensures UndoIsRight(t, undo[id := blockUndo])
  {
    hide UndoFits;
  }

  lemma RecordSupply(t: Tree, supply: map<BlockId, int>, id: BlockId, amount: int)
    requires WellFormed(t) && SupplyRecorded(t, supply) && id in t && t[id].prev.Some? && SupplyFits(t, Some(id), amount)
    ensures SupplyRecorded(t, supply[id := amount])
  {
    hide SupplyFits;
  }

  lemma SomeUndoHasOutputs(t: Tree, id: BlockId, undo: BlockUndo)
    requires WellFormed(t) && UndoFits(t, id, undo)
    ensures NoNullUndo(undo)
  {
    UndoOfConnect(Replay(t, t[id].prev).value, t[id].block, t[id].height);
    StoredHasOutputs(Extend(Replay(t, t[id].prev).value, t[id], true).value.undo);
  }

  lemma StoredHasOutputs(undo: BlockUndo)
    requires NoNullUndo(undo)
    ensures NoNullUndo(StoredUndo(undo))
  {
  }

  lemma PathMembers(t: Tree, top: Tip, path: seq<BlockId>, bottom: Tip, id: BlockId)
    requires WellFormed(t) && Known(t, top) && Descends(t, top, path, bottom)
    ensures Known(t, bottom)
    ensures id in path <==> Ancestor(t, Some(id), top) && !Ancestor(t, Some(id), bottom)
    decreases |path|
  {
    DescendsEnds(t, top, path, bottom);
    if path != [] {
      var below := t[path[0]].prev;
      PathMembers(t, below, path[1..], bottom, id);
      DescendsEnds(t, below, path[1..], bottom);
      if Ancestor(t, Some(path[0]), bottom) {
        AncestorTrans(t, Some(path[0]), bottom, below);
        NoAncestorFollows(t, path[0], below);
      }
    }
  }

  /** Can the branch of `id` replace the branch of `best`? The shared part is not checked again. */
  ghost predicate Acceptable(t: Tree, best: Tip, id: BlockId, verify: BlockId -> bool)
    requires WellFormed(t) && Known(t, best) && id in t
  {
    && Replay(t, Some(id)).Some?
    && forall b :: b in t && Ancestor(t, Some(b), Some(id)) && !Ancestor(t, Some(b), best) ==> verify(b)
  }

  /** No block of a branch is marked as failed. */
  ghost predicate Unfailed(t: Tree, failed: set<BlockId>, tip: Tip)
    requires WellFormed(t) && Known(t, tip)
  {
    forall b :: b in failed ==> !Ancestor(t, Some(b), tip)
  }

  /** A block on the way to `id`, above the active branch, that cannot be connected. */
  ghost predicate Refused(t: Tree, best: Tip, id: BlockId, verify: BlockId -> bool, b: BlockId)
    requires WellFormed(t) && Known(t, best) && id in t
  {
    && b in t && Ancestor(t, Some(b), Some(id)) && !Ancestor(t, Some(b), best)
    && !(verify(b) && Replay(t, Some(b)).Some?)
  }

  lemma UnfailedBelow(t: Tree, failed: set<BlockId>, a: Tip, b: Tip)
    requires WellFormed(t) && Known(t, b) && Known(t, a) && Ancestor(t, a, b) && Unfailed(t, failed, b)
    ensures Unfailed(t, failed, a)
  {
    forall x | x in failed
      ensures !Ancestor(t, Some(x), a)
    {
      if Ancestor(t, Some(x), a) {
        AncestorTrans(t, Some(x), a, b);
      }
    }
  }

  /** Of the blocks that lead to `top`, only those that lead to `test` may be marked as failed. */
  ghost predicate FailedBelow(t: Tree, failed: set<BlockId>, top: BlockId, test: BlockId)
    requires WellFormed(t) && top in t && test in t
  {
    forall b :: b in failed && Ancestor(t, Some(b), Some(top)) ==> Ancestor(t, Some(b), Some(test))
  }

  lemma FailedStep(t: Tree, failed: set<BlockId>, top: BlockId, test: BlockId)
    requires WellFormed(t) && top in t && test in t && t[test].prev.Some? && test !in failed
    requires FailedBelow(t, failed, top, test)
    ensures t[test].prev.value in t && FailedBelow(t, failed, top, t[test].prev.value)
  {
  }

  lemma FailedFirst(t: Tree, failed: set<BlockId>, top: BlockId)
    requires WellFormed(t) && top in t
    ensures FailedBelow(t, failed, top, top)
  {
  }

  lemma PrevIsAncestor(t: Tree, id: BlockId, top: BlockId)
    requires WellFormed(t) && id in t && top in t && Ancestor(t, Some(id), Some(top))
    ensures Known(t, t[id].prev) && Ancestor(t, t[id].prev, Some(top))
  {
    AncestorTrans(t, t[id].prev, Some(id), Some(top));
  }

  lemma PrevIsLower(t: Tree, id: BlockId)
    requires WellFormed(t) && id in t && t[id].prev.Some?
    ensures t[id].prev.value in t && t[t[id].prev.value].height < t[id].height
  {
  }

  /** At the first block, or where the branch meets the active one, nothing failed can be left below. */
  lemma NoneFailedAbove(t: Tree, failed: set<BlockId>, top: BlockId, test: BlockId, best: Tip)
    requires WellFormed(t) && Known(t, best) && top in t && test in t && test !in failed
    requires FailedBelow(t, failed, top, test) && Unfailed(t, failed, best)
    requires t[test].prev.None? || Ancestor(t, Some(test), best)
    ensures Unfailed(t, failed, Some(top))
  {
    forall b | b in failed
      ensures !Ancestor(t, Some(b), Some(top))
    {
      if Ancestor(t, Some(b), Some(top)) {
        if Ancestor(t, Some(test), best) {
          AncestorTrans(t, Some(b), Some(test), best);
        } else {
          AncestorFacts(t, Some(b), Some(test));
        }
      }
    }
  }

  /** Blocks are marked as failed only above a block that was marked before. */
  ghost predicate Explained(t: Tree, before: set<BlockId>, after: set<BlockId>)
    requires WellFormed(t)
  {
    forall b :: b in after && b !in before ==> b in t && FollowsFailed(t, before, b)
  }

  ghost predicate FollowsFailed(t: Tree, failed: set<BlockId>, b: BlockId)
    requires WellFormed(t) && b in t
  {
    exists a :: a in failed && Ancestor(t, Some(a), Some(b))
  }

  lemma ExplainedStep(t: Tree, before: set<BlockId>, middle: set<BlockId>, ancestor: BlockId, after: set<BlockId>)
    requires WellFormed(t) && Explained(t, before, middle) && ancestor in middle && ancestor in t
    requires forall b :: b in after ==> b in middle || (b in t && Ancestor(t, Some(ancestor), Some(b)))
    ensures Explained(t, before, after)
  {
    forall b | b in after && b !in before
      ensures b in t && FollowsFailed(t, before, b)
    {
      if b !in middle {
        if ancestor !in before {
          assert FollowsFailed(t, before, ancestor);
          var a :| a in before && Ancestor(t, Some(a), Some(ancestor));
          AncestorTrans(t, Some(a), Some(ancestor), Some(b));
        }
      }
    }
  }

  /** Of one of several blocks, a block is refused, which is the only one marked as failed for it. */
  lemma RefusedExplained(t: Tree, best: Tip, attach: seq<BlockId>, verify: BlockId -> bool,
                         before: set<BlockId>, middle: set<BlockId>, after: set<BlockId>)
    requires WellFormed(t) && Known(t, best) && Explained(t, before, middle)
    requires forall b :: b in attach ==> b in t
    ensures (exists id, b :: id in attach && Refused(t, best, id, verify, b) && after == middle + {b}) ==>
              exists id, b :: id in t && Refused(t, best, id, verify, b) && b in after && Explained(t, before, after - {b})
  {
    if id, b :| id in attach && Refused(t, best, id, verify, b) && after == middle + {b} {
      assert id in t && b in after && Explained(t, before, after - {b});
    }
  }

  lemma ExplainedNone(t: Tree, failed: set<BlockId>)
    requires WellFormed(t)
    ensures Explained(t, failed, failed)
  {
  }

  /** Has a block more work than the tip? */
  ghost predicate Heavier(t: Tree, b: BlockId, best: Tip)
    requires Known(t, best) && b in t
  {
    best.None? || t[b].work > t[best.value].work
  }

  /** Of the blocks that lead to `top`, those above `test` that have more work than the tip, best first. */
  ghost predicate Collected(t: Tree, best: Tip, top: BlockId, test: Tip, attach: seq<BlockId>)
    requires WellFormed(t) && Known(t, best) && top in t && Known(t, test)
  {
    && Downwards(t, attach)
    && forall b :: b in attach <==>
         b in t && Ancestor(t, Some(b), Some(top)) && !Ancestor(t, Some(b), test) && Heavier(t, b, best)
  }

  /** Every block of a list leads to those before it. */
  ghost predicate Downwards(t: Tree, ids: seq<BlockId>)
    requires WellFormed(t)
  {
    && (forall i :: 0 <= i < |ids| ==> ids[i] in t)
    && forall i, j :: 0 <= i < j < |ids| ==> Ancestor(t, Some(ids[j]), t[ids[i]].prev)
  }

  lemma CollectedFirst(t: Tree, best: Tip, top: BlockId)
    requires WellFormed(t) && Known(t, best) && top in t
    ensures Collected(t, best, top, Some(top), [])
  {
  }

  lemma CollectedStep(t: Tree, best: Tip, top: BlockId, test: BlockId, attach: seq<BlockId>)
    requires WellFormed(t) && Known(t, best) && top in t && test in t && Ancestor(t, Some(test), Some(top))
    requires Collected(t, best, top, Some(test), attach)
    ensures Collected(t, best, top, t[test].prev, if Heavier(t, test, best) then attach + [test] else attach)
  {
    hide Heavier, Downwards;
    forall b
      ensures b in t && Ancestor(t, Some(b), Some(top)) && !Ancestor(t, Some(b), t[test].prev)
              <==> b == test || (b in t && Ancestor(t, Some(b), Some(top)) && !Ancestor(t, Some(b), Some(test)))
    {
      NoAncestorFollows(t, test, t[test].prev);
      StepsBelow(t, test, b);
    }
    DownwardsStep(t, top, test, attach);
    hide Ancestor, WellFormed;
  }

  lemma DownwardsStep(t: Tree, top: BlockId, test: BlockId, ids: seq<BlockId>)
    requires WellFormed(t) && top in t && test in t && Ancestor(t, Some(test), Some(top)) && Downwards(t, ids)
    requires forall b :: b in ids ==> b in t && Ancestor(t, Some(b), Some(top)) && !Ancestor(t, Some(b), Some(test))
    ensures Downwards(t, ids + [test])
  {
    hide Ancestor;
    forall i | 0 <= i < |ids|
      ensures ids[i] in t && Ancestor(t, Some(test), t[ids[i]].prev)
    {
      assert ids[i] in ids;
      AboveTest(t, top, test, ids[i]);
    }
  }

  lemma StepsBelow(t: Tree, test: BlockId, b: BlockId)
    requires WellFormed(t) && test in t
    ensures Ancestor(t, Some(b), Some(test)) <==> b == test || Ancestor(t, Some(b), t[test].prev)
  {
  }

  lemma AboveTest(t: Tree, top: BlockId, test: BlockId, b: BlockId)
    requires WellFormed(t) && top in t && test in t && b in t
    requires Ancestor(t, Some(test), Some(top)) && Ancestor(t, Some(b), Some(top)) && !Ancestor(t, Some(b), Some(test))
    ensures Ancestor(t, Some(test), t[b].prev)
  {
    if Depth(t, Some(b)) <= Depth(t, Some(test)) {
      AncestorsLinear(t, Some(b), Some(test), Some(top));
    } else {
      AncestorsLinear(t, Some(test), Some(b), Some(top));
    }
  }

  /** Where the walk ends, nothing further down has more work than the tip. */
  lemma CollectedAll(t: Tree, best: Tip, top: BlockId, test: BlockId, attach: seq<BlockId>)
    requires WellFormed(t) && Known(t, best) && top in t && test in t
    requires Ancestor(t, Some(test), Some(top)) && Collected(t, best, top, t[test].prev, attach)
    requires t[test].prev.None? || Ancestor(t, Some(test), best)
    ensures Collected(t, best, top, None, attach)
  {
    forall b
      ensures b in t && Ancestor(t, Some(b), t[test].prev) ==> !Heavier(t, b, best)
      ensures !Ancestor(t, Some(b), None)
    {
      if b in t && Ancestor(t, Some(b), t[test].prev) {
        AncestorTrans(t, Some(b), t[test].prev, Some(test));
        AncestorTrans(t, Some(b), Some(test), best);
        AncestorFacts(t, Some(b), best);
      }
    }
  }

  /** The first of the blocks collected is the one the walk started from, if that has more work than the tip. */
  lemma CollectedTop(t: Tree, best: Tip, top: BlockId, attach: seq<BlockId>)
    requires WellFormed(t) && Known(t, best) && top in t && Collected(t, best, top, None, attach)
    ensures if Heavier(t, top, best) then attach != [] && attach[0] == top else attach == []
  {
    if Heavier(t, top, best) {
      assert !Ancestor(t, Some(top), None);
      assert top in attach;
      var i :| 0 <= i < |attach| && attach[i] == top;
      if i > 0 {
        assert attach[0] in attach;
        assert Ancestor(t, Some(top), t[attach[0]].prev) && Ancestor(t, Some(attach[0]), Some(top));
        AncestorTrans(t, Some(attach[0]), Some(top), t[attach[0]].prev);
        NoAncestorFollows(t, attach[0], t[attach[0]].prev);
      }
    } else if attach != [] {
      assert attach[0] in attach;
      AncestorFacts(t, Some(attach[0]), Some(top));
    }
  }

  lemma CollectedMembers(t: Tree, best: Tip, top: BlockId, attach: seq<BlockId>)
    requires WellFormed(t) && Known(t, best) && top in t && Collected(t, best, top, None, attach)
    ensures forall b :: b in attach ==> b in t && Ancestor(t, Some(b), Some(top)) && Heavier(t, b, best)
  {
  }

  lemma UnfailedGrow(t: Tree, t': Tree, failed: set<BlockId>, tip: Tip)
    requires Grows(t, t') && Known(t, tip) && Unfailed(t, failed, tip)
    ensures Unfailed(t', failed, tip)
  {
    forall x | x in failed
      ensures !Ancestor(t', Some(x), tip)
    {
      AncestorGrow(t, t', Some(x), tip);
    }
  }

  /** Descendants of a block off a branch are off it as well. */
  lemma UnfailedWithDescendants(t: Tree, failed: set<BlockId>, ancestor: BlockId, more: set<BlockId>, tip: Tip)
    requires WellFormed(t) && Known(t, tip) && Unfailed(t, failed, tip) && ancestor in failed && ancestor in t
    requires forall b :: b in more ==> b in failed || (b in t && Ancestor(t, Some(ancestor), Some(b)))
    ensures Unfailed(t, more, tip)
  {
    forall b | b in more
      ensures !Ancestor(t, Some(b), tip)
    {
      if Ancestor(t, Some(b), tip) && b !in failed {
        AncestorTrans(t, Some(ancestor), Some(b), tip);
      }
    }
  }

  ghost predicate GenesisKnown(t: Tree, tip: Tip, genesis: Tip) {
    && (genesis.Some? ==> genesis.value in t && t[genesis.value].prev.None?)
    && (tip.Some? ==> genesis.Some?)
  }

  lemma {:induction false} GenesisIsMain(t: Tree, tip: Tip, genesis: Tip)
    requires WellFormed(t) && Known(t, tip) && tip.Some? && GenesisKnown(t, tip, genesis)
    ensures genesis.Some? && genesis.value in t && Ancestor(t, genesis, tip)
    decreases Depth(t, tip)
  {
    if t[tip.value].prev.Some? {
      GenesisIsMain(t, t[tip.value].prev, genesis);
    }
  }

  /** There is one block of the active chain at each height. */
  lemma OnePerHeight(t: Tree, a: BlockId, b: BlockId, tip: Tip)
    requires WellFormed(t) && Known(t, tip) && a in t && b in t
    requires Ancestor(t, Some(a), tip) && Ancestor(t, Some(b), tip) && t[a].height == t[b].height
    ensures a == b
  {
    AncestorsLinear(t, Some(a), Some(b), tip);
    AncestorFacts(t, Some(a), Some(b));
  }

  /** The undo data of a branch covers every shorter one. */
  lemma Prunable(t: Tree, a: Tip, b: Tip, undo: map<BlockId, BlockUndo>)
    requires WellFormed(t) && Known(t, b) && Known(t, a) && Ancestor(t, a, b) && Undoable(t, b, undo)
    ensures Undoable(t, a, undo)
  {
    forall id | id in t && t[id].prev.Some? && Ancestor(t, Some(id), a) ensures id in undo {
      AncestorTrans(t, Some(id), a, b);
    }
  }

  lemma MoreUndo(t: Tree, tip: Tip, undo0: map<BlockId, BlockUndo>, undo: map<BlockId, BlockUndo>)
    requires WellFormed(t) && Known(t, tip) && Undoable(t, tip, undo0) && Keeps(undo0, undo)
    ensures Undoable(t, tip, undo)
  {
  }

  lemma AboveFork(t: Tree, old_: Tip, new_: Tip, fork: Tip, up: seq<BlockId>)
    requires WellFormed(t) && Known(t, old_) && Known(t, new_) && Known(t, fork)
    requires Ancestor(t, fork, old_) && Descends(t, new_, up, fork)
    requires forall c: Tip :: Known(t, c) && Ancestor(t, c, old_) && Ancestor(t, c, new_) ==> Ancestor(t, c, fork)
    ensures forall b :: b in up ==> b in t && Ancestor(t, Some(b), new_) && !Ancestor(t, Some(b), old_)
    ensures forall b :: b in t && Ancestor(t, Some(b), new_) && !Ancestor(t, Some(b), old_) ==> b in up
  {
    forall b ensures b in up <==> Ancestor(t, Some(b), new_) && !Ancestor(t, Some(b), old_)
             ensures b in up ==> b in t
    {
      NotShared(t, old_, new_, fork, up, b);
    }
  }

  /** The blocks above the fork are those of the new branch that the old one lacks. */
  lemma NotShared(t: Tree, old_: Tip, new_: Tip, fork: Tip, up: seq<BlockId>, b: BlockId)
    requires WellFormed(t) && Known(t, old_) && Known(t, new_) && Known(t, fork)
    requires Ancestor(t, fork, old_) && Descends(t, new_, up, fork)
    requires forall c: Tip :: Known(t, c) && Ancestor(t, c, old_) && Ancestor(t, c, new_) ==> Ancestor(t, c, fork)
    ensures b in up <==> Ancestor(t, Some(b), new_) && !Ancestor(t, Some(b), old_)
    ensures b in up ==> b in t
  {
    PathMembers(t, new_, up, fork, b);
    if Ancestor(t, Some(b), new_) {
      AncestorFacts(t, Some(b), new_);
      if Ancestor(t, Some(b), fork) {
        AncestorTrans(t, Some(b), fork, old_);
      }
    }
  }

  lemma AtTipReplays(t: Tree, tip: Tip, view: CoinsViewCache)
    requires WellFormed(t) && view.Valid() && ViewAt(t, tip, view)
    ensures Known(t, tip) && Replay(t, tip).Some?
  {
  }

  lemma NoReplayAbove(t: Tree, id: BlockId, top: Tip)
    requires WellFormed(t) && Known(t, top) && id in t && Ancestor(t, Some(id), top)
    ensures Replay(t, Some(id)).None? ==> Replay(t, top).None?
  {
    if Replay(t, top).Some? {
      ReplayOfAncestor(t, Some(id), top);
    }
  }

  lemma SupplyAtTip(t: Tree, tip: Tip, supply: map<BlockId, int>)
    requires WellFormed(t) && Known(t, tip) && SupplyIsRight(t, tip, supply)
    ensures SupplyFits(t, tip, SupplyAt(supply, tip))
  {
    if tip.Some? {
      assert Ancestor(t, Some(tip.value), tip);
    }
  }

  /** Recording the supply of a block off the branch does not touch the branch. */
  lemma SupplyElsewhere(t: Tree, tip: Tip, id: BlockId, before: map<BlockId, int>, after: map<BlockId, int>)
    requires WellFormed(t) && Known(t, tip) && SupplyIsRight(t, tip, before) && !Ancestor(t, Some(id), tip)
    requires forall other :: other != id ==> SupplyAt(after, Some(other)) == SupplyAt(before, Some(other))
    ensures SupplyIsRight(t, tip, after)
  {
    hide SupplyFits;
  }

  lemma SupplyOfOthers(before: map<BlockId, int>, after: map<BlockId, int>, id: BlockId)
    requires after == before || (id in after && after == before[id := after[id]])
    ensures forall other :: other != id ==> SupplyAt(after, Some(other)) == SupplyAt(before, Some(other))
  {
  }

  /** What is on record for a branch, with one more block connected. */
  lemma StepUp(t: Tree, id: BlockId, undo0: map<BlockId, BlockUndo>, undo: map<BlockId, BlockUndo>,
               supply0: map<BlockId, int>, supply: map<BlockId, int>)
    requires WellFormed(t) && id in t && Known(t, t[id].prev)
    requires Undoable(t, t[id].prev, undo0) && Keeps(undo0, undo) && (t[id].prev.Some? ==> id in undo)
    requires SupplyIsRight(t, t[id].prev, supply0) && SupplyFits(t, Some(id), SupplyAt(supply, Some(id)))
    requires forall other :: other != id ==> SupplyAt(supply, Some(other)) == SupplyAt(supply0, Some(other))
    ensures Undoable(t, Some(id), undo) && SupplyIsRight(t, Some(id), supply)
  {
    hide SupplyFits, SupplyAt;
    NoAncestorFollows(t, id, t[id].prev);
    forall b | b in t && Ancestor(t, Some(b), Some(id))
      ensures SupplyFits(t, Some(b), SupplyAt(supply, Some(b)))
      ensures t[b].prev.Some? ==> b in undo
    {
      if b != id {
        assert Ancestor(t, Some(b), t[id].prev);
      }
    }
  }

  lemma SupplyOfAncestor(t: Tree, a: Tip, b: Tip, supply: map<BlockId, int>)
    requires WellFormed(t) && Known(t, b) && Known(t, a) && Ancestor(t, a, b) && SupplyIsRight(t, b, supply)
    ensures SupplyIsRight(t, a, supply)
  {
    hide SupplyFits;
    forall id | id in t && Ancestor(t, Some(id), a)
      ensures SupplyFits(t, Some(id), SupplyAt(supply, Some(id)))
    {
      AncestorTrans(t, Some(id), a, b);
    }
  }

  /** A block on a path above the genesis block has a predecessor and undo data. */
  lemma OnPath(t: Tree, top: Tip, path: seq<BlockId>, bottom: Tip, i: nat)
    requires WellFormed(t) && Known(t, top) && Descends(t, top, path, bottom) && i < |path|
    requires bottom.None? ==> top.None?
    ensures path[i] in t && Ancestor(t, Some(path[i]), top)
    ensures t[path[i]].prev == TipAt(path, bottom, i + 1) && t[path[i]].prev.Some?
  {
    DescendsAt(t, top, path, bottom, i);
  }

  /** A block of the path down from the top can be taken back. */
  lemma OnPathUndo(t: Tree, top: Tip, path: seq<BlockId>, bottom: Tip, undo: map<BlockId, BlockUndo>, i: nat)
    requires WellFormed(t) && Known(t, top) && Descends(t, top, path, bottom) && i < |path|
    requires bottom.None? ==> top.None?
    requires UndoIsRight(t, undo) && Undoable(t, top, undo)
    ensures path[i] in t && t[path[i]].prev == TipAt(path, bottom, i + 1) && t[path[i]].prev.Some?
    ensures TipAt(path, bottom, i) == Some(path[i])
    ensures path[i] in undo && UndoFits(t, path[i], undo[path[i]])
  {
    hide WellFormed, Descends, Ancestor, UndoFits;
    OnPath(t, top, path, bottom, i);
  }

  lemma GenesisIsFirst(t: Tree, a: BlockId, b: BlockId)
    requires WellFormed(t) && a in t && b in t && t[b].prev.None? && t[a].height <= t[b].height
    ensures a == b
  {
  }

  /** The deeper of two blocks that lead to both branches is not itself shared, unless they are equal. */
  lemma ForkStep(t: Tree, topA: Tip, topB: Tip, a: Tip, b: Tip)
    requires WellFormed(t) && Known(t, topA) && Known(t, topB) && a != b
    requires a.Some? && b.Some? && Known(t, a) && Known(t, b)
    requires Ancestor(t, b, topB) && Ancestor(t, a, topA) && Depth(t, a) <= Depth(t, b)
    requires forall c: Tip :: Known(t, c) && Ancestor(t, c, topA) && Ancestor(t, c, topB) ==>
               Ancestor(t, c, a) && Ancestor(t, c, b)
    ensures t[b.value].prev.Some? && Known(t, t[b.value].prev)
    ensures Ancestor(t, t[b.value].prev, topB)
    ensures forall c: Tip :: Known(t, c) && Ancestor(t, c, topA) && Ancestor(t, c, topB) ==>
              Ancestor(t, c, t[b.value].prev)
  {
    var below := t[b.value].prev;
    if below.None? {
      GenesisIsFirst(t, a.value, b.value);
    }
    AncestorTrans(t, below, b, topB);
    forall c: Tip | Known(t, c) && Ancestor(t, c, topA) && Ancestor(t, c, topB)
      ensures Ancestor(t, c, below)
    {
      AncestorFacts(t, c, a);
      if c == b {
        assert Ancestor(t, b, a);
        AncestorFacts(t, b, a);
      }
    }
  }

  // ---------- steps along the active chain ----------

  lemma StepBack(t: Tree, id: BlockId, tip: Tip)
    requires WellFormed(t) && Known(t, tip) && id in t && Ancestor(t, Some(id), tip) && t[id].height > 0
    ensures t[id].prev.Some? && t[id].prev.value in t && t[t[id].prev.value].height == t[id].height - 1
    ensures Ancestor(t, t[id].prev, tip)
  {
    AncestorTrans(t, t[id].prev, Some(id), tip);
  }

  lemma StepForward(t: Tree, id: BlockId, tip: Tip, next: map<BlockId, BlockId>)
    requires WellFormed(t) && Known(t, tip) && NextIsMain(t, tip, next)
    requires id in t && Ancestor(t, Some(id), tip) && tip.Some? && t[id].height < t[tip.value].height
    ensures id in next && next[id] in t && t[next[id]].height == t[id].height + 1
    ensures Ancestor(t, Some(next[id]), tip)
  {
    NextMeansMain(t, tip, next, id);
  }

  // ---------- a growing tree ----------

  lemma AncestorInSmaller(t: Tree, t': Tree, id: BlockId, tip: Tip)
    requires Grows(t, t') && Known(t, tip) && Ancestor(t', Some(id), tip)
    ensures id in t && Ancestor(t, Some(id), tip)
  {
    AncestorGrow(t, t', Some(id), tip);
    AncestorFacts(t, Some(id), tip);
  }

  lemma GrowUndo(t: Tree, t': Tree, tip: Tip, undo: map<BlockId, BlockUndo>)
    requires Grows(t, t') && Known(t, tip) && UndoIsRight(t, undo) && Undoable(t, tip, undo)
    ensures UndoIsRight(t', undo) && Undoable(t', tip, undo)
  {
    hide Extend, Replay, Ancestor;
    forall id | id in undo ensures UndoFits(t', id, undo[id]) {
      ReplayGrow(t, t', Some(id));
      ReplayGrow(t, t', t[id].prev);
    }
    forall id | id in t' && t'[id].prev.Some? && Ancestor(t', Some(id), tip) ensures id in undo {
      AncestorInSmaller(t, t', id, tip);
    }
  }

  lemma GrowSupply(t: Tree, t': Tree, tip: Tip, supply: map<BlockId, int>)
    requires Grows(t, t') && Known(t, tip) && SupplyIsRight(t, tip, supply) && SupplyRecorded(t, supply)
    ensures SupplyIsRight(t', tip, supply) && SupplyRecorded(t', supply)
  {
    hide Replay, Ancestor;
    forall id | id in t' && Ancestor(t', Some(id), tip)
      ensures SupplyFits(t', Some(id), SupplyAt(supply, Some(id)))
    {
      AncestorInSmaller(t, t', id, tip);
      ReplayGrow(t, t', Some(id));
    }
    forall id | id in supply
      ensures SupplyFits(t', Some(id), supply[id])
    {
      ReplayGrow(t, t', Some(id));
    }
  }

  lemma GrowNext(t: Tree, t': Tree, tip: Tip, next: map<BlockId, BlockId>)
    requires Grows(t, t') && Known(t, tip) && NextIsMain(t, tip, next)
    ensures NextIsMain(t', tip, next)
  {
    hide Ancestor, WellFormed;
    forall a | a in next ensures Ancestor(t', Some(next[a]), tip) {
      AncestorGrow(t, t', Some(next[a]), tip);
    }
    forall b | b in t' && t'[b].prev.Some? && Ancestor(t', Some(b), tip)
      ensures t'[b].prev.value in next && next[t'[b].prev.value] == b
    {
      AncestorInSmaller(t, t', b, tip);
    }
  }

  /** What is on record stays right when the tree grows. */
  lemma GrowRecords(t: Tree, t': Tree, tip: Tip, undo: map<BlockId, BlockUndo>, supply: map<BlockId, int>,
                    next: map<BlockId, BlockId>)
    requires Grows(t, t') && Known(t, tip)
    requires UndoIsRight(t, undo) && Undoable(t, tip, undo) && SupplyIsRight(t, tip, supply)
    requires SupplyRecorded(t, supply) && NextIsMain(t, tip, next)
    ensures UndoIsRight(t', undo) && Undoable(t', tip, undo) && SupplyIsRight(t', tip, supply)
    ensures SupplyRecorded(t', supply) && NextIsMain(t', tip, next)
  {
    hide UndoIsRight, Undoable, SupplyIsRight, SupplyRecorded, NextIsMain;
    GrowUndo(t, t', tip, undo);
    GrowSupply(t, t', tip, supply);
    GrowNext(t, t', tip, next);
  }

  lemma AddNode(t: Tree, id: BlockId, node: BlockIndex)
    requires WellFormed(t) && id !in t
    requires if node.prev.Some? then FollowsOn(t, node.prev.value, node) else t == map[] && node.height == 0
    ensures Grows(t, t[id := node])
  {
  }

  lemma GrowTip(t: Tree, t': Tree, tip: Tip, view: CoinsViewCache)
    requires Grows(t, t') && view.Valid() && AtTip(t, tip, view)
    ensures AtTip(t', tip, view)
  {
    ReplayGrow(t, t', tip);
  }
}
