/**
 The active chain: the block index with its mutable marks, the coins at the tip, and the
 code that switches from one branch to another.
 */
module Chain {
  import opened Common
  import opened Coins
  import opened Blocks
  import opened BlockTree
  import opened Branches
  import opened CoinsView
  import opened Stored
  import Target

  function Distance(a: nat, b: nat): nat {
    if a < b then b - a else a - b
  }

  class ChainState {
    // what is known of each block
    var index: Tree
    var undo: map<BlockId, BlockUndo>
    var supply: map<BlockId, int>
    var failed: set<BlockId>
    var candidates: set<BlockId>
    // the active chain
    var best: Tip
    var next: map<BlockId, BlockId>
    var genesis: Tip
    const coinsTip: CoinsViewCache
    // the block last found by its height
    var lastFound: Tip

    ghost predicate Valid()
      reads this, coinsTip.Repr
    {
      && coinsTip.Valid() && this !in coinsTip.Repr && coinsTip.base != null && coinsTip.base.base == null
      && WellFormed(index)
      && AtTip(index, best, coinsTip)
      && UndoIsRight(index, undo)
      && Undoable(index, best, undo)
      && SupplyIsRight(index, best, supply) && SupplyRecorded(index, supply)
      && NextIsMain(index, best, next)
      && WorkIsRight(index)
      && failed <= index.Keys && candidates == index.Keys - failed
      && (lastFound.Some? ==> Ancestor(index, lastFound, best))
      && GenesisKnown(index, best, genesis)
    }

    /** Does the coin database hold all there is at the tip? */
    ghost predicate OnDisk()
      requires coinsTip.Valid()
      reads this, coinsTip.Repr
    {
      coinsTip.BaseContents() == coinsTip.Contents() && coinsTip.BaseBest() == best
    }

    /** A node that knows no block yet, over an empty coin database. */
    constructor (db: CoinsViewCache)
      requires db.Valid() && db.base == null && db.Contents() == map[] && db.Best() == None
      ensures Valid() && index == map[] && best == None && Unfailed(index, failed, best)
    {
      index, undo, supply, failed, candidates := map[], map[], map[], {}, {};
      best, next, genesis, lastFound := None, map[], None, None;
      coinsTip := new CoinsViewCache(db);
    }

    // ---------- one block ----------

    /**
     Takes the block at the tip of a view back. With the undo data on record this never fails,
     though that data, and the view, may have lost negative versions.
     */
    method DisconnectBlock(id: BlockId, view: CoinsViewCache) returns (ok: bool)
      requires WellFormed(index) && id in index && index[id].prev.Some?
      requires id in undo && UndoFits(index, id, undo[id])
      requires view.Valid() && this !in view.Repr && ViewAt(index, Some(id), view)
      modifies view.Repr
      ensures ok && ViewAt(index, index[id].prev, view)
      ensures Replay(index, index[id].prev).Some?
      ensures Live(view.Contents()) == Restored(Replay(index, index[id].prev).value, old(Live(view.Contents())))
      ensures view.BaseContents() == old(view.BaseContents()) && view.BaseBest() == old(view.BaseBest())
    {
      hide Replay, Disconnect, ChecksOut, NoNullUndo, Live, AllTidy, Fades, Restored;
      UndoTakesBack(index, id, undo[id], Live(view.Contents()));
      SomeUndoHasOutputs(index, id, undo[id]);
      ok := view.DisconnectTransactions(index[id].block, index[id].height, undo[id]);
      view.SetBestBlock(index[id].prev.value);
    }

    /** The part of connecting a block that works on the view; `passed` if all its transactions do. */
    method ConnectOn(id: BlockId, view: CoinsViewCache, verified: bool, ghost before: int)
      returns (ok: bool, passed: bool, blockUndo: BlockUndo, delta: int)
      requires WellFormed(index) && id in index && Known(index, index[id].prev)
      requires view.Valid() && this !in view.Repr && ViewAt(index, index[id].prev, view)
      requires SupplyFits(index, index[id].prev, before)
      modifies view.Repr
      ensures view.BaseContents() == old(view.BaseContents()) && view.BaseBest() == old(view.BaseBest())
      ensures ok == (verified && Replay(index, Some(id)).Some?)
      ensures ok ==> ViewAt(index, Some(id), view) && SupplyFits(index, Some(id), before + delta)
      ensures ok && index[id].prev.Some? ==> passed && UndoFits(index, id, StoredUndo(blockUndo))
      ensures index[id].prev.None? ==> delta == 0 && !passed
      ensures passed ==> SupplyFits(index, Some(id), before + delta)
      ensures index[id].prev.Some? ==>
                var c := ConnectChecked(old(Live(view.Contents())), index[id].block, index[id].height);
                passed == c.Some? && (passed ==> delta == c.value.valueOut - c.value.valueIn)
    {
      hide Live, AllTidy, Replay, SupplyFits, UndoFits, CheckBlock, Connect, ConnectChecked, Fades, StoredUndo;
      hide CoinsViewCache.Contents, CoinsViewCache.BaseContents, CoinsViewCache.Best, CoinsViewCache.BaseBest, WellFormed;
      var node := index[id];
      ExtendReplays(index, id, before, verified, Live(view.Contents()));
      if node.prev.None? {
        ok, passed, blockUndo, delta := CheckBlock(node.block) && verified, false, [], 0;
      } else {
        ghost var s := Live(view.Contents());
        ok, passed, blockUndo, delta := view.ConnectTransactions(node.block, node.height, verified);
        if passed {
          CheckedSupply(index, id, before, s);
        }
      }
      if ok {
        view.SetBestBlock(id);
      }
    }

    /**
     Connects a block on top of a view. It succeeds exactly when the checks not modelled here
     pass and the branch can be replayed up to it. The money supply is on record once all
     transactions passed, and undo data, as the disk keeps it, the first time all is well.
     */
    method ConnectBlock(id: BlockId, view: CoinsViewCache, verified: bool) returns (ok: bool)
      requires WellFormed(index) && id in index && Known(index, index[id].prev)
      requires view.Valid() && this !in view.Repr && ViewAt(index, index[id].prev, view)
      requires UndoIsRight(index, undo) && SupplyRecorded(index, supply) && GenesisKnown(index, index[id].prev, genesis)
      requires SupplyFits(index, index[id].prev, SupplyAt(supply, index[id].prev))
      modifies view.Repr, this`undo, this`supply, this`genesis
      ensures view.BaseContents() == old(view.BaseContents()) && view.BaseBest() == old(view.BaseBest())
      ensures ok == (verified && Replay(index, Some(id)).Some?)
      ensures ok ==> ViewAt(index, Some(id), view) && (index[id].prev.Some? ==> id in undo)
      ensures ok ==> SupplyFits(index, Some(id), SupplyAt(supply, Some(id)))
      ensures UndoIsRight(index, undo) && Keeps(old(undo), undo) && SupplyRecorded(index, supply)
      ensures GenesisKnown(index, if ok then Some(id) else None, genesis) && (old(genesis).Some? ==> genesis.Some?)
      ensures index[id].prev.None? ==> supply == old(supply)
      ensures index[id].prev.Some? ==>
                var c := ConnectChecked(old(Live(view.Contents())), index[id].block, index[id].height);
                supply == if c.None? then old(supply) else
                            old(supply)[id := SupplyAt(old(supply), index[id].prev) + c.value.valueOut - c.value.valueIn]
    {
      hide AtTip, ViewAt, Replay, SupplyFits, UndoFits, UndoIsRight, WellFormed, ConnectChecked, Live, StoredUndo;
      hide CoinsViewCache.Contents, CoinsViewCache.Best, CoinsViewCache.BaseContents, CoinsViewCache.BaseBest;
      var prev := index[id].prev;
      var connected, passed, blockUndo, delta := ConnectOn(id, view, verified, SupplyAt(supply, prev));
      ok := connected;
      if prev.Some? {
        if passed {
          RecordSupply(index, supply, id, SupplyAt(supply, prev) + delta);
          supply := supply[id := SupplyAt(supply, prev) + delta];
        }
        if ok && id !in undo {
          RecordUndo(index, undo, id, StoredUndo(blockUndo));
          undo := undo[id := StoredUndo(blockUndo)];
        }
      } else if ok {
        genesis := Some(id);
      }
    }

    // ---------- switching branches ----------

    /** The last block the active branch and another one share. */
    method FindFork(id: BlockId) returns (fork: Tip)
      requires WellFormed(index) && Known(index, best) && id in index
      ensures Known(index, fork) && Ancestor(index, fork, best) && Ancestor(index, fork, Some(id))
      ensures fork.Some? <==> best.Some?
      ensures forall c: Tip :: Known(index, c) && Ancestor(index, c, best) && Ancestor(index, c, Some(id)) ==>
                Ancestor(index, c, fork)
    {
      fork := best;
      var longer := Some(id);
      NothingIsAncestorOfAll(index, longer);
      while fork.Some? && fork != longer
        invariant Known(index, fork) && Ancestor(index, fork, best) && (fork.Some? <==> best.Some?)
        invariant longer.Some? && Known(index, longer) && Ancestor(index, longer, Some(id))
        invariant forall c: Tip :: Known(index, c) && Ancestor(index, c, best) && Ancestor(index, c, Some(id)) ==>
                    Ancestor(index, c, fork) && Ancestor(index, c, longer)
        decreases Depth(index, fork) + Depth(index, longer)
      {
        ghost var measure := Depth(index, longer);
        while index[longer.value].height > index[fork.value].height
          invariant longer.Some? && Known(index, longer) && Ancestor(index, longer, Some(id))
          invariant Depth(index, longer) <= measure
          invariant forall c: Tip :: Known(index, c) && Ancestor(index, c, best) && Ancestor(index, c, Some(id)) ==>
                      Ancestor(index, c, fork) && Ancestor(index, c, longer)
          decreases Depth(index, longer)
        {
          ForkStep(index, best, Some(id), fork, longer);
          longer := index[longer.value].prev;
        }
        if fork == longer {
          break;
        }
        ForkStep(index, Some(id), best, longer, fork);
        fork := index[fork.value].prev;
      }
    }

    /** The blocks from `top` down to, but without, `bottom`. */
    method PathDown(top: Tip, bottom: Tip) returns (path: seq<BlockId>)
      requires WellFormed(index) && Known(index, top) && Ancestor(index, bottom, top)
      ensures Descends(index, top, path, bottom)
    {
      path := [];
      var id := top;
      while id != bottom
        invariant Known(index, id) && Ancestor(index, bottom, id)
        invariant Descends(index, top, path, id)
        decreases Depth(index, id)
      {
        DescendsExtend(index, top, path, id.value);
        path := path + [id.value];
        id := index[id.value].prev;
      }
    }

    /** Takes the blocks of a path back, starting at its top. */
    method DisconnectBranch(path: seq<BlockId>, fork: Tip, view: CoinsViewCache)
      requires WellFormed(index) && Known(index, best) && Descends(index, best, path, fork)
      requires UndoIsRight(index, undo) && Undoable(index, best, undo) && (fork.None? ==> best.None?)
      requires view.Valid() && this !in view.Repr && ViewAt(index, best, view)
      modifies view.Repr
      ensures ViewAt(index, fork, view)
      ensures view.BaseContents() == old(view.BaseContents()) && view.BaseBest() == old(view.BaseBest())
    {
      hide UndoIsRight, WellFormed, ViewAt, Undoable, Descends, UndoFits, Replay, Ancestor, Live, Restored;
      DescendsEnds(index, best, path, fork);
      for i := 0 to |path|
        invariant ViewAt(index, TipAt(path, fork, i), view)
        invariant view.BaseContents() == old(view.BaseContents()) && view.BaseBest() == old(view.BaseBest())
      {
        OnPathUndo(index, best, path, fork, undo, i);
        var ok := DisconnectBlock(path[i], view);
        assert ok;
      }
    }

    /** Connects the blocks of a path, starting just above its bottom, until one is refused. */
    method ConnectBranch(path: seq<BlockId>, fork: Tip, ghost top: Tip, view: CoinsViewCache, verify: BlockId -> bool)
      returns (ok: bool, refused: BlockId)
      requires WellFormed(index) && Known(index, top) && Descends(index, top, path, fork) && Known(index, best)
      requires view.Valid() && this !in view.Repr && ViewAt(index, fork, view)
      requires UndoIsRight(index, undo) && SupplyRecorded(index, supply)
      requires GenesisKnown(index, best, genesis) && (best.None? <==> fork.None?)
      requires Ancestor(index, fork, best) && SupplyIsRight(index, best, supply)
      requires Undoable(index, fork, undo)
      requires forall id :: id in path ==> !Ancestor(index, Some(id), best)
      modifies view.Repr, this`undo, this`supply, this`genesis
      ensures view.BaseContents() == old(view.BaseContents()) && view.BaseBest() == old(view.BaseBest())
      ensures ok <==> Replay(index, top).Some? && forall id :: id in path ==> verify(id)
      ensures ok ==> ViewAt(index, top, view) && Undoable(index, top, undo) && SupplyIsRight(index, top, supply)
      ensures !ok ==> refused in path && refused in index && !(verify(refused) && Replay(index, Some(refused)).Some?)
      ensures UndoIsRight(index, undo) && Keeps(old(undo), undo) && SupplyRecorded(index, supply)
      ensures SupplyIsRight(index, best, supply)
      ensures GenesisKnown(index, best, genesis) && (ok ==> GenesisKnown(index, top, genesis))
    {
      hide Replay, UndoIsRight, WellFormed, ViewAt, SupplyRecorded, Undoable, SupplyIsRight, Ancestor, Descends;
      hide ConnectChecked, SupplyAt, SupplyFits, Live, CoinsViewCache.Contents;
      refused := 0;
      DescendsEnds(index, top, path, fork);
      SupplyOfAncestor(index, fork, best, supply);
      var i: nat := |path|;
      while i > 0
        invariant i <= |path| && Known(index, TipAt(path, fork, i))
        invariant ViewAt(index, TipAt(path, fork, i), view) && Undoable(index, TipAt(path, fork, i), undo)
        invariant SupplyIsRight(index, TipAt(path, fork, i), supply) && SupplyIsRight(index, best, supply)
        invariant view.BaseContents() == old(view.BaseContents()) && view.BaseBest() == old(view.BaseBest())
        invariant GenesisKnown(index, TipAt(path, fork, i), genesis) && GenesisKnown(index, best, genesis)
        invariant forall j :: i <= j < |path| ==> verify(path[j])
        invariant UndoIsRight(index, undo) && Keeps(old(undo), undo) && SupplyRecorded(index, supply)
      {
        i := i - 1;
        var id := path[i];
        DescendsAt(index, top, path, fork, i);
        ghost var undo0, supply0 := undo, supply;
        SupplyAtTip(index, index[id].prev, supply);
        var connected := ConnectBlock(id, view, verify(id));
        ok := connected;
        SupplyOfOthers(supply0, supply, id);
        SupplyElsewhere(index, best, id, supply0, supply);
        if !ok {
          refused := id;
          NoReplayAbove(index, id, top);
          return;
        }
        StepUp(index, id, undo0, undo, supply0, supply);
      }
      ok := true;
      AtTipReplays(index, top, view);
    }

    /** Moves the forward pointers from the old branch to the new one. */
    method UpdateNext(down: seq<BlockId>, up: seq<BlockId>, fork: Tip, top: Tip)
      requires WellFormed(index) && Known(index, best) && Known(index, top)
      requires Descends(index, best, down, fork) && Descends(index, top, up, fork)
      requires NextIsMain(index, best, next)
      modifies this`next
      ensures NextIsMain(index, top, next)
    {
      hide NextIsMain, Descends, WellFormed;
      DescendsEnds(index, best, down, fork);
      DescendsEnds(index, top, up, fork);
      for i := 0 to |down|
        invariant Known(index, TipAt(down, fork, i)) && NextIsMain(index, TipAt(down, fork, i), next)
      {
        DescendsAt(index, best, down, fork, i);
        DescendsAt(index, best, down, fork, i + 1);
        NextAfterDisconnect(index, down[i], next);
        if index[down[i]].prev.Some? {
          next := next - {index[down[i]].prev.value};
        }
      }
      var i: nat := |up|;
      while i > 0
        invariant i <= |up| && Known(index, TipAt(up, fork, i)) && NextIsMain(index, TipAt(up, fork, i), next)
      {
        i := i - 1;
        DescendsAt(index, top, up, fork, i);
        NextAfterConnect(index, up[i], next);
        if index[up[i]].prev.Some? {
          next := next[index[up[i]].prev.value := up[i]];
        }
      }
    }

    /** Marks a refused block. It is never on the active chain, so no other switch follows from it. */
    method InvalidBlockFound(id: BlockId)
      requires id !in next
      modifies this`failed, this`candidates
      ensures failed == old(failed) + {id} && candidates == old(candidates) - {id}
    {
      failed := failed + {id};
      candidates := candidates - {id};
    }

    /**
     The work of a switch: a view over the coins at the tip, taken down to the fork and up
     again. Nothing but undo data and money supplies is recorded on the way.
     */
    method SwitchView(id: BlockId, verify: BlockId -> bool)
      returns (ok: bool, refused: BlockId, view: CoinsViewCache, fork: Tip, down: seq<BlockId>, up: seq<BlockId>)
      requires Valid() && id in index
      modifies this`undo, this`supply, this`genesis, coinsTip.Repr
      ensures UndoIsRight(index, undo) && SupplyRecorded(index, supply)
      ensures Undoable(index, best, undo) && SupplyIsRight(index, best, supply) && GenesisKnown(index, best, genesis)
      ensures Keeps(old(undo), undo)
      ensures coinsTip.Contents() == old(coinsTip.Contents()) && Known(index, best) && AtTip(index, best, coinsTip)
      ensures view.Valid() && view.base == coinsTip && this !in view.Repr && fresh(view.Repr - coinsTip.Repr)
      ensures Descends(index, best, down, fork) && Descends(index, Some(id), up, fork)
      ensures ok == Acceptable(index, best, id, verify)
      ensures ok ==> ViewAt(index, Some(id), view)
      ensures ok ==> Undoable(index, Some(id), undo) && SupplyIsRight(index, Some(id), supply)
      ensures ok ==> GenesisKnown(index, Some(id), genesis)
      ensures !ok ==> Refused(index, best, id, verify, refused)
    {
      hide WellFormed, UndoIsRight, SupplyRecorded, Replay, AllTidy, Live, Descends, Undoable, SupplyIsRight;
      hide CoinsViewCache.Contents, CoinsViewCache.Best;
      view := new CoinsViewCache(coinsTip);
      var tip := view.GetBestBlock();
      assert ViewAt(index, best, view);
      fork := FindFork(id);
      down := PathDown(best, fork);
      up := PathDown(Some(id), fork);
      DisconnectBranch(down, fork, view);
      AboveFork(index, best, Some(id), fork, up);
      Prunable(index, fork, best, undo);
      ghost var undo0 := undo;
      ok, refused := ConnectBranch(up, fork, Some(id), view, verify);
      MoreUndo(index, best, undo0, undo);
    }

    /** Moves the coins of a finished view to the coins at the tip, and on to the disk if wanted. */
    method Push(view: CoinsViewCache, tip: Tip, flushToDisk: bool)
      requires WellFormed(index) && coinsTip.Valid() && coinsTip.base != null && coinsTip.base.base == null
      requires view.Valid() && view.base == coinsTip && this !in view.Repr
      requires tip.Some? && ViewAt(index, tip, view)
      modifies view.Repr
      ensures AtTip(index, tip, coinsTip)
      ensures if flushToDisk then coinsTip.BaseContents() == coinsTip.Contents() && coinsTip.BaseBest() == tip
              else coinsTip.Contents() == old(view.Contents())
                   && coinsTip.BaseContents() == old(coinsTip.BaseContents()) && coinsTip.BaseBest() == old(coinsTip.BaseBest())
    {
      hide Replay, AllTidy, Live, WellFormed, Fades;
      var flushed := view.Flush();
      assert flushed;
      if flushToDisk {
        ghost var s := Live(coinsTip.Contents());
        flushed := coinsTip.FlushToDisk();
        FadesTrans(Replay(index, tip).value, s, Live(coinsTip.Contents()));
      }
    }

    /**
     Switches the active chain to the branch that ends in `id`. Whatever branches were active
     before, the coins are those of replaying the new one; only negative versions can have been
     lost, on the way through undo data or the disk. A switch that fails changes nothing but
     the marks of the one block that was refused, and it fails only when some block of the
     branch cannot be connected. Blocks marked as failed are not looked for: that is up to the
     caller, and if none was on the branch, none is on the active chain.
     */
    method SetBestChain(id: BlockId, verify: BlockId -> bool, flushToDisk: bool) returns (ok: bool)
      requires Valid() && id in index
      modifies this`undo, this`supply, this`genesis, this`failed, this`candidates, this`best, this`next, this`lastFound,
               coinsTip.Repr
      ensures Valid() && Keeps(old(undo), undo)
      ensures Replay(index, best).Some? && Fades(Replay(index, best).value, Live(coinsTip.Contents()))
      ensures PlainVersions(index, best) ==> Replay(index, best) == Some(Live(coinsTip.Contents()))
      ensures ok == Acceptable(index, old(best), id, verify)
      ensures ok ==> best == Some(id) && candidates == old(candidates) && failed == old(failed)
      ensures !ok ==> best == old(best) && next == old(next) && coinsTip.Contents() == old(coinsTip.Contents())
      ensures ok && flushToDisk ==> OnDisk()
      ensures !ok ==> exists b :: Refused(index, best, id, verify, b)
                                  && failed == old(failed) + {b} && candidates == old(candidates) - {b}
      ensures !ok && old(Unfailed(index, failed, best)) ==> Unfailed(index, failed, best)
      ensures !ok && old(Unfailed(index, failed, Some(id))) ==> old(failed) < failed
    {
      hide NextIsMain, UndoIsRight, Undoable, SupplyIsRight, SupplyRecorded, Replay, AllTidy, Live, WellFormed;
      hide Acceptable, Descends, AtTip, ViewAt, Fades, PlainVersions, Ancestor, WorkIsRight;
      hide CoinsViewCache.Contents, CoinsViewCache.BaseContents, CoinsViewCache.Best, CoinsViewCache.BaseBest;
      var done, refused, view, fork, down, up := SwitchView(id, verify);
      ok := done;
      if !ok {
        NextMeansMain(index, best, next, refused);
        InvalidBlockFound(refused);
        BestIsKnown();
        return;
      }
      Push(view, Some(id), flushToDisk);
      UpdateNext(down, up, fork, Some(id));
      best := Some(id);
      lastFound := None;
      BestIsKnown();
    }

    lemma BestIsKnown()
      requires Valid()
      ensures Known(index, best) && Replay(index, best).Some?
      ensures Fades(Replay(index, best).value, Live(coinsTip.Contents()))
      ensures PlainVersions(index, best) ==> Replay(index, best) == Some(Live(coinsTip.Contents()))
    {
      if PlainVersions(index, best) {
        PlainReplay(index, best, Live(coinsTip.Contents()));
      }
    }

    /** Is the block on the active chain? */
    method IsInMainChain(id: BlockId) returns (main: bool)
      requires Valid() && id in index
      ensures main <==> Ancestor(index, Some(id), best)
    {
      NextMeansMain(index, best, next, id);
      main := id in next || best == Some(id);
    }

    // ---------- choosing a branch ----------

    /** The order of the candidates: by work, and among equals the smaller hash is the better. */
    predicate Better(a: BlockId, b: BlockId)
      requires a in index && b in index
      reads this
    {
      index[a].work > index[b].work || (index[a].work == index[b].work && a < b)
    }

    method BestCandidate() returns (top: BlockId)
      requires candidates != {} && candidates <= index.Keys
      ensures top in candidates && forall c :: c in candidates && c != top ==> Better(top, c)
      ensures forall c :: c in candidates ==> index[c].work <= index[top].work
    {
      top :| top in candidates;
      var left := candidates - {top};
      while left != {}
        invariant left < candidates && top in candidates - left
        invariant forall c :: c in candidates - left && c != top ==> Better(top, c)
        decreases left
      {
        var c :| c in left;
        left := left - {c};
        assert forall d :: d in candidates && Better(c, top) && Better(top, d) ==> Better(c, d);
        if Better(c, top) {
          top := c;
        }
      }
    }

    /** Marks the blocks from `id` down to, but without, its failed ancestor. */
    method MarkDescendants(id: BlockId, ancestor: BlockId)
      requires WellFormed(index) && id in index && ancestor in index && Ancestor(index, Some(ancestor), Some(id)) && id != ancestor
      requires failed <= index.Keys && candidates == index.Keys - failed
      modifies this`failed, this`candidates
      ensures failed <= index.Keys && candidates == index.Keys - failed && id in failed
      ensures forall b :: b in failed <==>
                b in old(failed) || (b in index && Ancestor(index, Some(b), Some(id)) && !Ancestor(index, Some(b), Some(ancestor)))
      ensures forall b :: b in failed ==> b in old(failed) || (b in index && Ancestor(index, Some(ancestor), Some(b)))
    {
      var child: Tip := Some(id);
      while child != Some(ancestor)
        invariant Known(index, child) && Ancestor(index, Some(ancestor), child) && Ancestor(index, child, Some(id))
        invariant failed <= index.Keys && candidates == index.Keys - failed && (child != Some(id) ==> id in failed)
        invariant forall b :: b in failed <==>
                    b in old(failed) || (b in index && Ancestor(index, Some(b), Some(id)) && !Ancestor(index, Some(b), child))
        invariant forall b :: b in failed ==> b in old(failed) || (b in index && Ancestor(index, Some(ancestor), Some(b)))
        decreases Depth(index, child)
      {
        failed := failed + {child.value};
        candidates := candidates - {child.value};
        NoAncestorFollows(index, child.value, index[child.value].prev);
        AncestorTrans(index, index[child.value].prev, child, Some(id));
        child := index[child.value].prev;
        if child.Some? && id == child.value {
          AncestorFacts(index, child, Some(id));
        }
      }
    }

    /**
     All blocks on the way to a candidate that have more work than the tip, best first, or a
     failed one among the blocks on the way.
     */
    method CheckAncestry(top: BlockId) returns (attach: seq<BlockId>, bad: Tip)
      requires Valid() && top in index
      ensures bad.Some? ==> bad.value in failed && Ancestor(index, bad, Some(top))
      ensures Known(index, best) && (bad.None? ==> Collected(index, best, top, None, attach))
      ensures bad.None? && Unfailed(index, failed, best) ==> Unfailed(index, failed, Some(top))
    {
      hide AtTip, UndoIsRight, Undoable, SupplyIsRight, SupplyRecorded, NextIsMain, WellFormed, GenesisKnown, Unfailed;
      hide WorkIsRight, Collected, Ancestor;
      BestIsKnown();
      attach, bad := [], None;
      var test := top;
      AncestorRefl(index, Some(top));
      CollectedFirst(index, best, top);
      FailedFirst(index, failed, top);
      while true
        invariant test in index && Ancestor(index, Some(test), Some(top))
        invariant FailedBelow(index, failed, top, test)
        invariant Collected(index, best, top, Some(test), attach)
        decreases index[test].height
      {
        if test in failed {
          return attach, Some(test);
        }
        CollectedStep(index, best, top, test, attach);
        if best.None? || index[test].work > index[best.value].work {
          attach := attach + [test];
        }
        if index[test].prev.None? || test in next {
          NextMeansMain(index, best, next, test);
          CollectedAll(index, best, top, test, attach);
          if Unfailed(index, failed, best) {
            NoneFailedAbove(index, failed, top, test, best);
          }
          return;
        }
        FailedStep(index, failed, top, test);
        PrevIsLower(index, test);
        PrevIsAncestor(index, test, top);
        test := index[test].prev.value;
      }
    }

    /** Drops a candidate that has a failed ancestor. */
    method DropFailed(top: BlockId, bad: BlockId, ghost before: set<BlockId>)
      requires Valid() && top in candidates && bad in failed && Ancestor(index, Some(bad), Some(top))
      requires Known(index, best) && Explained(index, before, failed)
      modifies this`failed, this`candidates
      ensures Valid() && |candidates| < |old(candidates)|
      ensures old(failed) <= failed && Explained(index, before, failed)
      ensures old(Unfailed(index, failed, best)) ==> Unfailed(index, failed, best)
    {
      hide AtTip, UndoIsRight, Undoable, SupplyIsRight, SupplyRecorded, NextIsMain, WellFormed, GenesisKnown, Unfailed;
      hide WorkIsRight, Explained, Ancestor;
      ghost var was, marked := candidates, failed;
      MarkDescendants(top, bad);
      ExplainedStep(index, before, marked, bad, failed);
      if Unfailed(index, marked, best) {
        UnfailedWithDescendants(index, marked, bad, failed, best);
      }
      assert candidates < was;
      Shrinks(candidates, was);
    }

    /**
     Moves the active chain to the best candidate, that is, to the best of all known blocks not
     marked as failed. It comes to an end because every round that meets a failed block drops a
     candidate, and the tip never gives way to less work. No block is marked as failed but
     those above a failed block and, when it does not succeed, the one that was refused. As
     long as no failed block is on the active chain, none gets there, and a failure marks one
     more block.
     */
    method ConnectBestBlock(verify: BlockId -> bool, flushToDisk: bool) returns (ok: bool)
      requires Valid()
      modifies this`undo, this`supply, this`genesis, this`failed, this`candidates, this`best, this`next, this`lastFound,
               coinsTip.Repr
      ensures Valid()
      ensures ok ==> forall c :: c in index && c !in failed ==> best.Some? && index[c].work <= index[best.value].work
      ensures best == old(best) || (best.Some? && best.value in index && Heavier(index, best.value, old(best)))
      ensures ok ==> best == old(best) || best.value !in failed
      ensures ok && best != old(best) && flushToDisk ==> OnDisk()
      ensures old(failed) <= failed && (ok ==> Explained(index, old(failed), failed))
      ensures !ok ==> exists id, b :: id in index && Refused(index, best, id, verify, b)
                                      && b in failed && Explained(index, old(failed), failed - {b})
      ensures old(Unfailed(index, failed, best)) ==> Unfailed(index, failed, best) && (!ok ==> old(failed) < failed)
    {
      hide AtTip, UndoIsRight, Undoable, SupplyIsRight, SupplyRecorded, NextIsMain, WellFormed, GenesisKnown, Unfailed;
      hide WorkIsRight, Collected, Explained, Refused, Better, Ancestor;
      BestIsKnown();
      ExplainedNone(index, failed);
      ghost var clean := Unfailed(index, failed, best);
      while true
        invariant Valid() && best == old(best) && Known(index, best)
        invariant clean ==> Unfailed(index, failed, best)
        invariant old(failed) <= failed && Explained(index, old(failed), failed)
        decreases |candidates|
      {
        if candidates == {} {
          return true;
        }
        var top := BestCandidate();
        BestIsKnown();
        if best == Some(top) || (best.Some? && index[top].work == index[best.value].work) {
          return true;
        }
        var attach, bad := CheckAncestry(top);
        if bad.None? {
          CollectedTop(index, best, top, attach);
          CollectedMembers(index, best, top, attach);
          ghost var marked := failed;
          ok := AttachAll(attach, top, verify, flushToDisk);
          RefusedExplained(index, best, attach, verify, old(failed), marked, failed);
          return;
        }
        DropFailed(top, bad.value, old(failed));
      }
    }

    /** Switches to the blocks of a list, the last one first. */
    method AttachAll(attach: seq<BlockId>, ghost top: BlockId, verify: BlockId -> bool, flushToDisk: bool) returns (ok: bool)
      requires Valid() && top in index
      requires forall b :: b in attach ==> b in index && Ancestor(index, Some(b), Some(top)) && best != Some(b)
      modifies this`undo, this`supply, this`genesis, this`failed, this`candidates, this`best, this`next, this`lastFound,
               coinsTip.Repr
      ensures Valid()
      ensures ok ==> best == if attach == [] then old(best) else Some(attach[0])
      ensures best == old(best) || (best.Some? && best.value in attach)
      ensures ok && best != old(best) && flushToDisk ==> OnDisk()
      ensures ok ==> candidates == old(candidates) && failed == old(failed)
      ensures !ok ==> exists id, b :: id in attach && Refused(index, best, id, verify, b) && failed == old(failed) + {b}
      ensures old(Unfailed(index, failed, best) && Unfailed(index, failed, Some(top))) ==>
                Unfailed(index, failed, best) && (!ok ==> old(failed) < failed)
    {
      hide AtTip, UndoIsRight, Undoable, SupplyIsRight, SupplyRecorded, NextIsMain, WellFormed, GenesisKnown;
      hide WorkIsRight, Refused, Ancestor, Unfailed;
      BestIsKnown();
      ghost var clean := Unfailed(index, failed, best) && Unfailed(index, failed, Some(top));
      var i: nat := |attach|;
      while i > 0
        invariant i <= |attach| && Valid() && Known(index, best)
        invariant clean ==> Unfailed(index, failed, best) && Unfailed(index, failed, Some(top))
        invariant best == if i == |attach| then old(best) else Some(attach[i])
        invariant i < |attach| && flushToDisk ==> OnDisk()
        invariant candidates == old(candidates) && failed == old(failed)
      {
        i := i - 1;
        assert attach[i] in attach;
        if clean {
          UnfailedBelow(index, failed, Some(attach[i]), Some(top));
        }
        ok := SetBestChain(attach[i], verify, flushToDisk);
        if !ok {
          return;
        }
      }
      ok := true;
    }

    // ---------- finding a block of the active chain ----------

    /** Walks along the active chain, down or up, to a height. */
    method WalkTo(start: BlockId, height: nat) returns (id: BlockId)
      requires WellFormed(index) && Known(index, best) && NextIsMain(index, best, next)
      requires best.Some? && height <= index[best.value].height
      requires start in index && Ancestor(index, Some(start), best)
      ensures id in index && Ancestor(index, Some(id), best) && index[id].height == height
    {
      hide NextIsMain, WellFormed, Ancestor;
      id := start;
      while index[id].height > height
        invariant id in index && Ancestor(index, Some(id), best)
        decreases index[id].height
      {
        StepBack(index, id, best);
        id := index[id].prev.value;
      }
      while index[id].height < height
        invariant id in index && Ancestor(index, Some(id), best) && index[id].height <= height
        decreases height - index[id].height
      {
        StepForward(index, id, best, next);
        id := next[id];
      }
    }

    /** The block of the active chain at a height, looked for from the nearest of three places. */
    method FindBlockByHeight(height: nat) returns (id: BlockId)
      requires Valid() && best.Some? && height <= index[best.value].height
      modifies this`lastFound
      ensures Valid() && lastFound == Some(id)
      ensures id in index && Ancestor(index, Some(id), best) && index[id].height == height
    {
      hide AtTip, UndoIsRight, Undoable, SupplyIsRight, SupplyRecorded, NextIsMain, WellFormed, Ancestor, GenesisKnown;
      BestIsKnown();
      GenesisIsMain(index, best, genesis);
      AncestorRefl(index, best);
      var start := if height < index[best.value].height / 2 then genesis.value else best.value;
      if lastFound.Some? {
        AncestorFacts(index, lastFound, best);
        if Distance(height, index[start].height) > Distance(height, index[lastFound.value].height) {
          start := lastFound.value;
        }
      }
      id := WalkTo(start, height);
      lastFound := Some(id);
    }

    // ---------- new blocks ----------

    /**
     Adds a block whose predecessor is known, and lets it compete for the active chain. Its
     entry is one higher than its predecessor's and shows the work of the whole branch.
     */
    method AddToBlockIndex(id: BlockId, block: Block, prev: Tip, verify: BlockId -> bool, flushToDisk: bool)
      returns (ok: bool)
      requires Valid() && (if prev.Some? then prev.value in index else index == map[])
      modifies this, coinsTip.Repr
      ensures Valid()
      ensures old(id in index) ==> !ok && index == old(index) && best == old(best) && candidates == old(candidates)
      ensures old(id !in index) ==> id in index && index == old(index)[id := index[id]]
      ensures old(id !in index) ==> index[id].prev == prev && index[id].block == block
      ensures old(id !in index) ==>
                index[id].height == if prev.Some? then old(index)[prev.value].height + 1 else 0
      ensures old(id !in index) ==>
                index[id].work == (if prev.Some? then old(index)[prev.value].work else 0) + Target.Work(block.bits)
      ensures ok ==> forall c :: c in index && c !in failed ==> best.Some? && index[c].work <= index[best.value].work
      ensures ok && best != old(best) && flushToDisk ==> OnDisk()
      ensures best == old(best) || (best.Some? && best.value in index && Known(index, old(best))
                                    && Heavier(index, best.value, old(best)))
      ensures ok ==> Explained(index, old(failed), failed)
      ensures old(id !in index) && !ok ==>
                exists top, b :: top in index && Refused(index, best, top, verify, b)
                                 && b in failed && Explained(index, old(failed), failed - {b})
      ensures old(failed) <= failed
      ensures old(id !in index && Unfailed(index, failed, best)) ==>
                Unfailed(index, failed, best) && (!ok ==> old(failed) < failed)
    {
      hide AtTip, UndoIsRight, Undoable, SupplyIsRight, SupplyRecorded, NextIsMain, WellFormed, Ancestor, Target.Work, Unfailed;
      hide WorkIsRight, Explained, Refused;
      BestIsKnown();
      if id in index {
        return false;
      }
      var node := if prev.Some? then
        BlockIndex(prev, index[prev.value].height + 1, index[prev.value].work + Target.Work(block.bits), block)
      else
        BlockIndex(prev, 0, Target.Work(block.bits), block);
      Target.WorkRange(block.bits);
      ghost var t := index;
      AddNode(index, id, node);
      WorkGrow(index, id, node);
      index := index[id := node];
      GrowRecords(t, index, best, undo, supply, next);
      GrowTip(t, index, best, coinsTip);
      if Unfailed(t, failed, best) {
        UnfailedGrow(t, index, failed, best);
      }
      if lastFound.Some? {
        AncestorFacts(t, lastFound, best);
        AncestorGrow(t, index, lastFound, best);
      }
      candidates := candidates + {id};
      ok := ConnectBestBlock(verify, flushToDisk);
    }
  }
}
