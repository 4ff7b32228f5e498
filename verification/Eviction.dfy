/**
 Which entry leaves a full tried bucket: a few entries are drawn to the front at random, and of
 these the one that was connected to least recently is meant to go. What is kept of it is the
 place it was drawn from, where another entry stands by then.
 */
module Eviction {
  import opened AddrTables
  import opened Common

  const TRIED_ENTRIES_INSPECT_ON_EVICT: nat := 4

  /** One position a round, none of them before the place it is swapped with. */
  predicate Draws(n: nat, draws: seq<nat>) {
    |draws| <= n && forall i :: 0 <= i < |draws| ==> i <= draws[i] < n
  }

  predicate AllDrawn(n: nat, draws: seq<nat>) {
    Draws(n, draws) && |draws| == if n < TRIED_ENTRIES_INSPECT_ON_EVICT then n else TRIED_ENTRIES_INSPECT_ON_EVICT
  }

  /** The bucket after some rounds. The entry inspected in round i stands at position i. */
  function Drawn(bucket: seq<nat>, draws: seq<nat>): (r: seq<nat>)
    requires Draws(|bucket|, draws)
    ensures |r| == |bucket|
  {
    if draws == [] then
      bucket
    else
      var k := |draws| - 1;
      assert Draws(|bucket|, draws[..k]);
      SwapIn(Drawn(bucket, draws[..k]), k, draws[k])
  }

  ghost predicate AllIn(info: map<nat, Info>, ids: seq<nat>) {
    forall i :: 0 <= i < |ids| ==> ids[i] in info
  }

  /** The round of the entry that was connected to least recently, the first one if there are more. */
  function OldestRound(info: map<nat, Info>, ids: seq<nat>): (w: nat)
    requires ids != [] && forall i :: 0 <= i < |ids| ==> ids[i] in info
    ensures w < |ids|
    ensures forall i :: 0 <= i < |ids| ==> info[ids[w]].lastSuccess <= info[ids[i]].lastSuccess
    ensures forall i :: 0 <= i < w ==> info[ids[w]].lastSuccess < info[ids[i]].lastSuccess
  {
    var k := |ids| - 1;
    if k == 0 then
      0
    else
      var w := OldestRound(info, ids[..k]);
      if info[ids[k]].lastSuccess < info[ids[w]].lastSuccess then k else w
  }

  lemma SwapIsPermutation(s: seq<nat>, i: nat, j: nat)
    requires i < |s| && j < |s|
    ensures |SwapIn(s, i, j)| == |s| && multiset(SwapIn(s, i, j)) == multiset(s)
  {
  }

  lemma {:induction false} DrawnIsPermutation(bucket: seq<nat>, draws: seq<nat>)
    requires Draws(|bucket|, draws)
    ensures multiset(Drawn(bucket, draws)) == multiset(bucket)
  {
    if draws != [] {
      var k := |draws| - 1;
      assert Draws(|bucket|, draws[..k]);
      DrawnIsPermutation(bucket, draws[..k]);
      SwapIsPermutation(Drawn(bucket, draws[..k]), k, draws[k]);
    }
  }

  lemma {:induction false} DrawnIsDistinct(bucket: seq<nat>, draws: seq<nat>)
    requires Draws(|bucket|, draws) && Distinct(bucket)
    ensures Distinct(Drawn(bucket, draws))
  {
    if draws != [] {
      var k := |draws| - 1;
      assert Draws(|bucket|, draws[..k]);
      DrawnIsDistinct(bucket, draws[..k]);
    }
  }

  /** One more round: the entry at n is inspected, and those inspected before stay where they are. */
  lemma DrawnStep(bucket: seq<nat>, draws: seq<nat>, n: nat)
    requires Draws(|bucket|, draws) && |draws| <= n < |bucket|
    ensures Draws(|bucket|, draws + [n])
    ensures var was, now := Drawn(bucket, draws), Drawn(bucket, draws + [n]);
            && now == SwapIn(was, |draws|, n)
            && now[..|draws| + 1] == was[..|draws|] + [was[n]]
  {
    assert (draws + [n])[..|draws|] == draws;
  }

  lemma OldestStep(info: map<nat, Info>, ids: seq<nat>, id: nat)
    requires ids != [] && AllIn(info, ids) && id in info
    ensures AllIn(info, ids + [id])
    ensures OldestRound(info, ids + [id]) ==
            if info[id].lastSuccess < info[ids[OldestRound(info, ids)]].lastSuccess then |ids| else OldestRound(info, ids)
  {
    assert (ids + [id])[..|ids|] == ids;
  }

  /** The position that is kept: where the oldest of the inspected entries was drawn from. */
  ghost function Selected(info: map<nat, Info>, bucket: seq<nat>, draws: seq<nat>): nat
    requires AllDrawn(|bucket|, draws) && bucket != []
    requires AllIn(info, Drawn(bucket, draws)[..|draws|])
  {
    draws[OldestRound(info, Drawn(bucket, draws)[..|draws|])]
  }

  /**
   The entry found at that position is the oldest of those inspected exactly when this one was
   drawn from the place it was swapped with.
   */
  lemma OldestIsSelectedWhen(info: map<nat, Info>, bucket: seq<nat>, draws: seq<nat>)
    requires AllDrawn(|bucket|, draws) && bucket != [] && Distinct(bucket)
    requires AllIn(info, Drawn(bucket, draws)[..|draws|])
    ensures var after := Drawn(bucket, draws);
            var w := OldestRound(info, after[..|draws|]);
            after[Selected(info, bucket, draws)] == after[w] <==> draws[w] == w
  {
    DrawnIsDistinct(bucket, draws);
  }

  function FullBucket(): (r: seq<nat>)
    ensures |r| == TRIED_BUCKET_SIZE && Distinct(r)
  {
    seq(TRIED_BUCKET_SIZE, i => i)
  }

  /** Entries that were connected to one after the other, the last one first. */
  function Entries(): map<nat, Info> {
    map id | id in FullBucket() :: Info(id, 0, 0, 0, id, 1000 - id, 1000 - id, 0, 0, true, id)
  }

  lemma DrawnInPlace(bucket: seq<nat>, draws: seq<nat>, k: nat)
    requires Draws(|bucket|, draws) && |draws| == k < |bucket|
    ensures Draws(|bucket|, draws + [k]) && Drawn(bucket, draws + [k]) == Drawn(bucket, draws)
  {
    DrawnStep(bucket, draws, k);
    SwapInPlace(Drawn(bucket, draws), k);
  }

  lemma SwapInPlace(s: seq<nat>, k: nat)
    requires k < |s|
    ensures SwapIn(s, k, k) == s
  {
  }

  /** The oldest entry of all is inspected, but the one that was connected to last is found. */
  lemma NewestIsSelected()
    ensures var draws := [TRIED_BUCKET_SIZE - 1, 1, 2, 3];
            && AllDrawn(TRIED_BUCKET_SIZE, draws)
            && var after := Drawn(FullBucket(), draws);
            && AllIn(Entries(), after[..4])
            && after[OldestRound(Entries(), after[..4])] == TRIED_BUCKET_SIZE - 1
            && after[Selected(Entries(), FullBucket(), draws)] == 0
  {
    var n := TRIED_BUCKET_SIZE - 1;
    hide Entries, Drawn, SwapIn, FullBucket;
    DrawnFour(FullBucket(), n);
    FrontOfFull(n);
    OldestIsFirst([n, 1, 2, 3]);
  }

  lemma DrawnFour(b: seq<nat>, n: nat)
    requires 4 <= n < |b|
    ensures AllDrawn(|b|, [n, 1, 2, 3]) && Drawn(b, [n, 1, 2, 3]) == SwapIn(b, 0, n)
  {
    hide Drawn, SwapIn;
    DrawnFirst(b, n);
    DrawnInPlace(b, [n], 1);
    assert [n] + [1] == [n, 1];
    DrawnInPlace(b, [n, 1], 2);
    assert [n, 1] + [2] == [n, 1, 2];
    DrawnInPlace(b, [n, 1, 2], 3);
    assert [n, 1, 2] + [3] == [n, 1, 2, 3];
  }

  lemma DrawnFirst(b: seq<nat>, n: nat)
    requires n < |b|
    ensures Draws(|b|, [n]) && Drawn(b, [n]) == SwapIn(b, 0, n)
  {
    assert [n][..0] == [];
  }

  lemma FrontOfFull(n: nat)
    requires n == TRIED_BUCKET_SIZE - 1
    ensures SwapIn(FullBucket(), 0, n)[..4] == [n, 1, 2, 3] && SwapIn(FullBucket(), 0, n)[n] == 0
  {
  }

  lemma OldestIsFirst(front: seq<nat>)
    requires |front| == 4 && front[0] == TRIED_BUCKET_SIZE - 1
    requires forall i :: 0 < i < 4 ==> front[i] < TRIED_BUCKET_SIZE - 1
    ensures AllIn(Entries(), front) && OldestRound(Entries(), front) == 0
  {
    LastFirst();
    hide Entries;
    assert AllIn(Entries(), front);
    var w := OldestRound(Entries(), front);
    assert Entries()[front[w]].lastSuccess <= Entries()[front[0]].lastSuccess;
  }

  lemma LastFirst()
    ensures forall id :: 0 <= id < TRIED_BUCKET_SIZE ==> id in Entries() && Entries()[id].lastSuccess == 1000 - id
  {
    forall id | 0 <= id < TRIED_BUCKET_SIZE
      ensures id in FullBucket()
    {
      assert FullBucket()[id] == id;
    }
  }
}
