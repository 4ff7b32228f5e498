/**
 The address manager: remembers addresses of nodes in buckets of limited size, the ones it
 could connect to apart from the ones it only heard of.
 */
module AddrMan {
  import opened AddrDisk
  import opened AddrTables
  import opened Arith
  import opened Common
  import opened Eviction

  const HORIZON_DAYS: int := 30
  const RETRIES: int := 3
  const MAX_FAILURES: int := 10
  const MIN_FAIL_DAYS: int := 7
  const GETADDR_MAX_PCT: nat := 23
  const GETADDR_MAX: nat := 2500

  /** An address as another node announces it. */
  datatype Address = Address(ip: NetAddr, port: nat, services: bv64, time: int)

  /** Statistics so bad that an entry can just be deleted. */
  predicate IsTerrible(i: Info, now: int) {
    if i.lastTry != 0 && i.lastTry >= now - 60 then false
    else if i.time > now + 10 * 60 then true
    else if i.time == 0 || now - i.time > HORIZON_DAYS * 86400 then true
    else if i.lastSuccess == 0 && i.attempts >= RETRIES then true
    else now - i.lastSuccess > MIN_FAIL_DAYS * 86400 && i.attempts >= MAX_FAILURES
  }

  /**
   An entry not tried in the last minute is terrible if its time is unknown, ten minutes ahead or
   thirty days back, after three attempts without any success, and after ten of which the last
   success is a week back.
   */
  lemma TerribleWhen(i: Info, now: int)
    ensures IsTerrible(i, now) <==>
              && (i.lastTry == 0 || now - i.lastTry > 60)
              && (|| i.time == 0 || i.time - now > 600 || now - i.time > 2_592_000
                  || (i.lastSuccess == 0 && i.attempts >= 3)
                  || (now - i.lastSuccess > 604_800 && i.attempts >= 10))
  {
  }

  /** Entries that were tried are still there, with the same address. */
  ghost predicate TriedRemain(info: map<nat, Info>, info': map<nat, Info>) {
    forall id :: id in info && info[id].inTried ==>
      id in info' && info'[id].ip == info[id].ip && info'[id].port == info[id].port
  }

  method GetRandInt(n: nat) returns (r: nat)
    requires n > 0
    ensures r < n
  {
    r :| 0 <= r < n;
  }

  class AddrManager {
    const hashes: Hashes
    var idCount: nat
    var mapInfo: map<nat, Info>
    var mapAddr: map<NetAddr, nat>
    var vRandom: seq<nat>
    var nTried: int
    var vvTried: seq<seq<nat>>
    var nNew: int
    var vvNew: seq<set<nat>>

    /** The tables as one value. */
    ghost function View(): Tables
      reads this
    {
      Tables(idCount, mapInfo, mapAddr, vRandom, nTried, vvTried, nNew, vvNew)
    }

    ghost predicate Valid()
      reads this
    {
      Check(hashes, View(), None)
    }

    constructor (hashes: Hashes)
      ensures Valid() && mapInfo == map[] && this.hashes == hashes
    {
      this.hashes := hashes;
      idCount, mapInfo, mapAddr, vRandom, nTried, nNew := 0, map[], map[], [], 0, 0;
      vvTried := seq(TRIED_BUCKET_COUNT, _ => []);
      vvNew := seq(NEW_BUCKET_COUNT, _ => {});
      new;
      assert TriedIds(mapInfo) == {} && NewIds(mapInfo) == {};
    }

    /** Swaps two places of the random order. */
    method SwapRandom(i: nat, j: nat)
      requires RandomOk(mapInfo, vRandom) && i < |vRandom| && j < |vRandom|
      modifies this`mapInfo, this`vRandom
      ensures old(vRandom)[i] in old(mapInfo) && old(vRandom)[j] in old(mapInfo)
      ensures View() == Swapped(old(View()), i, j)
    {
      RandomAt(mapInfo, vRandom, i);
      RandomAt(mapInfo, vRandom, j);
      if i == j {
        return;
      }
      var a, b := vRandom[i], vRandom[j];
      assert a in mapInfo && b in mapInfo;
      mapInfo := mapInfo[a := mapInfo[a].(randomPos := j)];
      mapInfo := mapInfo[b := mapInfo[b].(randomPos := i)];
      vRandom := vRandom[i := b][j := a];
    }

    /** Moves an entry to the end of the random order and removes it, with its place in a new bucket. */
    method Delete(b: nat, id: nat)
      requires RandomOk(mapInfo, vRandom) && b < |vvNew| && id in mapInfo
      modifies this`mapInfo, this`mapAddr, this`vRandom, this`nNew, this`vvNew
      ensures Removable(old(View()), id)
      ensures View() == LastRemoved(Swapped(old(View()), old(mapInfo)[id].randomPos, |old(vRandom)| - 1), b)
    {
      hide Swapped, LastRemoved, RandomOk;
      RandomPlaces(mapInfo, vRandom, id);
      var ip := mapInfo[id].ip;
      var last := |vRandom| - 1;
      SwapPlaces(View(), mapInfo[id].randomPos, last);
      SwapRandom(mapInfo[id].randomPos, last);
      RemovedIs(View(), b, id);
      vRandom := vRandom[..last];
      mapAddr := mapAddr - {ip};
      mapInfo := mapInfo - {id};
      nNew := nNew - 1;
      vvNew := vvNew[b := vvNew[b] - {id}];
    }

    /** Takes an entry out of a new bucket, and deletes it if that was its only one. */
    method Drop(b: nat, id: nat, ghost pending: Option<nat>)
      requires Check(hashes, View(), pending) && b < |vvNew| && id in vvNew[b] && pending != Some(id)
      modifies this`mapInfo, this`mapAddr, this`vRandom, this`nNew, this`vvNew
      ensures RandomOk(old(mapInfo), old(vRandom)) && id in old(mapInfo)
      ensures View() == Dropped(old(View()), b, id) && Check(hashes, View(), pending)
    {
      hide Check, Swapped, LastRemoved, RandomOk;
      DropKeeps(hashes, View(), pending, b, id);
      var info := mapInfo[id];
      if info.refCount - 1 == 0 {
        Delete(b, id);
      } else {
        mapInfo := mapInfo[id := info.(refCount := info.refCount - 1)];
        vvNew := vvNew[b := vvNew[b] - {id}];
      }
    }

    /**
     Makes room in a full new bucket: by an entry with terrible statistics if there is one, else
     by the oldest of a few chosen at random.
     */
    method ShrinkNew(b: nat, now: int, ghost pending: Option<nat>)
      returns (result: int, ghost out: nat, ghost sample: seq<nat>)
      requires Check(hashes, View(), pending) && b < |vvNew| && vvNew[b] != {}
      requires pending.Some? ==> pending.value !in vvNew[b]
      modifies this`mapInfo, this`mapAddr, this`vRandom, this`nNew, this`vvNew
      ensures out in old(vvNew)[b] && vvNew == old(vvNew)[b := old(vvNew)[b] - {out}]
      ensures RandomOk(old(mapInfo), old(vRandom)) && out in old(mapInfo)
      ensures View() == Dropped(old(View()), b, out) && Check(hashes, View(), pending)
      ensures forall id :: id in old(vvNew)[b] ==> id in old(mapInfo)
      ensures if result == 0 then IsTerrible(old(mapInfo)[out], now)
              else (forall id :: id in old(vvNew)[b] ==> !IsTerrible(old(mapInfo)[id], now))
                   && |sample| == 4 && out in sample
                   && forall id :: id in sample ==> id in old(vvNew)[b] && old(mapInfo)[out].time <= old(mapInfo)[id].time
    {
      hide Check, RandomOk, Dropped;
      AllKnown(hashes, View(), pending, b);
      DroppedBucket(View(), pending, b);
      sample := [];
      if exists id :: id in vvNew[b] && IsTerrible(mapInfo[id], now) {
        var id :| id in vvNew[b] && IsTerrible(mapInfo[id], now);
        Drop(b, id, pending);
        return 0, id, sample;
      }
      var chosen := ChooseFour(vvNew[b]);
      var oldest := OldestOf(chosen);
      Drop(b, oldest, pending);
      return 1, oldest, chosen;
    }

    /** Four entries of a bucket at random, possibly the same ones. */
    static method ChooseFour(bucket: set<nat>) returns (chosen: seq<nat>)
      requires bucket != {}
      ensures |chosen| == 4 && forall id :: id in chosen ==> id in bucket
    {
      chosen := [];
      while |chosen| < 4
        invariant |chosen| <= 4 && forall id :: id in chosen ==> id in bucket
      {
        var id :| id in bucket;
        chosen := chosen + [id];
      }
    }

    /** The one of some entries that was seen least recently. */
    method OldestOf(ids: seq<nat>) returns (oldest: nat)
      requires ids != [] && forall id :: id in ids ==> id in mapInfo
      ensures oldest in ids && forall id :: id in ids ==> mapInfo[oldest].time <= mapInfo[id].time
    {
      oldest := ids[0];
      var n := 1;
      while n < |ids|
        invariant 1 <= n <= |ids| && oldest in ids
        invariant forall i :: 0 <= i < n ==> mapInfo[oldest].time <= mapInfo[ids[i]].time
      {
        if mapInfo[ids[n]].time < mapInfo[oldest].time {
          oldest := ids[n];
        }
        n := n + 1;
      }
    }

    /**
     Draws some entries of a tried bucket to its front and returns where the oldest of them was
     drawn from. That entry is at position `winner` then, so it is found at the position
     returned exactly when it was drawn from there.
     */
    method SelectTried(k: nat) returns (pos: nat, ghost draws: seq<nat>, ghost winner: nat)
      requires Valid() && k < |vvTried| && vvTried[k] != []
      modifies this`vvTried
      ensures Valid() && |vvTried| == |old(vvTried)| && pos < |vvTried[k]| == |old(vvTried)[k]|
      ensures vvTried == old(vvTried)[k := vvTried[k]] && multiset(vvTried[k]) == multiset(old(vvTried)[k])
      ensures AllDrawn(|old(vvTried)[k]|, draws) && vvTried[k] == Drawn(old(vvTried)[k], draws)
      ensures AllIn(mapInfo, vvTried[k][..|draws|]) && winner == OldestRound(mapInfo, vvTried[k][..|draws|])
      ensures pos == draws[winner] == Selected(mapInfo, old(vvTried)[k], draws)
      ensures vvTried[k][pos] == vvTried[k][winner] <==> draws[winner] == winner
    {
      hide Check, Inspected, SwapIn, Distinct;
      pos, draws, winner := 0, [], 0;
      ghost var bucket := vvTried[k];
      TriedIsDistinct(hashes, View(), k);
      var oldest: Option<nat> := None;
      var i: nat := 0;
      NoneInspected(bucket, mapInfo, winner, pos);
      while i < TRIED_ENTRIES_INSPECT_ON_EVICT && i < |vvTried[k]|
        invariant Valid() && |vvTried| == |old(vvTried)| && vvTried == old(vvTried)[k := vvTried[k]]
        invariant i <= TRIED_ENTRIES_INSPECT_ON_EVICT && i <= |bucket| == |vvTried[k]| && i == |draws|
        invariant Inspected(bucket, vvTried[k], mapInfo, draws, oldest, winner, pos)
      {
        var n := GetRandInt(|vvTried[k]| - i);
        n := n + i;
        var id := vvTried[k][n];
        KnownTried(hashes, View(), None, k, n);
        TriedSwapKeeps(hashes, View(), None, k, i, n);
        InspectedStep(bucket, vvTried[k], mapInfo, draws, oldest, winner, pos, n);
        vvTried := vvTried[k := SwapIn(vvTried[k], i, n)];
        draws := draws + [n];
        if oldest.None? || mapInfo[id].lastSuccess < mapInfo[oldest.value].lastSuccess {
          oldest := Some(id);
          pos := n;
          winner := i;
        }
        i := i + 1;
      }
      AllInspected(bucket, vvTried[k], mapInfo, draws, oldest, winner, pos);
    }

    /** Takes an id out of every new bucket, counting down its references. */
    method LeaveNewBuckets(id: nat)
      requires RefCountsOk(mapInfo, vvNew, None) && id in mapInfo
      modifies this`mapInfo, this`vvNew
      ensures vvNew == Cleared(old(vvNew), id)
      ensures mapInfo == old(mapInfo)[id := old(mapInfo)[id].(refCount := 0)]
    {
      hide Cleared, ClearedTo;
      ClearedEnds(vvNew, id);
      var b: nat := 0;
      while b < |vvNew|
        invariant |vvNew| == |old(vvNew)| && b <= |vvNew| && vvNew == ClearedTo(old(vvNew), id, b)
        invariant id in mapInfo
        invariant mapInfo == old(mapInfo)[id := old(mapInfo)[id].(refCount := Occ(vvNew, id))]
      {
        ClearedStep(old(vvNew), id, b);
        OccUpdate(vvNew, b, vvNew[b] - {id}, id);
        if id in vvNew[b] {
          mapInfo := mapInfo[id := mapInfo[id].(refCount := mapInfo[id].refCount - 1)];
        }
        vvNew := vvNew[b := vvNew[b] - {id}];
        b := b + 1;
      }
      OccCleared(old(vvNew), id, id);
      assert mapInfo[id].refCount == 0;
    }

    /**
     Moves an entry from the new buckets to its tried bucket. If that is full, the entry found
     at the selected position is evicted from it, back to a new bucket: its own, or the one the
     entry came from, which has room now.
     */
    method MakeTried(id: nat, origin: nat)
      requires Valid() && origin < |vvNew| && id in vvNew[origin] && id in mapInfo && mapInfo[id].lastSuccess > 0
      modifies this`mapInfo, this`vvNew, this`vvTried, this`nTried, this`nNew
      ensures Valid() && mapInfo.Keys == old(mapInfo).Keys && mapInfo[id] == AsTried(old(mapInfo)[id])
      ensures forall x :: x in mapInfo ==> mapInfo[x].ip == old(mapInfo)[x].ip && mapInfo[x].port == old(mapInfo)[x].port
      ensures TriedRemain(old(mapInfo), mapInfo)
      ensures MovedToTried(hashes, old(View()), View(), id, origin)
    {
      hide Check, RandomOk, AddrOk, TriedOk, InfosOk, Cleared, RefCountsOk, Promoted, Replaced;
      MakeTriedFacts(hashes, View(), id, origin);
      ghost var before := View();
      var info := mapInfo[id];
      var k := TriedBucket(hashes, info);
      if |vvTried[k]| < TRIED_BUCKET_SIZE {
        PromoteKeeps(hashes, View(), id);
        LeaveNewBuckets(id);
        vvTried := vvTried[k := vvTried[k] + [id]];
        nNew, nTried := nNew - 1, nTried + 1;
        mapInfo := mapInfo[id := mapInfo[id].(inTried := true)];
        PromotedIs(hashes, before, View(), id);
        return;
      }
      ghost var draws, winner;
      var pos;
      pos, draws, winner := SelectTried(k);
      ghost var shuffled := View();
      assert Shuffled(before, shuffled, k, draws);
      Evict(id, origin, k, pos);
      EvictedEntries(hashes, shuffled, View(), id, pos, origin);
    }

    /** Puts an entry in the place of the one at a position of its tried bucket, which goes back to a new bucket. */
    method Evict(id: nat, origin: nat, k: nat, pos: nat)
      requires Valid() && origin < |vvNew| && id in vvNew[origin] && id in mapInfo && mapInfo[id].lastSuccess > 0
      requires k == TriedBucket(hashes, mapInfo[id]) && k < |vvTried| && pos < |vvTried[k]|
      modifies this`mapInfo, this`vvNew, this`vvTried, this`nTried, this`nNew
      ensures Valid()
      ensures EvictedFor(hashes, old(View()), View(), id, pos, origin)
    {
      hide Check, RandomOk, AddrOk, TriedOk, InfosOk, Cleared, RefCountsOk, Replaced, TriedBucket;
      MakeTriedFacts(hashes, View(), id, origin);
      ghost var before := View();
      KnownTried(hashes, before, None, k, pos);
      var out := vvTried[k][pos];
      LeaveNewBuckets(id);
      nNew := nNew - 1;
      var own := NewBucket(hashes, mapInfo[out].ip, mapInfo[out].source);
      var b := if |vvNew[own]| < NEW_BUCKET_SIZE then own else origin;
      mapInfo := mapInfo[out := mapInfo[out].(inTried := false, refCount := 1)];
      vvNew := vvNew[b := vvNew[b] + {out}];
      nNew := nNew + 1;
      vvTried := vvTried[k := Put(vvTried[k], pos, id)];
      mapInfo := mapInfo[id := mapInfo[id].(inTried := true)];
      ReplaceKeeps(hashes, before, id, pos, b);
      ReplacedIs(hashes, before, View(), id, pos, b);
    }

    /** The id and the entry of exactly this address and port, if there is one. */
    ghost predicate Knows(ip: NetAddr, port: nat)
      reads this
    {
      ip in mapAddr && mapAddr[ip] in mapInfo && mapInfo[mapAddr[ip]].port == port
    }

    /** A new bucket the entry is in, looking around from a random one. */
    method FindBucket(id: nat) returns (b: nat)
      requires |vvNew| == NEW_BUCKET_COUNT && exists c :: 0 <= c < |vvNew| && id in vvNew[c]
      ensures b < |vvNew| && id in vvNew[b]
    {
      var start := GetRandInt(|vvNew|);
      ghost var c :| 0 <= c < |vvNew| && id in vvNew[c];
      ghost var end: nat := if c >= start then c - start else c + |vvNew| - start;
      assert (end + start) % |vvNew| == c;
      var n: nat := 0;
      while id !in vvNew[(n + start) % |vvNew|]
        invariant n <= end
        decreases end - n
      {
        n := n + 1;
      }
      b := (n + start) % |vvNew|;
    }

    /**
     An entry that was connected to is noted as good and belongs to the tried ones from then on.
     The search for the bucket it is in never fails.
     */
    method Good(ip: NetAddr, port: nat, time: int)
      requires Valid() && time > 0
      modifies this
      ensures Valid() && mapInfo.Keys == old(mapInfo).Keys && mapAddr == old(mapAddr)
      ensures !old(Knows(ip, port)) ==> View() == old(View())
      ensures old(Knows(ip, port)) ==>
                var i := mapInfo[mapAddr[ip]];
                i.inTried && i.lastSuccess == i.lastTry == i.time == time && i.attempts == 0
      ensures forall x :: x in mapInfo ==> mapInfo[x].ip == old(mapInfo)[x].ip && mapInfo[x].port == old(mapInfo)[x].port
      ensures old(Knows(ip, port)) ==> MadeGood(hashes, old(View()), View(), mapAddr[ip], time)
    {
      hide Check, MovedToTried;
      FoundFacts(hashes, View(), ip);
      if ip !in mapAddr {
        return;
      }
      var id := mapAddr[ip];
      var info := mapInfo[id];
      if info.port != port {
        return;
      }
      info := info.(lastSuccess := time, lastTry := time, time := time, attempts := 0);
      TouchKeeps(hashes, View(), None, id, info);
      mapInfo := mapInfo[id := info];
      if info.inTried {
        return;
      }
      NewInBucket(hashes, View(), id);
      var b := FindBucket(id);
      ghost var noted := View();
      MakeTried(id, b);
      assert MovedToTried(hashes, noted, View(), id, b);
    }

    /** An attempt to connect is counted. */
    method Attempt(ip: NetAddr, port: nat, time: int)
      requires Valid() && time > 0
      modifies this`mapInfo
      ensures Valid()
      ensures mapInfo == if old(Knows(ip, port)) then
                           var i := old(mapInfo)[mapAddr[ip]];
                           old(mapInfo)[mapAddr[ip] := i.(lastTry := time, attempts := i.attempts + 1)]
                         else old(mapInfo)
    {
      hide Check;
      FoundFacts(hashes, View(), ip);
      if ip in mapAddr && mapInfo[mapAddr[ip]].port == port {
        var id := mapAddr[ip];
        var info := mapInfo[id].(lastTry := time, attempts := mapInfo[id].attempts + 1);
        TouchKeeps(hashes, View(), None, id, info);
        mapInfo := mapInfo[id := info];
      }
    }

    /** A live connection refreshes the time, but not more often than every twenty minutes. */
    method Connected(ip: NetAddr, port: nat, time: int)
      requires Valid() && time > 0
      modifies this`mapInfo
      ensures Valid()
      ensures mapInfo == if old(Knows(ip, port)) && time - old(mapInfo)[mapAddr[ip]].time > 20 * 60 then
                           old(mapInfo)[mapAddr[ip] := old(mapInfo)[mapAddr[ip]].(time := time)]
                         else old(mapInfo)
    {
      hide Check;
      FoundFacts(hashes, View(), ip);
      if ip in mapAddr && mapInfo[mapAddr[ip]].port == port {
        var id := mapAddr[ip];
        if time - mapInfo[id].time > 20 * 60 {
          TouchKeeps(hashes, View(), None, id, mapInfo[id].(time := time));
          mapInfo := mapInfo[id := mapInfo[id].(time := time)];
        }
      }
    }

    /** Creates an entry, which is to join its first new bucket next. */
    method Create(addr: Address, source: NetAddr, penalty: int) returns (id: nat)
      requires Valid() && addr.ip !in mapAddr
      modifies this`idCount, this`mapInfo, this`mapAddr, this`vRandom, this`nNew
      ensures id == old(idCount) && View() == Created(old(View()), NewInfo(addr, source, penalty))
      ensures Check(hashes, View(), Some(id))
    {
      hide Check;
      CreateKeeps(hashes, View(), NewInfo(addr, source, penalty));
      id := idCount;
      idCount := idCount + 1;
      mapInfo := mapInfo[id := NewInfo(addr, source, penalty)];
      mapAddr := mapAddr[addr.ip := id];
      mapInfo := mapInfo[id := mapInfo[id].(randomPos := |vRandom|)];
      vRandom := vRandom + [id];
      nNew := nNew + 1;
      mapInfo := mapInfo[id := mapInfo[id].(refCount := mapInfo[id].refCount + 1)];
    }

    /** Puts an entry that counts it already into a new bucket, making room there first if need be. */
    method Join(id: nat, b: nat, now: int)
      requires Check(hashes, View(), Some(id)) && b < |vvNew| && id !in vvNew[b] && id in mapInfo
      modifies this`mapInfo, this`mapAddr, this`vRandom, this`nNew, this`vvNew
      ensures Valid() && id in vvNew[b] && AtMostOneLess(old(mapInfo), old(mapAddr), mapInfo, mapAddr, id)
      ensures JoinedAs(old(View()), View(), id, b, now)
    {
      hide Check, Dropped, RandomOk, AtMostOneLess;
      BucketFacts(hashes, View(), Some(id));
      NoneLess(hashes, View(), Some(id), id);
      if |vvNew[b]| == NEW_BUCKET_SIZE {
        ghost var before := View();
        ghost var out, sample;
        var result;
        result, out, sample := ShrinkNew(b, now, Some(id));
        assert MadeRoom(before, View(), b, out, now);
        DroppedFacts(hashes, before, Some(id), b, out, id);
        Shrinks(before.news[b] - {out}, before.news[b]);
      }
      JoinKeeps(hashes, View(), b, id);
      vvNew := vvNew[b := vvNew[b] + {id}];
    }

    /** Whether what is said of a known entry is news; its time and services are brought up to date first. */
    method Update(id: nat, addr: Address, penalty: int, now: int) returns (proceed: bool, ghost lot: nat)
      requires Valid() && id in mapInfo
      modifies this`mapInfo
      ensures Valid() && mapInfo.Keys == old(mapInfo).Keys
      ensures mapInfo == old(mapInfo)[id := Refreshed(old(mapInfo)[id], addr, penalty, now)]
      ensures SameEntry(mapInfo[id], old(mapInfo)[id])
      ensures lot < Chances(mapInfo[id].refCount) && mapInfo[id].refCount <= NEW_BUCKETS_PER_ADDRESS
      ensures proceed <==> IsNews(mapInfo[id], addr) && lot == 0
    {
      hide Check, InfoOk;
      hide Refreshed;
      var info := Refreshed(mapInfo[id], addr, penalty, now);
      EntryFacts(hashes, View(), None, id);
      RefreshedFacts(mapInfo[id], addr, penalty, now);
      TouchKeeps(hashes, View(), None, id, info);
      mapInfo := mapInfo[id := info];
      lot := 0;
      if addr.time == 0 || (info.time != 0 && addr.time <= info.time) || info.inTried
         || info.refCount == NEW_BUCKETS_PER_ADDRESS {
        return false, lot;
      }
      proceed, lot := DrawLot(info.refCount);
    }

    /** Each reference halves the chance of another one. */
    method DrawLot(refCount: int) returns (lucky: bool, ghost lot: nat)
      ensures lot < Chances(refCount) && (lucky <==> lot == 0)
    {
      var factor: nat, n := 1, 0;
      while n < refCount
        invariant 0 <= n && (n == 0 || n <= refCount) && factor == Pow2(n)
      {
        factor := factor * 2;
        n := n + 1;
      }
      var r := GetRandInt(factor);
      lucky, lot := !(factor > 1 && r != 0), r;
    }

    /**
     Adds an address heard of. It is new exactly when it is routable and was not known; to make
     room at most one entry is deleted, and never a tried one.
     */
    method Add(addr: Address, routable: bool, source: NetAddr, penalty: int, now: int) returns (isNew: bool, ghost lot: nat)
      requires Valid()
      modifies this
      ensures Valid() && isNew == (routable && addr.ip !in old(mapAddr))
      ensures routable ==> addr.ip in mapAddr
      ensures TriedRemain(old(mapInfo), mapInfo)
      ensures exists gone :: NoOtherGone(old(mapAddr), mapAddr, gone)
      ensures !routable ==> View() == old(View())
      ensures isNew ==> JoinedAs(Created(old(View()), NewInfo(addr, source, penalty)), View(), old(idCount),
                                 NewBucket(hashes, addr.ip, source), now)
      ensures routable && !isNew ==>
                var id := old(mapAddr)[addr.ip];
                id in old(mapInfo)
                && HeardAgain(hashes, old(View()).(info := old(mapInfo)[id := Refreshed(old(mapInfo)[id], addr, penalty, now)]),
                              View(), id, addr, source, now, lot)
    {
      hide Check, AtMostOneLess, Created, NewBucket, InfoOk, Refreshed, JoinedAs;
      FoundFacts(hashes, View(), addr.ip);
      NewBucketBound(hashes);
      AddressesStay(mapAddr, 0);
      lot := 0;
      if !routable {
        return false, lot;
      }
      var id: nat;
      ghost var start := mapInfo;
      if addr.ip in mapAddr {
        id := mapAddr[addr.ip];
        var proceed;
        proceed, lot := Update(id, addr, penalty, now);
        AddressesStay(mapAddr, 0);
        BucketFacts(hashes, View(), None);
        if !proceed {
          return false, lot;
        }
        isNew := false;
        var b := NewBucket(hashes, mapInfo[id].ip, source);
        if id !in vvNew[b] {
          BumpKeeps(hashes, View(), id);
          mapInfo := mapInfo[id := mapInfo[id].(refCount := mapInfo[id].refCount + 1)];
          ghost var middle, addrs := mapInfo, mapAddr;
          Join(id, b, now);
          OneLessMeans(middle, addrs, mapInfo, mapAddr, id);
        }
      } else {
        id := Create(addr, source, penalty);
        CreatedFacts(hashes, old(View()), NewInfo(addr, source, penalty));
        isNew := true;
        var b := NewBucket(hashes, addr.ip, source);
        ghost var middle, addrs := mapInfo, mapAddr;
        Join(id, b, now);
        OneLessMeans(middle, addrs, mapInfo, mapAddr, id);
        OneLessOfMore(old(mapAddr), addrs, mapAddr);
      }
    }

    /**
     A random choice of at most 23 percent of the addresses, and no more than 2500, without
     repetition: the first of the random order, once it was shuffled that far. Nothing but
     that order changes.
     */
    method GetAddr() returns (addrs: seq<NetAddr>)
      requires Valid()
      modifies this`mapInfo, this`vRandom
      ensures Valid() && Reordered(old(View()), View())
      ensures |addrs| <= |vRandom| && forall k :: 0 <= k < |vRandom| ==> vRandom[k] in mapInfo
      ensures |addrs| <= 2500 && 100 * |addrs| <= 23 * |vRandom| && (|addrs| == 2500 || 23 * |vRandom| < 100 * (|addrs| + 1))
      ensures addrs == Front(View(), |addrs|)
      ensures Distinct(addrs) && forall k :: 0 <= k < |addrs| ==> addrs[k] in mapAddr
    {
      hide Check, Swapped, Reordered;
      var count := GETADDR_MAX_PCT * |vRandom| / 100;
      if count > GETADDR_MAX {
        count := GETADDR_MAX;
      }
      addrs := [];
      var n: nat := 0;
      EntryPlaces(hashes, View());
      ReorderedNot(View());
      while n < count
        invariant Valid() && n <= count <= |vRandom| == |old(vRandom)|
        invariant Reordered(old(View()), View())
        invariant forall k :: 0 <= k < |vRandom| ==> vRandom[k] in mapInfo
        invariant addrs == Front(View(), n)
      {
        var pos := GetRandInt(|vRandom| - n);
        pos := pos + n;
        EntryPlaces(hashes, View());
        SwapKeeps(hashes, View(), None, n, pos);
        SwapKeepsFront(hashes, View(), n, pos);
        SwapReorders(old(View()), View(), n, pos);
        SwapRandom(n, pos);
        EntryPlaces(hashes, View());
        FrontStep(View(), n);
        addrs := addrs + [mapInfo[vRandom[n]].ip];
        n := n + 1;
      }
      FrontIsDistinct(hashes, View(), count);
    }

    /** Writes the new or the tried entries in the order of their ids, stopping when there can be no more. */
    method SaveEntries(tried: bool, count: int) returns (records: seq<Record>, index: map<nat, nat>)
      requires Valid() && count == if tried then nTried else nNew
      ensures var ids := IdsBelow(mapInfo, tried, idCount);
              && (forall i :: 0 <= i < |ids| ==> ids[i] in mapInfo)
              && records == Records(mapInfo, ids)
              && (forall i :: 0 <= i < |ids| ==> ids[i] in index && index[ids[i]] == i)
    {
      hide Check, InfoOk, IdsBelow;
      ghost var all := IdsBelow(mapInfo, tried, idCount);
      KindFacts(hashes, View(), tried);
      records, index := [], map[];
      NoIdsBelow(mapInfo, tried);
      var id: nat := 0;
      while id < idCount && |records| != count
        invariant id <= idCount && IdsBelow(mapInfo, tried, id) <= all
        invariant records == Records(mapInfo, IdsBelow(mapInfo, tried, id))
        invariant forall i :: 0 <= i < |records| ==> var x: nat := all[i]; x < id && x in index && index[x] == i
      {
        NextIdsBelow(mapInfo, tried, id);
        IdsBelowPrefix(mapInfo, tried, id + 1, idCount);
        if id in mapInfo {
          index := index[id := |records|];
          var written := if tried then mapInfo[id].inTried else mapInfo[id].refCount != 0;
          assert written == (mapInfo[id].inTried == tried);
          if written {
            records := records + [RecordOf(mapInfo[id])];
          }
        }
        id := id + 1;
      }
      assert IdsBelow(mapInfo, tried, id) == all;
    }

    /** Lists the entries of a new bucket by their numbers. */
    method SaveBucket(b: nat, ghost order: seq<nat>, index: map<nat, nat>) returns (list: seq<nat>)
      requires b < |vvNew| && Distinct(order)
      requires forall i :: 0 <= i < |order| ==> order[i] in index && index[order[i]] == i
      requires forall id :: id in vvNew[b] ==> id in order
      ensures BucketSaved(order, vvNew[b], list)
    {
      list := [];
      var todo := vvNew[b];
      while todo != {}
        invariant todo <= vvNew[b] && BucketSaved(order, vvNew[b] - todo, list)
        decreases |todo|
      {
        var id :| id in todo;
        assert id in order;
        ghost var was := list;
        list := list + [index[id]];
        ListedOneMore(order, vvNew[b] - todo, was, id, index[id]);
        assert vvNew[b] - todo + {id} == vvNew[b] - (todo - {id});
        todo := todo - {id};
      }
      assert vvNew[b] - todo == vvNew[b];
    }

    /** Writes the entries and the new buckets. */
    method Save() returns (d: Disk)
      requires Valid()
      ensures SavedAs(View(), d)
    {
      hide Check, IdsBelow, BucketSaved;
      var news, index := SaveEntries(false, nNew);
      var trieds, unused := SaveEntries(true, nTried);
      var buckets := [];
      var b: nat := 0;
      BucketsListed(hashes, View());
      while b < |vvNew|
        invariant b <= |vvNew| && |buckets| == b
        invariant forall c :: 0 <= c < b ==> BucketSaved(NewOrder(View()), vvNew[c], buckets[c])
      {
        var list := SaveBucket(b, NewOrder(View()), index);
        buckets := buckets + [list];
        b := b + 1;
      }
      d := Disk(news, trieds, buckets);
    }

    /** Forgets everything and rebuilds the tables from a file. */
    method Load(d: Disk)
      requires |d.buckets| <= NEW_BUCKET_COUNT
      modifies this
      ensures View() == Loaded(hashes, d)
    {
      hide LoadNew, LoadTried, LoadMember;
      LoadEntries(d);
      var b: nat := 0;
      while b < |d.buckets|
        invariant b <= |d.buckets| && View() == LoadBuckets(hashes, d, b)
      {
        LoadBucket(d, b);
        b := b + 1;
      }
    }

    method LoadEntries(d: Disk)
      modifies this
      ensures View() == LoadTrieds(hashes, d, |d.trieds|)
    {
      hide LoadNew, LoadTried;
      idCount, mapInfo, mapAddr, vRandom, nTried, nNew := 0, map[], map[], [], |d.trieds|, |d.news|;
      vvTried := seq(TRIED_BUCKET_COUNT, _ => []);
      vvNew := seq(NEW_BUCKET_COUNT, _ => {});
      assert View() == EmptyTables(d);
      var n: nat := 0;
      while n < |d.news|
        invariant n <= |d.news| && View() == LoadNews(hashes, d, n)
      {
        LoadNewEntry(d, n);
        n := n + 1;
      }
      idCount := |d.news|;
      n := 0;
      while n < |d.trieds|
        invariant n <= |d.trieds| && View() == LoadTrieds(hashes, d, n)
      {
        LoadTriedEntry(d.trieds[n]);
        n := n + 1;
      }
    }

    method LoadNewEntry(d: Disk, n: nat)
      requires n < |d.news| && |vvNew| == NEW_BUCKET_COUNT
      modifies this
      ensures View() == LoadNew(hashes, d, old(View()), n)
    {
      var r := d.news[n];
      mapInfo := mapInfo[n := InfoOf(r)];
      mapAddr := mapAddr[r.ip := n];
      mapInfo := mapInfo[n := mapInfo[n].(randomPos := |vRandom|)];
      vRandom := vRandom + [n];
      if |d.buckets| != NEW_BUCKET_COUNT {
        var b := NewBucket(hashes, r.ip, r.source);
        vvNew := vvNew[b := vvNew[b] + {n}];
        mapInfo := mapInfo[n := mapInfo[n].(refCount := mapInfo[n].refCount + 1)];
      }
    }

    method LoadTriedEntry(r: Record)
      requires |vvTried| == TRIED_BUCKET_COUNT
      modifies this
      ensures View() == LoadTried(hashes, old(View()), r)
    {
      var info := InfoOf(r);
      var k := TriedBucket(hashes, info);
      if |vvTried[k]| < TRIED_BUCKET_SIZE {
        info := info.(randomPos := |vRandom|, inTried := true);
        vRandom := vRandom + [idCount];
        mapInfo := mapInfo[idCount := info];
        mapAddr := mapAddr[info.ip := idCount];
        vvTried := vvTried[k := vvTried[k] + [idCount]];
        idCount := idCount + 1;
      } else {
        nTried := nTried - 1;
      }
    }

    method LoadBucket(d: Disk, b: nat)
      requires b < |vvNew| && b < |d.buckets|
      modifies this
      ensures View() == LoadMembers(d, old(View()), b, |d.buckets[b]|)
    {
      hide LoadMember;
      ghost var start := View();
      var n: nat := 0;
      while n < |d.buckets[b]|
        invariant n <= |d.buckets[b]| && View() == LoadMembers(d, start, b, n)
      {
        LoadOne(d, b, d.buckets[b][n]);
        n := n + 1;
      }
    }

    method LoadOne(d: Disk, b: nat, id: nat)
      requires b < |vvNew|
      modifies this
      ensures View() == LoadMember(d, old(View()), b, id)
    {
      if id !in mapInfo {
        mapInfo := mapInfo[id := EMPTY_INFO];
      }
      if |d.buckets| == NEW_BUCKET_COUNT && mapInfo[id].refCount < NEW_BUCKETS_PER_ADDRESS {
        mapInfo := mapInfo[id := mapInfo[id].(refCount := mapInfo[id].refCount + 1)];
        vvNew := vvNew[b := vvNew[b] + {id}];
      }
    }
  }

  ghost predicate Removable(t: Tables, id: nat) {
    && id in t.info && 0 <= t.info[id].randomPos < |t.random| && t.random[t.info[id].randomPos] == id
    && t.random[|t.random| - 1] in t.info
    && var t' := Swapped(t, t.info[id].randomPos, |t.random| - 1);
       t'.random != [] && t'.random[|t'.random| - 1] in t'.info
  }

  lemma RemovedIs(t: Tables, b: nat, id: nat)
    requires b < |t.news| && t.random != [] && t.random[|t.random| - 1] == id && id in t.info
    ensures LastRemoved(t, b)
            == t.(random := t.random[..|t.random| - 1], addr := t.addr - {t.info[id].ip}, info := t.info - {id},
                  nNew := t.nNew - 1, news := t.news[b := t.news[b] - {id}])
  {
  }

  /** A bucket made room by losing an entry, a terrible one if it had any. */
  ghost predicate MadeRoom(t: Tables, t': Tables, b: nat, out: nat, now: int) {
    && RandomOk(t.info, t.random) && b < |t.news| && out in t.news[b] && out in t.info && t' == Dropped(t, b, out)
    && (forall id :: id in t.news[b] ==> id in t.info)
    && ((exists id :: id in t.news[b] && IsTerrible(t.info[id], now)) ==> IsTerrible(t.info[out], now))
  }

  /** An entry joined a new bucket, which made room first exactly if it was full. */
  ghost predicate JoinedAs(t: Tables, t': Tables, id: nat, b: nat, now: int) {
    && b < |t.news|
    && if |t.news[b]| == NEW_BUCKET_SIZE then
         exists s, out :: MadeRoom(t, s, b, out, now) && |s.news| == |t.news| && t' == Joined(s, b, id)
       else t' == Joined(t, b, id)
  }

  /** Of how many lots just one is lucky. */
  function Chances(refCount: int): nat {
    if refCount <= 0 then 1 else Pow2(refCount)
  }

  /** Each bucket that an entry is in already makes one more only half as likely. */
  lemma ChancesHalve(refCount: nat)
    ensures Chances(0) == 1 && Chances(refCount + 1) == 2 * Chances(refCount)
  {
  }

  /** Does hearing of an address tell anything new of an entry that has room for another bucket? */
  predicate IsNews(i: Info, addr: Address) {
    addr.time != 0 && (i.time == 0 || addr.time > i.time) && !i.inTried && i.refCount != NEW_BUCKETS_PER_ADDRESS
  }

  /**
   What hearing again of a known entry, already brought up to date, does: with news and a lucky
   lot it joins the bucket it belongs to, unless it is there; otherwise nothing more happens.
   */
  ghost predicate HeardAgain(h: Hashes, t: Tables, t': Tables, id: nat, addr: Address, source: NetAddr, now: int, lot: nat) {
    && id in t.info && lot < Chances(t.info[id].refCount)
    && var b := NewBucket(h, t.info[id].ip, source);
       && b < |t.news|
       && if IsNews(t.info[id], addr) && lot == 0 && id !in t.news[b]
          then JoinedAs(Bumped(t, id), t', id, b, now)
          else t' == t
  }

  /** An entry with its good connection noted, and moved to its tried bucket if it was a new one. */
  ghost predicate MadeGood(h: Hashes, t: Tables, t': Tables, id: nat, time: int) {
    && id in t.info
    && var noted := t.(info := t.info[id := t.info[id].(lastSuccess := time, lastTry := time, time := time, attempts := 0)]);
       if t.info[id].inTried then t' == noted
       else exists b :: 0 <= b < |t.news| && id in t.news[b] && MovedToTried(h, noted, t', id, b)
  }

  /** The same tables but for one tried bucket, of which some entries were drawn to the front. */
  ghost predicate Shuffled(t: Tables, t': Tables, k: nat, draws: seq<nat>) {
    && k < |t.tried| && t.tried[k] != [] && AllDrawn(|t.tried[k]|, draws)
    && t' == t.(tried := t.tried[k := Drawn(t.tried[k], draws)])
    && AllIn(t.info, Drawn(t.tried[k], draws)[..|draws|])
  }

  /** The entry at a position goes back to its own new bucket, or if that is full to the one the other entry came from. */
  ghost predicate EvictedFor(h: Hashes, t: Tables, t': Tables, id: nat, pos: nat, origin: nat) {
    && id in t.info && |t.tried| == TRIED_BUCKET_COUNT && |t.news| == NEW_BUCKET_COUNT && origin < |t.news|
    && var bucket := t.tried[TriedBucket(h, t.info[id])];
       && pos < |bucket| && bucket[pos] in t.info
       && var out := t.info[bucket[pos]];
          var own := NewBucket(h, out.ip, out.source);
          t' == Replaced(h, t, id, pos, if |Cleared(t.news, id)[own]| < NEW_BUCKET_SIZE then own else origin)
  }

  /** What becomes of the tables when an entry is moved to its tried bucket. */
  ghost predicate MovedToTried(h: Hashes, t: Tables, t': Tables, id: nat, origin: nat) {
    && id in t.info && |t.tried| == TRIED_BUCKET_COUNT
    && var k := TriedBucket(h, t.info[id]);
       if |t.tried[k]| < TRIED_BUCKET_SIZE then t' == Promoted(h, t, id)
       else exists s, draws :: Shuffled(t, s, k, draws)
                               && EvictedFor(h, s, t', id, Selected(t.info, t.tried[k], draws), origin)
  }

  lemma EvictedEntries(h: Hashes, t: Tables, t': Tables, id: nat, pos: nat, origin: nat)
    requires EvictedFor(h, t, t', id, pos, origin)
    ensures t'.info.Keys == t.info.Keys && t'.info[id] == AsTried(t.info[id])
    ensures forall x :: x in t.info ==> t'.info[x].ip == t.info[x].ip && t'.info[x].port == t.info[x].port
  {
  }

  lemma AllKnown(h: Hashes, t: Tables, pending: Option<nat>, b: nat)
    requires Check(h, t, pending) && b < |t.news|
    ensures RandomOk(t.info, t.random) && forall id :: id in t.news[b] ==> id in t.info && !t.info[id].inTried
  {
  }

  lemma DroppedBucket(t: Tables, pending: Option<nat>, b: nat)
    requires RandomOk(t.info, t.random) && b < |t.news|
    ensures forall id :: id in t.info ==> Dropped(t, b, id).news == t.news[b := t.news[b] - {id}]
  {
    forall id | id in t.info
      ensures Dropped(t, b, id).news == t.news[b := t.news[b] - {id}]
    {
      DroppedNews(t, b, id);
    }
  }

  lemma KnownTried(h: Hashes, t: Tables, pending: Option<nat>, k: nat, pos: nat)
    requires Check(h, t, pending) && k < |t.tried| && pos < |t.tried[k]|
    ensures t.tried[k][pos] in t.info && t.info[t.tried[k][pos]].inTried
  {
  }

  /** What the selection remembers after some rounds. */
  ghost predicate Inspected(bucket: seq<nat>, now: seq<nat>, info: map<nat, Info>, draws: seq<nat>,
                            oldest: Option<nat>, winner: nat, pos: nat)
  {
    && Draws(|bucket|, draws) && now == Drawn(bucket, draws)
    && AllIn(info, now[..|draws|]) && (oldest.None? <==> draws == [])
    && (draws != [] ==>
          && winner == OldestRound(info, now[..|draws|])
          && oldest == Some(now[winner]) && pos == draws[winner])
  }

  lemma NoneInspected(bucket: seq<nat>, info: map<nat, Info>, winner: nat, pos: nat)
    ensures Inspected(bucket, bucket, info, [], None, winner, pos)
  {
  }

  lemma InspectedStep(bucket: seq<nat>, now: seq<nat>, info: map<nat, Info>, draws: seq<nat>,
                      oldest: Option<nat>, winner: nat, pos: nat, n: nat)
    requires Inspected(bucket, now, info, draws, oldest, winner, pos)
    requires |draws| <= n < |bucket| == |now| && now[n] in info
    ensures oldest.Some? ==> oldest.value in info
    ensures |SwapIn(now, |draws|, n)| == |now|
    ensures var next := SwapIn(now, |draws|, n);
            if oldest.None? || info[now[n]].lastSuccess < info[oldest.value].lastSuccess
            then Inspected(bucket, next, info, draws + [n], Some(now[n]), |draws|, n)
            else Inspected(bucket, next, info, draws + [n], oldest, winner, pos)
  {
    hide Drawn, Draws, OldestRound;
    DrawnStep(bucket, draws, n);
    hide SwapIn, AllIn;
    if draws != [] {
      OldestStep(info, now[..|draws|], now[n]);
    }
  }

  lemma AllInspected(bucket: seq<nat>, now: seq<nat>, info: map<nat, Info>, draws: seq<nat>,
                     oldest: Option<nat>, winner: nat, pos: nat)
    requires Inspected(bucket, now, info, draws, oldest, winner, pos)
    requires bucket != [] && Distinct(bucket)
    requires |draws| == if |bucket| < TRIED_ENTRIES_INSPECT_ON_EVICT then |bucket| else TRIED_ENTRIES_INSPECT_ON_EVICT
    ensures AllDrawn(|bucket|, draws) && now == Drawn(bucket, draws) && |now| == |bucket|
    ensures AllIn(info, now[..|draws|]) && winner == OldestRound(info, now[..|draws|])
    ensures pos == draws[winner] == Selected(info, bucket, draws) && pos < |bucket|
    ensures now[pos] == now[winner] <==> draws[winner] == winner
    ensures multiset(now) == multiset(bucket)
  {
    DrawnIsPermutation(bucket, draws);
    OldestIsSelectedWhen(info, bucket, draws);
  }

  lemma TriedIsDistinct(h: Hashes, t: Tables, k: nat)
    requires Check(h, t, None) && k < |t.tried|
    ensures Distinct(t.tried[k])
  {
  }

  /** The first n buckets without an id, the others as they are. */
  function ClearedTo(news: seq<set<nat>>, id: nat, n: nat): (r: seq<set<nat>>)
    requires n <= |news|
    ensures |r| == |news|
    ensures forall b :: 0 <= b < |news| ==> r[b] == if b < n then news[b] - {id} else news[b]
  {
    seq(|news|, b requires 0 <= b < |news| => if b < n then news[b] - {id} else news[b])
  }

  lemma ClearedStep(news: seq<set<nat>>, id: nat, n: nat)
    requires n < |news|
    ensures ClearedTo(news, id, n + 1) == ClearedTo(news, id, n)[n := ClearedTo(news, id, n)[n] - {id}]
  {
  }

  lemma ClearedEnds(news: seq<set<nat>>, id: nat)
    ensures ClearedTo(news, id, 0) == news && ClearedTo(news, id, |news|) == Cleared(news, id)
  {
  }

  lemma MakeTriedFacts(h: Hashes, t: Tables, id: nat, origin: nat)
    requires Check(h, t, None) && id in t.info && origin < |t.news| && id in t.news[origin]
    ensures !t.info[id].inTried && |t.tried| == TRIED_BUCKET_COUNT && |t.news| == NEW_BUCKET_COUNT
    ensures RefCountsOk(t.info, t.news, None) && |Cleared(t.news, id)[origin]| < NEW_BUCKET_SIZE
  {
    ClearedSmaller(t.news, id);
  }

  lemma PromotedIs(h: Hashes, t: Tables, t': Tables, id: nat)
    requires id in t.info && |t.tried| == TRIED_BUCKET_COUNT
    requires var k := TriedBucket(h, t.info[id]);
             && t'.info == t.info[id := t.info[id].(refCount := 0, inTried := true)] && t'.news == Cleared(t.news, id)
             && t'.tried == t.tried[k := t.tried[k] + [id]] && t'.nTried == t.nTried + 1 && t'.nNew == t.nNew - 1
             && t'.addr == t.addr && t'.random == t.random && t'.idCount == t.idCount
    ensures t' == Promoted(h, t, id)
  {
  }

  lemma ReplacedIs(h: Hashes, t: Tables, t': Tables, id: nat, pos: nat, b: nat)
    requires id in t.info && |t.tried| == TRIED_BUCKET_COUNT && b < |t.news|
    requires var k := TriedBucket(h, t.info[id]);
             pos < |t.tried[k]| && t.tried[k][pos] in t.info && t.tried[k][pos] != id
    requires var k := TriedBucket(h, t.info[id]);
             var out := t.tried[k][pos];
             && t'.info == t.info[id := t.info[id].(refCount := 0, inTried := true)]
                                 [out := t.info[out].(inTried := false, refCount := 1)]
             && t'.news == Cleared(t.news, id)[b := Cleared(t.news, id)[b] + {out}]
             && t'.tried == t.tried[k := Put(t.tried[k], pos, id)] && t'.nTried == t.nTried && t'.nNew == t.nNew
             && t'.addr == t.addr && t'.random == t.random && t'.idCount == t.idCount
    ensures t' == Replaced(h, t, id, pos, b)
  {
  }

  // ---------- what the methods need to know of the tables ----------

  function NewInfo(addr: Address, source: NetAddr, penalty: int): Info {
    Info(addr.ip, addr.port, addr.services, if addr.time - penalty > 0 then addr.time - penalty else 0, source,
         0, 0, 0, 0, false, -1)
  }

  lemma FoundFacts(h: Hashes, t: Tables, ip: NetAddr)
    requires Check(h, t, None)
    ensures ip in t.addr ==> t.addr[ip] in t.info && t.info[t.addr[ip]].ip == ip
    ensures forall id :: id in t.info ==> InfoOk(t.info[id])
  {
  }

  lemma EntryFacts(h: Hashes, t: Tables, pending: Option<nat>, id: nat)
    requires Check(h, t, pending) && id in t.info
    ensures InfoOk(t.info[id])
  {
  }

  /** An entry with its time, at most once an hour or a day, and its services brought up to date. */
  function Refreshed(i: Info, addr: Address, penalty: int, now: int): Info {
    var interval := if now - addr.time < 24 * 60 * 60 then 60 * 60 else 24 * 60 * 60;
    var time := if addr.time != 0 && (i.time == 0 || i.time < addr.time - interval - penalty)
                then if addr.time - penalty > 0 then addr.time - penalty else 0
                else i.time;
    i.(time := time, services := i.services | addr.services)
  }

  lemma RefreshedFacts(i: Info, addr: Address, penalty: int, now: int)
    requires InfoOk(i)
    ensures var j := Refreshed(i, addr, penalty, now);
            InfoOk(j) && i.refCount <= NEW_BUCKETS_PER_ADDRESS && SameEntry(j, i)
  {
  }

  /**
   The time of an entry is moved on exactly if what is announced, less the penalty, is later by
   more than an hour, or than a day when it is older than that; it never goes back. A time not
   known before is taken over.
   */
  lemma RefreshedForward(i: Info, addr: Address, penalty: nat, now: int)
    requires 0 <= i.time
    ensures var j, later := Refreshed(i, addr, penalty, now), addr.time - penalty - i.time;
            && j == i.(time := j.time, services := i.services | addr.services)
            && (addr.time == 0 ==> j.time == i.time)
            && (addr.time != 0 && i.time == 0 ==> j.time == if later > 0 then later else 0)
            && (addr.time != 0 && i.time != 0 ==>
                  && i.time <= j.time && (j.time == i.time || j.time == addr.time - penalty)
                  && (j.time != i.time <==> later > 86400 || (later > 3600 && now - addr.time < 86400)))
  {
  }

  /** A new entry was never tried, and shows the time announced less the penalty, but none before zero. */
  lemma NewInfoIs(addr: Address, source: NetAddr, penalty: int)
    ensures var i := NewInfo(addr, source, penalty);
            && i.ip == addr.ip && i.port == addr.port && i.services == addr.services && i.source == source
            && i.lastSuccess == i.lastTry == i.attempts == i.refCount == 0 && !i.inTried
            && i.time >= 0 && (i.time > 0 ==> i.time + penalty == addr.time) && (i.time == 0 ==> addr.time <= penalty)
  {
  }

  lemma NewInBucket(h: Hashes, t: Tables, id: nat)
    requires Check(h, t, None) && id in t.info && !t.info[id].inTried
    ensures |t.news| == NEW_BUCKET_COUNT && exists c :: 0 <= c < |t.news| && id in t.news[c]
  {
    OccPositive(t.news, id);
  }

  lemma BucketFacts(h: Hashes, t: Tables, pending: Option<nat>)
    requires Check(h, t, pending)
    ensures |t.news| == NEW_BUCKET_COUNT && forall b :: 0 <= b < |t.news| ==> |t.news[b]| <= NEW_BUCKET_SIZE
  {
  }

  ghost predicate NoOtherGone(addr: map<NetAddr, nat>, addr': map<NetAddr, nat>, gone: NetAddr) {
    forall ip :: ip in addr && ip != gone ==> ip in addr'
  }

  /** At most one entry is gone, which was neither tried nor a given one; the others are the same but for their places. */
  ghost predicate AtMostOneLess(info: map<nat, Info>, addr: map<NetAddr, nat>,
                                info': map<nat, Info>, addr': map<NetAddr, nat>, kept: nat) {
    && kept in info && info[kept].ip in addr'
    && (exists gone :: NoOtherGone(addr, addr', gone))
    && (forall id :: id in info && info[id].inTried ==>
          id in info' && info'[id].ip == info[id].ip && info'[id].port == info[id].port)
  }

  lemma NoneLess(h: Hashes, t: Tables, pending: Option<nat>, kept: nat)
    requires Check(h, t, pending) && kept in t.info
    ensures AtMostOneLess(t.info, t.addr, t.info, t.addr, kept)
  {
    AddressesStay(t.addr, 0);
  }

  lemma AddressesStay(addr: map<NetAddr, nat>, gone: NetAddr)
    ensures exists x :: NoOtherGone(addr, addr, x)
  {
    assert NoOtherGone(addr, addr, gone);
  }

  lemma OneLessOfMore(addr: map<NetAddr, nat>, more: map<NetAddr, nat>, addr': map<NetAddr, nat>)
    requires addr.Keys <= more.Keys && exists gone :: NoOtherGone(more, addr', gone)
    ensures exists gone :: NoOtherGone(addr, addr', gone)
  {
    var gone :| NoOtherGone(more, addr', gone);
    forall ip | ip in addr && ip != gone
      ensures ip in addr'
    {
      assert ip in more;
    }
    assert NoOtherGone(addr, addr', gone);
  }

  lemma DroppedEntry(t: Tables, b: nat, out: nat, id: nat)
    requires RandomOk(t.info, t.random) && b < |t.news| && out in t.info && id in t.info && id != out
    ensures var info := Dropped(t, b, out).info;
            id in info && info[id].ip == t.info[id].ip && info[id].port == t.info[id].port
  {
    RandomPlaces(t.info, t.random, out);
    hide RandomOk;
    if t.info[out].refCount == 1 {
      SwapPlaces(t, t.info[out].randomPos, |t.random| - 1);
    }
  }

  lemma DroppedAddr(t: Tables, b: nat, out: nat)
    requires RandomOk(t.info, t.random) && b < |t.news| && out in t.info
    ensures forall ip :: ip in t.addr && ip != t.info[out].ip ==> ip in Dropped(t, b, out).addr
  {
    RandomPlaces(t.info, t.random, out);
    hide RandomOk;
    if t.info[out].refCount == 1 {
      SwapPlaces(t, t.info[out].randomPos, |t.random| - 1);
    }
  }

  lemma DroppedFacts(h: Hashes, t: Tables, pending: Option<nat>, b: nat, out: nat, kept: nat)
    requires Check(h, t, pending) && b < |t.news| && out in t.news[b] && out in t.info && kept in t.info && kept != out
    requires RandomOk(t.info, t.random)
    ensures AtMostOneLess(t.info, t.addr, Dropped(t, b, out).info, Dropped(t, b, out).addr, kept)
    ensures kept in Dropped(t, b, out).info
  {
    hide RandomOk, TriedOk, NewOk, InfosOk, Dropped;
    NotTried(t.info, t.news, pending, b, out);
    DroppedAddr(t, b, out);
    assert t.info[kept].ip != t.info[out].ip;
    assert NoOtherGone(t.addr, Dropped(t, b, out).addr, t.info[out].ip);
    DroppedEntry(t, b, out, kept);
    forall id | id in t.info && t.info[id].inTried
      ensures id in Dropped(t, b, out).info
      ensures Dropped(t, b, out).info[id].ip == t.info[id].ip && Dropped(t, b, out).info[id].port == t.info[id].port
    {
      DroppedEntry(t, b, out, id);
    }
  }

  lemma OneLessMeans(info: map<nat, Info>, addr: map<NetAddr, nat>, info': map<nat, Info>, addr': map<NetAddr, nat>, kept: nat)
    requires AtMostOneLess(info, addr, info', addr', kept)
    ensures kept in info && info[kept].ip in addr' && TriedRemain(info, info')
    ensures exists gone :: NoOtherGone(addr, addr', gone)
  {
  }

  lemma CreatedFacts(h: Hashes, t: Tables, i: Info)
    requires Check(h, t, None)
    ensures |t.news| == NEW_BUCKET_COUNT && forall b :: 0 <= b < |t.news| ==> t.idCount !in t.news[b]
    ensures t.idCount !in t.info && Created(t, i).news == t.news && Created(t, i).addr == t.addr[i.ip := t.idCount]
    ensures Created(t, i).info == t.info[t.idCount := i.(randomPos := |t.random|, refCount := 1, inTried := false)]
  {
    InfosAt(t.info, t.idCount, t.idCount);
  }

  lemma NewBucketBound(h: Hashes)
    ensures forall ip, source :: NewBucket(h, ip, source) < NEW_BUCKET_COUNT
  {
  }

  /** The addresses of the first entries in the random order. */
  function Front(t: Tables, n: nat): (r: seq<NetAddr>)
    requires n <= |t.random| && forall k :: 0 <= k < |t.random| ==> t.random[k] in t.info
    ensures |r| == n && forall k :: 0 <= k < n ==> r[k] == t.info[t.random[k]].ip
  {
    seq(n, k requires 0 <= k < n => t.info[t.random[k]].ip)
  }

  lemma EntryPlaces(h: Hashes, t: Tables)
    requires Check(h, t, None)
    ensures RandomOk(t.info, t.random) && forall k :: 0 <= k < |t.random| ==> t.random[k] in t.info
  {
  }

  lemma FrontStep(t: Tables, n: nat)
    requires n < |t.random| && forall k :: 0 <= k < |t.random| ==> t.random[k] in t.info
    ensures Front(t, n + 1) == Front(t, n) + [t.info[t.random[n]].ip]
  {
  }

  /** The same tables but for the random order, and what the entries say about it. */
  ghost predicate Reordered(t: Tables, t': Tables) {
    && t' == t.(info := t'.info, random := t'.random)
    && multiset(t'.random) == multiset(t.random)
    && t'.info.Keys == t.info.Keys
    && forall id :: id in t.info ==> t'.info[id] == t.info[id].(randomPos := t'.info[id].randomPos)
  }

  lemma ReorderedNot(t: Tables)
    ensures Reordered(t, t)
  {
  }

  lemma SwapReorders(t0: Tables, t: Tables, i: nat, j: nat)
    requires Reordered(t0, t) && i < |t.random| && j < |t.random| && t.random[i] in t.info && t.random[j] in t.info
    ensures Reordered(t0, Swapped(t, i, j))
  {
    SwappedRandom(t, i, j);
    hide SwapIn, Swapped;
    SwapIsPermutation(t.random, i, j);
  }

  lemma SwappedRandom(t: Tables, i: nat, j: nat)
    requires i < |t.random| && j < |t.random| && t.random[i] in t.info && t.random[j] in t.info
    ensures var t' := Swapped(t, i, j);
            && t' == t.(info := t'.info, random := SwapIn(t.random, i, j)) && t'.info.Keys == t.info.Keys
            && forall id :: id in t.info ==> t'.info[id] == t.info[id].(randomPos := t'.info[id].randomPos)
  {
    EitherOrder(t.random, i, j);
    hide SwapIn;
  }

  lemma EitherOrder(s: seq<nat>, i: nat, j: nat)
    requires i < |s| && j < |s|
    ensures s[i := s[j]][j := s[i]] == SwapIn(s, i, j) && SwapIn(s, i, i) == s
  {
  }

  lemma SwapKeepsFront(h: Hashes, t: Tables, n: nat, pos: nat)
    requires Check(h, t, None) && n <= pos < |t.random|
    ensures t.random[n] in t.info && t.random[pos] in t.info
    ensures var t' := Swapped(t, n, pos);
            |t'.random| == |t.random| && (forall k :: 0 <= k < |t'.random| ==> t'.random[k] in t'.info)
            && Front(t', n) == Front(t, n)
  {
  }

  lemma FrontIsDistinct(h: Hashes, t: Tables, n: nat)
    requires Check(h, t, None) && n <= |t.random|
    ensures forall k :: 0 <= k < |t.random| ==> t.random[k] in t.info
    ensures Distinct(Front(t, n)) && forall k :: 0 <= k < n ==> Front(t, n)[k] in t.addr
  {
    forall i, j | 0 <= i < j < n
      ensures t.info[t.random[i]].ip != t.info[t.random[j]].ip
    {
      assert t.info[t.random[i]].randomPos == i && t.info[t.random[j]].randomPos == j;
    }
  }

  // ---------- what saving needs to know of the tables ----------

  /** Of the entries that are tried, or not, there are as many as are counted, and they show it. */
  lemma KindFacts(h: Hashes, t: Tables, tried: bool)
    requires Check(h, t, None)
    ensures forall id :: id in t.info ==> (t.info[id].refCount != 0 <==> !t.info[id].inTried)
    ensures var ids := IdsBelow(t.info, tried, t.idCount);
            && |ids| == (if tried then t.nTried else t.nNew)
            && forall i :: 0 <= i < |ids| ==> ids[i] in t.info
  {
    OrderFacts(h, t);
    IdsBelowFacts(t.info, tried, t.idCount);
  }

  lemma NoIdsBelow(info: map<nat, Info>, tried: bool)
    ensures IdsBelow(info, tried, 0) == []
  {
  }

  lemma NextIdsBelow(info: map<nat, Info>, tried: bool, id: nat)
    ensures IdsBelow(info, tried, id + 1)
            == IdsBelow(info, tried, id) + if id in info && info[id].inTried == tried then [id] else []
  {
  }

  lemma ListedOneMore(order: seq<nat>, bucket: set<nat>, list: seq<nat>, id: nat, n: nat)
    requires BucketSaved(order, bucket, list) && Distinct(order)
    requires n < |order| && order[n] == id && id !in bucket
    ensures BucketSaved(order, bucket + {id}, list + [n])
  {
    var longer := list + [n];
    assert longer[|list|] == n;
    assert forall i :: 0 <= i < |list| ==> list[i] != n;
  }

  /** Every id in a new bucket is among the new ones. */
  lemma BucketsListed(h: Hashes, t: Tables)
    requires Check(h, t, None)
    ensures Distinct(NewOrder(t))
    ensures forall b, id :: 0 <= b < |t.news| && id in t.news[b] ==> id in NewOrder(t)
  {
    IdsBelowFacts(t.info, false, t.idCount);
  }
}
