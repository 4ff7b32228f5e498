/**
 The tables of the address manager as values: entries by id, ids by network address, the
 order used for random choices, the buckets of tried entries and those of new entries. Each
 table can be derived from others, and every change has to keep them in agreement.
 */
module AddrTables {
  import opened Common

  const TRIED_BUCKET_COUNT: nat := 64
  const TRIED_BUCKET_SIZE: nat := 64
  const NEW_BUCKET_COUNT: nat := 256
  const NEW_BUCKET_SIZE: nat := 64
  const NEW_BUCKETS_PER_ADDRESS: nat := 4

  type NetAddr = nat

  /** An address with port, what is known of it, and where the tables have it. */
  datatype Info = Info(
    ip: NetAddr, port: nat, services: bv64, time: int, source: NetAddr, lastSuccess: int, lastTry: int, attempts: int,
    refCount: int, inTried: bool, randomPos: int)

  /** The keyed hashes that choose buckets; nothing is known about them. */
  datatype Hashes = Hashes(ofService: (NetAddr, nat) -> nat, ofSource: (NetAddr, NetAddr) -> nat)

  function TriedBucket(h: Hashes, i: Info): (b: nat)
    ensures b < TRIED_BUCKET_COUNT
  {
    h.ofService(i.ip, i.port) % TRIED_BUCKET_COUNT
  }

  function NewBucket(h: Hashes, ip: NetAddr, source: NetAddr): (b: nat)
    ensures b < NEW_BUCKET_COUNT
  {
    h.ofSource(ip, source) % NEW_BUCKET_COUNT
  }

  datatype Tables = Tables(
    idCount: nat, info: map<nat, Info>, addr: map<NetAddr, nat>, random: seq<nat>,
    nTried: int, tried: seq<seq<nat>>, nNew: int, news: seq<set<nat>>)

  // ---------- how often an id occurs in the new buckets ----------

  function Occ(news: seq<set<nat>>, id: nat): nat {
    if news == [] then 0
    else Occ(news[..|news| - 1], id) + if id in news[|news| - 1] then 1 else 0
  }

  lemma {:induction false} OccUpdate(news: seq<set<nat>>, b: nat, s: set<nat>, id: nat)
    requires b < |news|
    ensures Occ(news[b := s], id)
            == Occ(news, id) - (if id in news[b] then 1 else 0) + if id in s then 1 else 0
  {
    var n := |news| - 1;
    if b < n {
      assert news[b := s][..n] == news[..n][b := s];
      OccUpdate(news[..n], b, s, id);
    } else {
      assert news[b := s][..n] == news[..n];
    }
  }

  lemma {:induction false} OccPositive(news: seq<set<nat>>, id: nat)
    ensures Occ(news, id) <= |news|
    ensures Occ(news, id) > 0 <==> exists b :: 0 <= b < |news| && id in news[b]
  {
    if news != [] {
      var n := |news| - 1;
      OccPositive(news[..n], id);
      assert forall b :: 0 <= b < n ==> news[..n][b] == news[b];
    }
  }

  /** The buckets without an id. */
  function Cleared(news: seq<set<nat>>, id: nat): (r: seq<set<nat>>)
    ensures |r| == |news| && forall b :: 0 <= b < |news| ==> r[b] == news[b] - {id}
  {
    seq(|news|, b requires 0 <= b < |news| => news[b] - {id})
  }

  lemma {:induction false} OccCleared(news: seq<set<nat>>, x: nat, id: nat)
    ensures Occ(Cleared(news, x), id) == if id == x then 0 else Occ(news, id)
  {
    if news != [] {
      var n := |news| - 1;
      assert Cleared(news, x)[..n] == Cleared(news[..n], x);
      OccCleared(news[..n], x, id);
    }
  }

  // ---------- agreement ----------

  /** The random order holds every id once, where its entry says. */
  ghost predicate RandomOk(info: map<nat, Info>, random: seq<nat>) {
    && (forall id :: id in info ==> 0 <= info[id].randomPos < |random| && random[info[id].randomPos] == id)
    && (forall i :: 0 <= i < |random| ==> random[i] in info && info[random[i]].randomPos == i)
  }

  /** Every network address leads to the one entry that has it. */
  ghost predicate AddrOk(info: map<nat, Info>, addr: map<NetAddr, nat>) {
    && (forall id :: id in info ==> info[id].ip in addr && addr[info[id].ip] == id)
    && (forall ip :: ip in addr ==> addr[ip] in info && info[addr[ip]].ip == ip)
  }

  /** The tried buckets hold the tried entries, each once and in its own bucket. */
  ghost predicate TriedOk(h: Hashes, info: map<nat, Info>, tried: seq<seq<nat>>) {
    && |tried| == TRIED_BUCKET_COUNT
    && (forall b :: 0 <= b < |tried| ==> |tried[b]| <= TRIED_BUCKET_SIZE && Distinct(tried[b]))
    && (forall b, i :: 0 <= b < |tried| && 0 <= i < |tried[b]| ==>
          tried[b][i] in info && info[tried[b][i]].inTried && TriedBucket(h, info[tried[b][i]]) == b)
    && (forall id :: id in info && info[id].inTried ==> id in tried[TriedBucket(h, info[id])])
  }

  function Extra(pending: Option<nat>, id: nat): nat {
    if pending == Some(id) then 1 else 0
  }

  ghost predicate MembersOk(info: map<nat, Info>, news: seq<set<nat>>) {
    forall b, id :: 0 <= b < |news| && id in news[b] ==> id in info && !info[id].inTried
  }

  ghost predicate RefCountsOk(info: map<nat, Info>, news: seq<set<nat>>, pending: Option<nat>) {
    forall id :: id in info ==> info[id].refCount == Occ(news, id) + Extra(pending, id)
  }

  /** The new buckets hold the new entries, each as often as it counts. A pending id counts a bucket it is still to join. */
  ghost predicate NewOk(info: map<nat, Info>, news: seq<set<nat>>, pending: Option<nat>) {
    && |news| == NEW_BUCKET_COUNT
    && (forall b :: 0 <= b < |news| ==> |news[b]| <= NEW_BUCKET_SIZE)
    && MembersOk(info, news)
    && RefCountsOk(info, news, pending)
    && (pending.Some? ==> pending.value in info && !info[pending.value].inTried)
  }

  predicate InfoOk(i: Info) {
    && (if i.inTried then i.refCount == 0 && i.lastSuccess > 0 else 1 <= i.refCount <= NEW_BUCKETS_PER_ADDRESS)
    && i.lastTry >= 0 && i.lastSuccess >= 0
  }

  ghost predicate InfosOk(info: map<nat, Info>, idCount: nat) {
    forall id :: id in info ==> id < idCount && InfoOk(info[id])
  }

  function TriedIds(info: map<nat, Info>): set<nat> {
    set id | id in info && info[id].inTried
  }

  function NewIds(info: map<nat, Info>): set<nat> {
    set id | id in info && !info[id].inTried
  }

  ghost predicate CountsOk(t: Tables) {
    t.nTried == |TriedIds(t.info)| && t.nNew == |NewIds(t.info)|
  }

  /** Everything the consistency check looks at, and the size limits of the buckets. */
  ghost predicate Check(h: Hashes, t: Tables, pending: Option<nat>) {
    && RandomOk(t.info, t.random)
    && AddrOk(t.info, t.addr)
    && TriedOk(h, t.info, t.tried)
    && NewOk(t.info, t.news, pending)
    && InfosOk(t.info, t.idCount)
    && CountsOk(t)
  }

  // ---------- how many entries there can be ----------

  lemma {:induction false} CountedOnce(s: seq<nat>, ids: set<nat>)
    requires Distinct(s) && ids == set i | 0 <= i < |s| :: s[i]
    ensures |ids| == |s|
  {
    if s != [] {
      var n := |s| - 1;
      var rest := set i | 0 <= i < n :: s[..n][i];
      CountedOnce(s[..n], rest);
      assert ids == rest + {s[n]};
    }
  }

  /** The random order has as many elements as there are entries. */
  lemma RandomCounts(info: map<nat, Info>, random: seq<nat>)
    requires RandomOk(info, random)
    ensures |random| == |info|
  {
    forall i, j | 0 <= i < j < |random|
      ensures random[i] != random[j]
    {
      assert info[random[i]].randomPos == i && info[random[j]].randomPos == j;
    }
    var ids := set i | 0 <= i < |random| :: random[i];
    forall id | id in info.Keys
      ensures id in ids
    {
      assert random[info[id].randomPos] == id;
    }
    assert ids == info.Keys;
    CountedOnce(random, ids);
  }

  /** All ids in some buckets. */
  function Union(buckets: seq<set<nat>>): set<nat> {
    set b, id | 0 <= b < |buckets| && id in buckets[b] :: id
  }

  lemma {:induction false} UnionBound(buckets: seq<set<nat>>, size: nat)
    requires forall b :: 0 <= b < |buckets| ==> |buckets[b]| <= size
    ensures |Union(buckets)| <= |buckets| * size
  {
    if buckets == [] {
      assert Union(buckets) == {};
    } else {
      var n := |buckets| - 1;
      UnionBound(buckets[..n], size);
      assert Union(buckets) == Union(buckets[..n]) + buckets[n];
      assert |Union(buckets)| <= |Union(buckets[..n])| + |buckets[n]|;
      OneMore(n, size);
    }
  }

  lemma OneMore(n: nat, size: nat)
    ensures (n + 1) * size == n * size + size
  {
  }

  /** The tables never hold more than 64 * 64 tried and 256 * 64 new entries. */
  lemma SizeBound(h: Hashes, t: Tables)
    requires Check(h, t, None)
    ensures |t.random| == t.nTried + t.nNew == |t.info|
    ensures t.nTried <= TRIED_BUCKET_COUNT * TRIED_BUCKET_SIZE && t.nNew <= NEW_BUCKET_COUNT * NEW_BUCKET_SIZE
  {
    RandomCounts(t.info, t.random);
    assert t.info.Keys == TriedIds(t.info) + NewIds(t.info);
    NewBound(t.info, t.news, t.idCount);
    TriedBound(h, t.info, t.tried);
  }

  lemma NewBound(info: map<nat, Info>, news: seq<set<nat>>, idCount: nat)
    requires NewOk(info, news, None) && InfosOk(info, idCount)
    ensures |NewIds(info)| <= NEW_BUCKET_COUNT * NEW_BUCKET_SIZE
  {
    UnionBound(news, NEW_BUCKET_SIZE);
    forall id | id in NewIds(info)
      ensures id in Union(news)
    {
      OccPositive(news, id);
    }
    Bounded(NewIds(info), Union(news));
  }

  lemma TriedBound(h: Hashes, info: map<nat, Info>, tried: seq<seq<nat>>)
    requires TriedOk(h, info, tried)
    ensures |TriedIds(info)| <= TRIED_BUCKET_COUNT * TRIED_BUCKET_SIZE
  {
    var sets := seq(|tried|, b requires 0 <= b < |tried| => set i | 0 <= i < |tried[b]| :: tried[b][i]);
    forall b | 0 <= b < |sets|
      ensures |sets[b]| <= TRIED_BUCKET_SIZE
    {
      CountedOnce(tried[b], sets[b]);
    }
    UnionBound(sets, TRIED_BUCKET_SIZE);
    forall id | id in TriedIds(info)
      ensures id in Union(sets)
    {
      assert id in tried[TriedBucket(h, info[id])];
      assert id in sets[TriedBucket(h, info[id])];
    }
    Bounded(TriedIds(info), Union(sets));
  }

  // ---------- changes that the tables do not depend on ----------

  /** The same entries but for statistics, and places in the random order. */
  ghost predicate Alike(info: map<nat, Info>, info': map<nat, Info>) {
    && info'.Keys == info.Keys
    && forall id :: id in info ==>
         && info'[id].ip == info[id].ip && info'[id].port == info[id].port
         && info'[id].inTried == info[id].inTried && info'[id].refCount == info[id].refCount
         && InfoOk(info'[id])
  }

  lemma AlikeKeepsAddr(info: map<nat, Info>, info': map<nat, Info>, addr: map<NetAddr, nat>)
    requires Alike(info, info') && AddrOk(info, addr)
    ensures AddrOk(info', addr)
  {
  }

  lemma AlikeKeepsTried(h: Hashes, info: map<nat, Info>, info': map<nat, Info>, tried: seq<seq<nat>>)
    requires Alike(info, info') && TriedOk(h, info, tried)
    ensures TriedOk(h, info', tried)
  {
    forall id | id in info
      ensures TriedBucket(h, info'[id]) == TriedBucket(h, info[id])
    {
    }
  }

  lemma AlikeKeepsNew(info: map<nat, Info>, info': map<nat, Info>, news: seq<set<nat>>, pending: Option<nat>)
    requires Alike(info, info') && NewOk(info, news, pending)
    ensures NewOk(info', news, pending)
  {
  }

  /** Only the random order has to be looked at when entries stay alike. */
  lemma AlikeKeeps(h: Hashes, t: Tables, t': Tables, pending: Option<nat>)
    requires Check(h, t, pending) && Alike(t.info, t'.info) && RandomOk(t'.info, t'.random)
    requires t' == t.(info := t'.info, random := t'.random)
    ensures Check(h, t', pending)
  {
    hide RandomOk, AddrOk, TriedOk, NewOk;
    AlikeKeepsAddr(t.info, t'.info, t.addr);
    AlikeKeepsTried(h, t.info, t'.info, t.tried);
    AlikeKeepsNew(t.info, t'.info, t.news, pending);
    assert TriedIds(t'.info) == TriedIds(t.info) && NewIds(t'.info) == NewIds(t.info);
  }

  /** The same but for what the tables do not look at. */
  predicate SameEntry(i: Info, j: Info) {
    && i.ip == j.ip && i.port == j.port && i.inTried == j.inTried && i.refCount == j.refCount
    && i.randomPos == j.randomPos
  }

  lemma TouchAlike(info: map<nat, Info>, random: seq<nat>, idCount: nat, id: nat, i: Info)
    requires InfosOk(info, idCount) && id in info && SameEntry(i, info[id]) && InfoOk(i) && RandomOk(info, random)
    ensures Alike(info, info[id := i]) && RandomOk(info[id := i], random)
  {
  }

  lemma TouchKeeps(h: Hashes, t: Tables, pending: Option<nat>, id: nat, i: Info)
    requires Check(h, t, pending) && id in t.info && SameEntry(i, t.info[id]) && InfoOk(i)
    ensures Check(h, t.(info := t.info[id := i]), pending)
  {
    hide TriedOk, NewOk, AddrOk, RandomOk, InfosOk, InfoOk, Alike;
    TouchAlike(t.info, t.random, t.idCount, id, i);
    AlikeKeeps(h, t, t.(info := t.info[id := i]), pending);
  }

  // ---------- the random order ----------

  function Swapped(t: Tables, i: nat, j: nat): Tables
    requires i < |t.random| && j < |t.random| && t.random[i] in t.info && t.random[j] in t.info
  {
    var a, b := t.random[i], t.random[j];
    if i == j then t
    else
      var info := t.info[a := t.info[a].(randomPos := j)];
      t.(info := info[b := info[b].(randomPos := i)], random := t.random[i := b][j := a])
  }

  lemma MovedAlike(info: map<nat, Info>, idCount: nat, id: nat, pos: int)
    requires InfosOk(info, idCount) && id in info
    ensures var moved := info[id := info[id].(randomPos := pos)]; Alike(info, moved) && InfosOk(moved, idCount)
  {
    hide InfoOk;
    var i := info[id];
    assert InfoOk(i.(randomPos := pos)) by {
      MoveKeepsInfo(i, pos);
    }
  }

  lemma MoveKeepsInfo(i: Info, pos: int)
    requires InfoOk(i)
    ensures InfoOk(i.(randomPos := pos))
  {
  }

  lemma AlikeTwice(a: map<nat, Info>, b: map<nat, Info>, c: map<nat, Info>)
    requires Alike(a, b) && Alike(b, c)
    ensures Alike(a, c)
  {
    hide InfoOk;
  }

  lemma SwapAlike(t: Tables, i: nat, j: nat)
    requires InfosOk(t.info, t.idCount) && i < |t.random| && j < |t.random|
    requires t.random[i] in t.info && t.random[j] in t.info
    ensures Alike(t.info, Swapped(t, i, j).info)
    ensures Swapped(t, i, j) == t.(info := Swapped(t, i, j).info, random := Swapped(t, i, j).random)
  {
    hide Alike, InfosOk;
    var a, b := t.random[i], t.random[j];
    MovedAlike(t.info, t.idCount, a, j);
    var info := t.info[a := t.info[a].(randomPos := j)];
    MovedAlike(info, t.idCount, b, i);
    AlikeTwice(t.info, info, info[b := info[b].(randomPos := i)]);
    AlikeItself(t.info, t.idCount);
  }

  lemma AlikeItself(info: map<nat, Info>, idCount: nat)
    requires InfosOk(info, idCount)
    ensures Alike(info, info)
  {
  }

  lemma SwapKeepsRandom(t: Tables, i: nat, j: nat)
    requires RandomOk(t.info, t.random) && i < |t.random| && j < |t.random|
    ensures RandomOk(Swapped(t, i, j).info, Swapped(t, i, j).random)
  {
    if i != j {
      var a, b := t.random[i], t.random[j];
      assert t.info[a].randomPos == i && t.info[b].randomPos == j;
    }
  }

  lemma SwapKeeps(h: Hashes, t: Tables, pending: Option<nat>, i: nat, j: nat)
    requires Check(h, t, pending) && i < |t.random| && j < |t.random|
    ensures t.random[i] in t.info && t.random[j] in t.info
    ensures Check(h, Swapped(t, i, j), pending)
  {
    RandomAt(t.info, t.random, i);
    RandomAt(t.info, t.random, j);
    hide TriedOk, NewOk, AddrOk, RandomOk, InfosOk, Alike, Swapped;
    SwapKeepsRandom(t, i, j);
    SwapAlike(t, i, j);
    AlikeKeeps(h, t, Swapped(t, i, j), pending);
  }

  lemma RandomAt(info: map<nat, Info>, random: seq<nat>, i: nat)
    requires RandomOk(info, random) && i < |random|
    ensures random[i] in info
  {
  }

  // ---------- changing one entry ----------

  lemma IdsUpdated(info: map<nat, Info>, id: nat, i: Info)
    ensures TriedIds(info[id := i]) == if i.inTried then TriedIds(info) + {id} else TriedIds(info) - {id}
    ensures NewIds(info[id := i]) == if i.inTried then NewIds(info) - {id} else NewIds(info) + {id}
  {
  }

  lemma InfosUpdated(info: map<nat, Info>, idCount: nat, id: nat, i: Info)
    requires InfosOk(info, idCount) && id < idCount && InfoOk(i)
    ensures InfosOk(info[id := i], idCount)
  {
    hide InfoOk;
  }

  lemma InfosAt(info: map<nat, Info>, idCount: nat, id: nat)
    requires InfosOk(info, idCount)
    ensures id in info ==> id < idCount && InfoOk(info[id])
    ensures idCount !in info && InfosOk(info, idCount + 1)
  {
    hide InfoOk;
  }

  /** Counting buckets differently leaves the other tables in agreement. */
  lemma RecountKeeps(h: Hashes, t: Tables, id: nat, n: int, news: seq<set<nat>>, pending: Option<nat>)
    requires RandomOk(t.info, t.random) && AddrOk(t.info, t.addr) && TriedOk(h, t.info, t.tried)
    requires InfosOk(t.info, t.idCount) && CountsOk(t)
    requires id in t.info && !t.info[id].inTried && 1 <= n <= NEW_BUCKETS_PER_ADDRESS
    requires NewOk(t.info[id := t.info[id].(refCount := n)], news, pending)
    ensures Check(h, t.(info := t.info[id := t.info[id].(refCount := n)], news := news), pending)
  {
    hide NewOk, InfosOk, RandomOk, AddrOk, TriedOk;
    var i := t.info[id].(refCount := n);
    InfosAt(t.info, t.idCount, id);
    InfosUpdated(t.info, t.idCount, id, i);
    RecountRandom(t.info, t.random, id, n);
    RecountAddr(t.info, t.addr, id, n);
    RecountTried(h, t.info, t.tried, id, n);
    IdsUpdated(t.info, id, i);
    assert TriedIds(t.info) - {id} == TriedIds(t.info) && NewIds(t.info) + {id} == NewIds(t.info);
  }

  lemma RecountRandom(info: map<nat, Info>, random: seq<nat>, id: nat, n: int)
    requires RandomOk(info, random) && id in info
    ensures RandomOk(info[id := info[id].(refCount := n)], random)
  {
  }

  lemma RecountAddr(info: map<nat, Info>, addr: map<NetAddr, nat>, id: nat, n: int)
    requires AddrOk(info, addr) && id in info
    ensures AddrOk(info[id := info[id].(refCount := n)], addr)
  {
  }

  lemma RecountTried(h: Hashes, info: map<nat, Info>, tried: seq<seq<nat>>, id: nat, n: int)
    requires TriedOk(h, info, tried) && id in info
    ensures TriedOk(h, info[id := info[id].(refCount := n)], tried)
  {
  }

  // ---------- leaving a new bucket ----------

  /** An entry counts a bucket less. */
  function Decremented(t: Tables, b: nat, id: nat): Tables
    requires b < |t.news| && id in t.info
  {
    t.(info := t.info[id := t.info[id].(refCount := t.info[id].refCount - 1)], news := t.news[b := t.news[b] - {id}])
  }

  /** The last entry of the random order goes, and its place in a new bucket with it. */
  function LastRemoved(t: Tables, b: nat): Tables
    requires b < |t.news| && t.random != [] && t.random[|t.random| - 1] in t.info
  {
    var last := |t.random| - 1;
    var id := t.random[last];
    t.(random := t.random[..last], addr := t.addr - {t.info[id].ip}, info := t.info - {id}, nNew := t.nNew - 1,
       news := t.news[b := t.news[b] - {id}])
  }

  /** An entry leaves a new bucket; when it was its only one, the entry is moved last and removed. */
  function Dropped(t: Tables, b: nat, id: nat): Tables
    requires b < |t.news| && RandomOk(t.info, t.random) && id in t.info
  {
    if t.info[id].refCount == 1 then
      RandomPlaces(t.info, t.random, id);
      LastRemoved(Swapped(t, t.info[id].randomPos, |t.random| - 1), b)
    else Decremented(t, b, id)
  }

  lemma RandomPlaces(info: map<nat, Info>, random: seq<nat>, id: nat)
    requires RandomOk(info, random) && id in info
    ensures 0 <= info[id].randomPos < |random| && random[info[id].randomPos] == id
    ensures random[|random| - 1] in info
  {
  }

  lemma NewWithout(info: map<nat, Info>, news: seq<set<nat>>, pending: Option<nat>, b: nat, id: nat, info': map<nat, Info>)
    requires NewOk(info, news, pending) && b < |news| && id in news[b] && pending != Some(id)
    requires forall x :: x in info && x != id ==> x in info' && info'[x] == info[x]
    requires info'.Keys <= info.Keys
    requires if id in info' then info'[id] == info[id].(refCount := info[id].refCount - 1) else info[id].refCount == 1
    ensures NewOk(info', news[b := news[b] - {id}], pending)
  {
    var news' := news[b := news[b] - {id}];
    forall x
      ensures Occ(news', x) == Occ(news, x) - if x == id then 1 else 0
    {
      OccUpdate(news, b, news[b] - {id}, x);
    }
    OccPositive(news', id);
    Shrinks(news[b] - {id}, news[b]);
  }

  lemma DecrementKeeps(h: Hashes, t: Tables, pending: Option<nat>, b: nat, id: nat)
    requires Check(h, t, pending) && b < |t.news| && id in t.news[b] && pending != Some(id) && id in t.info
    requires t.info[id].refCount != 1
    ensures Check(h, Decremented(t, b, id), pending)
  {
    hide NewOk, RandomOk, AddrOk, TriedOk, InfosOk;
    var t' := Decremented(t, b, id);
    NotTried(t.info, t.news, pending, b, id);
    InfosAt(t.info, t.idCount, id);
    NewWithout(t.info, t.news, pending, b, id, t'.info);
    RecountKeeps(h, t, id, t.info[id].refCount - 1, t'.news, pending);
  }

  lemma NotTried(info: map<nat, Info>, news: seq<set<nat>>, pending: Option<nat>, b: nat, id: nat)
    requires NewOk(info, news, pending) && b < |news| && id in news[b]
    ensures id in info && !info[id].inTried
  {
  }

  lemma LastRemovedKeeps(h: Hashes, t: Tables, pending: Option<nat>, b: nat)
    requires Check(h, t, pending) && b < |t.news| && t.random != []
    requires var id := t.random[|t.random| - 1];
             id in t.news[b] && pending != Some(id) && id in t.info && t.info[id].refCount == 1
    ensures Check(h, LastRemoved(t, b), pending)
  {
    hide RandomOk, AddrOk, TriedOk, NewOk, InfosOk;
    var id := t.random[|t.random| - 1];
    NotTried(t.info, t.news, pending, b, id);
    RemovedRandom(t.info, t.random);
    RemovedAddr(t.info, t.addr, id);
    RemovedTried(h, t.info, t.tried, id);
    RemovedInfos(t.info, t.idCount, id);
    NewWithout(t.info, t.news, pending, b, id, t.info - {id});
    var info' := t.info - {id};
    assert TriedIds(info') == TriedIds(t.info) && NewIds(info') == NewIds(t.info) - {id};
  }

  lemma RemovedInfos(info: map<nat, Info>, idCount: nat, id: nat)
    requires InfosOk(info, idCount)
    ensures InfosOk(info - {id}, idCount)
  {
    hide InfoOk;
  }

  lemma RemovedRandom(info: map<nat, Info>, random: seq<nat>)
    requires RandomOk(info, random) && random != []
    ensures RandomOk(info - {random[|random| - 1]}, random[..|random| - 1])
  {
  }

  lemma RemovedAddr(info: map<nat, Info>, addr: map<NetAddr, nat>, id: nat)
    requires AddrOk(info, addr) && id in info
    ensures AddrOk(info - {id}, addr - {info[id].ip})
  {
  }

  lemma RemovedTried(h: Hashes, info: map<nat, Info>, tried: seq<seq<nat>>, id: nat)
    requires TriedOk(h, info, tried) && id in info && !info[id].inTried
    ensures TriedOk(h, info - {id}, tried)
  {
  }

  lemma DropKeeps(h: Hashes, t: Tables, pending: Option<nat>, b: nat, id: nat)
    requires Check(h, t, pending) && b < |t.news| && id in t.news[b] && pending != Some(id)
    ensures id in t.info && RandomOk(t.info, t.random) && Check(h, Dropped(t, b, id), pending)
    ensures Dropped(t, b, id).news == t.news[b := t.news[b] - {id}]
  {
    hide Check, RandomOk, AddrOk, TriedOk, NewOk, InfosOk, CountsOk, LastRemoved, Decremented, Swapped;
    CheckParts(h, t, pending);
    NotTried(t.info, t.news, pending, b, id);
    DroppedNews(t, b, id);
    if t.info[id].refCount == 1 {
      RandomPlaces(t.info, t.random, id);
      var last := |t.random| - 1;
      SwapKeeps(h, t, pending, t.info[id].randomPos, last);
      SwapPlaces(t, t.info[id].randomPos, last);
      LastRemovedKeeps(h, Swapped(t, t.info[id].randomPos, last), pending, b);
    } else {
      DecrementKeeps(h, t, pending, b, id);
    }
  }

  lemma DroppedNews(t: Tables, b: nat, id: nat)
    requires RandomOk(t.info, t.random) && b < |t.news| && id in t.info
    ensures Dropped(t, b, id).news == t.news[b := t.news[b] - {id}]
  {
    hide RandomOk;
    if t.info[id].refCount == 1 {
      RandomPlaces(t.info, t.random, id);
    }
  }

  lemma SwapPlaces(t: Tables, i: nat, j: nat)
    requires i < |t.random| && j < |t.random| && t.random[i] in t.info && t.random[j] in t.info
    ensures var t' := Swapped(t, i, j);
            && |t'.random| == |t.random| && t'.random[j] == t.random[i] && t'.news == t.news
            && t'.info.Keys == t.info.Keys && t'.info[t.random[i]].ip == t.info[t.random[i]].ip
            && t'.info[t.random[i]].refCount == t.info[t.random[i]].refCount
  {
  }

  lemma CheckParts(h: Hashes, t: Tables, pending: Option<nat>)
    requires Check(h, t, pending)
    ensures RandomOk(t.info, t.random) && AddrOk(t.info, t.addr) && TriedOk(h, t.info, t.tried)
    ensures NewOk(t.info, t.news, pending) && InfosOk(t.info, t.idCount) && CountsOk(t)
  {
  }

  // ---------- joining a new bucket ----------

  /** A new entry, which counts the bucket it is about to join. */
  function Created(t: Tables, i: Info): Tables {
    var id := t.idCount;
    t.(idCount := id + 1, info := t.info[id := i.(randomPos := |t.random|, refCount := 1, inTried := false)],
       addr := t.addr[i.ip := id], random := t.random + [id], nNew := t.nNew + 1)
  }

  lemma CreateKeeps(h: Hashes, t: Tables, i: Info)
    requires Check(h, t, None) && i.ip !in t.addr && i.lastTry >= 0 && i.lastSuccess >= 0
    ensures Check(h, Created(t, i), Some(t.idCount))
  {
    hide TriedOk, NewOk, RandomOk, AddrOk, InfosOk, CountsOk;
    var id := t.idCount;
    var i' := i.(randomPos := |t.random|, refCount := 1, inTried := false);
    InfosAt(t.info, id, id);
    CreatedRandom(t, i);
    CreatedAddr(t, i);
    CreatedNew(t, i);
    CreatedTried(h, t, i);
    InfosUpdated(t.info, id + 1, id, i');
    CreatedCounts(t, i);
  }

  lemma CreatedCounts(t: Tables, i: Info)
    requires CountsOk(t) && t.idCount !in t.info
    ensures CountsOk(Created(t, i))
  {
    IdsUpdated(t.info, t.idCount, i.(randomPos := |t.random|, refCount := 1, inTried := false));
    assert TriedIds(t.info) - {t.idCount} == TriedIds(t.info) && t.idCount !in NewIds(t.info);
  }

  lemma CreatedAddr(t: Tables, i: Info)
    requires AddrOk(t.info, t.addr) && t.idCount !in t.info && i.ip !in t.addr
    ensures AddrOk(Created(t, i).info, Created(t, i).addr)
  {
  }

  lemma CreatedRandom(t: Tables, i: Info)
    requires RandomOk(t.info, t.random) && t.idCount !in t.info
    ensures RandomOk(Created(t, i).info, Created(t, i).random)
  {
  }

  lemma CreatedTried(h: Hashes, t: Tables, i: Info)
    requires TriedOk(h, t.info, t.tried) && t.idCount !in t.info
    ensures TriedOk(h, Created(t, i).info, t.tried)
  {
  }

  lemma CreatedNew(t: Tables, i: Info)
    requires NewOk(t.info, t.news, None) && t.idCount !in t.info
    ensures NewOk(Created(t, i).info, t.news, Some(t.idCount))
  {
    OccPositive(t.news, t.idCount);
  }

  /** An entry counts one bucket more, which it is about to join. */
  function Bumped(t: Tables, id: nat): Tables
    requires id in t.info
  {
    t.(info := t.info[id := t.info[id].(refCount := t.info[id].refCount + 1)])
  }

  lemma BumpKeeps(h: Hashes, t: Tables, id: nat)
    requires Check(h, t, None) && id in t.info && !t.info[id].inTried && t.info[id].refCount < NEW_BUCKETS_PER_ADDRESS
    ensures Check(h, Bumped(t, id), Some(id))
  {
    hide NewOk, RandomOk, AddrOk, TriedOk, InfosOk;
    InfosAt(t.info, t.idCount, id);
    BumpedNew(t.info, t.news, id);
    RecountKeeps(h, t, id, t.info[id].refCount + 1, t.news, Some(id));
  }

  lemma BumpedNew(info: map<nat, Info>, news: seq<set<nat>>, id: nat)
    requires NewOk(info, news, None) && id in info && !info[id].inTried
    ensures NewOk(info[id := info[id].(refCount := info[id].refCount + 1)], news, Some(id))
  {
  }

  function Joined(t: Tables, b: nat, id: nat): Tables
    requires b < |t.news|
  {
    t.(news := t.news[b := t.news[b] + {id}])
  }

  lemma JoinKeeps(h: Hashes, t: Tables, b: nat, id: nat)
    requires Check(h, t, Some(id)) && b < |t.news| && id !in t.news[b] && |t.news[b]| < NEW_BUCKET_SIZE
    ensures Check(h, Joined(t, b, id), None)
  {
    hide RandomOk, AddrOk, TriedOk, InfosOk;
    JoinedNew(t.info, t.news, b, id);
  }

  lemma JoinedNew(info: map<nat, Info>, news: seq<set<nat>>, b: nat, id: nat)
    requires NewOk(info, news, Some(id)) && b < |news| && id !in news[b] && |news[b]| < NEW_BUCKET_SIZE
    ensures NewOk(info, news[b := news[b] + {id}], None)
  {
    forall x
      ensures Occ(news[b := news[b] + {id}], x) == Occ(news, x) + if x == id then 1 else 0
    {
      OccUpdate(news, b, news[b] + {id}, x);
    }
  }

  // ---------- moving to the tried buckets ----------

  function SwapIn(s: seq<nat>, i: nat, j: nat): seq<nat>
    requires i < |s| && j < |s|
  {
    s[j := s[i]][i := s[j]]
  }

  /** Two places of a tried bucket swapped. */
  function TriedSwapped(t: Tables, k: nat, i: nat, j: nat): Tables
    requires k < |t.tried| && i < |t.tried[k]| && j < |t.tried[k]|
  {
    var s: seq<nat> := t.tried[k];
    t.(tried := t.tried[k := SwapIn(s, i, j)])
  }

  lemma TriedSwapKeeps(h: Hashes, t: Tables, pending: Option<nat>, k: nat, i: nat, j: nat)
    requires Check(h, t, pending) && k < |t.tried| && i < |t.tried[k]| && j < |t.tried[k]|
    ensures Check(h, TriedSwapped(t, k, i, j), pending)
  {
    hide RandomOk, AddrOk, NewOk, InfosOk;
    SwappedTried(h, t.info, t.tried, k, i, j);
  }

  lemma SwappedTried(h: Hashes, info: map<nat, Info>, tried: seq<seq<nat>>, k: nat, i: nat, j: nat)
    requires TriedOk(h, info, tried) && k < |tried| && i < |tried[k]| && j < |tried[k]|
    ensures TriedOk(h, info, tried[k := SwapIn(tried[k], i, j)])
  {
    var s := tried[k];
    var s' := SwapIn(s, i, j);
    forall x
      ensures x in s' <==> x in s
    {
      if x in s {
        var n :| 0 <= n < |s| && s[n] == x;
        assert s'[if n == i then j else if n == j then i else n] == x;
      }
    }
  }

  /** An entry as it is among the tried ones, and as it is once evicted to a new bucket. */
  function AsTried(i: Info): Info {
    i.(refCount := 0, inTried := true)
  }

  function AsEvicted(i: Info): Info {
    i.(refCount := 1, inTried := false)
  }

  /** A new entry moves to the end of its tried bucket. */
  function Promoted(h: Hashes, t: Tables, id: nat): Tables
    requires id in t.info && |t.tried| == TRIED_BUCKET_COUNT
  {
    var k := TriedBucket(h, t.info[id]);
    t.(info := t.info[id := AsTried(t.info[id])], news := Cleared(t.news, id),
       nTried := t.nTried + 1, nNew := t.nNew - 1, tried := t.tried[k := t.tried[k] + [id]])
  }

  function Put(s: seq<nat>, pos: nat, id: nat): seq<nat>
    requires pos < |s|
  {
    s[pos := id]
  }

  /** A new entry takes the place of a tried one, which goes to a new bucket. */
  function Replaced(h: Hashes, t: Tables, id: nat, pos: nat, b: nat): Tables
    requires id in t.info && |t.tried| == TRIED_BUCKET_COUNT && b < |t.news|
    requires var bucket := t.tried[TriedBucket(h, t.info[id])]; pos < |bucket| && bucket[pos] in t.info
  {
    var k := TriedBucket(h, t.info[id]);
    var out := t.tried[k][pos];
    var info := t.info[out := AsEvicted(t.info[out])];
    var news := Cleared(t.news, id);
    t.(info := info[id := AsTried(t.info[id])], news := news[b := news[b] + {out}],
       tried := t.tried[k := Put(t.tried[k], pos, id)])
  }

  lemma ClearedSmaller(news: seq<set<nat>>, id: nat)
    requires forall b :: 0 <= b < |news| ==> |news[b]| <= NEW_BUCKET_SIZE
    ensures forall b :: 0 <= b < |news| ==> |Cleared(news, id)[b]| <= NEW_BUCKET_SIZE
    ensures forall b :: 0 <= b < |news| && id in news[b] ==> |Cleared(news, id)[b]| < NEW_BUCKET_SIZE
  {
    forall b | 0 <= b < |news|
      ensures |Cleared(news, id)[b]| <= |news[b]| && (id in news[b] ==> |Cleared(news, id)[b]| < |news[b]|)
    {
      Bounded(news[b] - {id}, news[b]);
      if id in news[b] {
        Shrinks(news[b] - {id}, news[b]);
      }
    }
  }

  lemma PromotedTried(h: Hashes, info: map<nat, Info>, tried: seq<seq<nat>>, id: nat)
    requires TriedOk(h, info, tried) && id in info && !info[id].inTried
    requires |tried[TriedBucket(h, info[id])]| < TRIED_BUCKET_SIZE
    ensures var k := TriedBucket(h, info[id]);
            TriedOk(h, info[id := AsTried(info[id])], tried[k := tried[k] + [id]])
  {
    var k := TriedBucket(h, info[id]);
    assert TriedBucket(h, AsTried(info[id])) == k;
  }

  lemma PromotedNew(info: map<nat, Info>, news: seq<set<nat>>, id: nat)
    requires NewOk(info, news, None) && id in info
    ensures NewOk(info[id := AsTried(info[id])], Cleared(news, id), None)
  {
    ClearedSmaller(news, id);
    forall x
      ensures Occ(Cleared(news, id), x) == if x == id then 0 else Occ(news, x)
    {
      OccCleared(news, id, x);
    }
  }

  /** An entry that changes between new and tried keeps its address and its place in the random order. */
  lemma MovedElsewhere(t: Tables, id: nat, i: Info)
    requires RandomOk(t.info, t.random) && AddrOk(t.info, t.addr) && id in t.info
    requires i == AsTried(t.info[id]) || i == AsEvicted(t.info[id])
    ensures RandomOk(t.info[id := i], t.random) && AddrOk(t.info[id := i], t.addr)
  {
  }

  lemma PromoteKeeps(h: Hashes, t: Tables, id: nat)
    requires Check(h, t, None) && id in t.info && !t.info[id].inTried && t.info[id].lastSuccess > 0
    requires |t.tried[TriedBucket(h, t.info[id])]| < TRIED_BUCKET_SIZE
    ensures Check(h, Promoted(h, t, id), None)
  {
    hide RandomOk, AddrOk, NewOk, InfosOk, TriedBucket, TriedOk, CountsOk;
    var i := AsTried(t.info[id]);
    TriedHasBuckets(h, t.info, t.tried);
    PromotedTried(h, t.info, t.tried, id);
    PromotedNew(t.info, t.news, id);
    MovedElsewhere(t, id, i);
    InfosAt(t.info, t.idCount, id);
    InfosUpdated(t.info, t.idCount, id, i);
    PromotedCounts(h, t, id);
  }

  lemma TriedHasBuckets(h: Hashes, info: map<nat, Info>, tried: seq<seq<nat>>)
    requires TriedOk(h, info, tried)
    ensures |tried| == TRIED_BUCKET_COUNT
  {
  }

  lemma PromotedCounts(h: Hashes, t: Tables, id: nat)
    requires CountsOk(t) && id in t.info && !t.info[id].inTried && |t.tried| == TRIED_BUCKET_COUNT
    ensures CountsOk(Promoted(h, t, id))
  {
    IdsUpdated(t.info, id, AsTried(t.info[id]));
  }

  lemma ReplacedTried(h: Hashes, t: Tables, id: nat, pos: nat, b: nat)
    requires TriedOk(h, t.info, t.tried) && id in t.info && !t.info[id].inTried && b < |t.news|
    requires pos < |t.tried[TriedBucket(h, t.info[id])]|
    ensures t.tried[TriedBucket(h, t.info[id])][pos] in t.info
    ensures var t' := Replaced(h, t, id, pos, b); TriedOk(h, t'.info, t'.tried)
  {
    var k := TriedBucket(h, t.info[id]);
    var out := t.tried[k][pos];
    var t' := Replaced(h, t, id, pos, b);
    assert TriedBucket(h, t'.info[id]) == k && out != id;
    assert t'.tried[k][pos] == id;
    forall x | x in t'.info && t'.info[x].inTried
      ensures x in t'.tried[TriedBucket(h, t'.info[x])]
    {
      if x != id {
        var b' := TriedBucket(h, t.info[x]);
        var n :| 0 <= n < |t.tried[b']| && t.tried[b'][n] == x;
        assert t'.tried[b'][n] == x;
      }
    }
  }

  lemma ReplacedNew(info: map<nat, Info>, news: seq<set<nat>>, id: nat, out: nat, b: nat)
    requires NewOk(info, news, None) && id in info && out in info && info[out].inTried && info[out].refCount == 0
    requires id != out && b < |news| && |Cleared(news, id)[b]| < NEW_BUCKET_SIZE
    ensures var info' := info[out := AsEvicted(info[out])][id := AsTried(info[id])];
            NewOk(info', Cleared(news, id)[b := Cleared(news, id)[b] + {out}], None)
  {
    ReplacedRefCounts(info, news, id, out, b);
    ReplacedMembers(info, news, id, out, b);
    hide Occ, Cleared, MembersOk, RefCountsOk;
    ReplacedBuckets(news, id, b, out);
  }

  lemma ReplacedRefCounts(info: map<nat, Info>, news: seq<set<nat>>, id: nat, out: nat, b: nat)
    requires RefCountsOk(info, news, None) && id in info && out in info && info[out].refCount == 0
    requires id != out && b < |news|
    ensures var info' := info[out := AsEvicted(info[out])][id := AsTried(info[id])];
            RefCountsOk(info', Cleared(news, id)[b := Cleared(news, id)[b] + {out}], None)
  {
    hide Occ, Cleared;
    ReplacedOcc(news, id, b, out);
  }

  lemma ReplacedMembers(info: map<nat, Info>, news: seq<set<nat>>, id: nat, out: nat, b: nat)
    requires MembersOk(info, news) && id in info && out in info && id != out && b < |news|
    ensures var info' := info[out := AsEvicted(info[out])][id := AsTried(info[id])];
            MembersOk(info', Cleared(news, id)[b := Cleared(news, id)[b] + {out}])
  {
  }

  lemma ReplacedOcc(news: seq<set<nat>>, id: nat, b: nat, out: nat)
    requires b < |news| && id != out && Occ(news, out) == 0
    ensures var news' := Cleared(news, id)[b := Cleared(news, id)[b] + {out}];
            forall x :: Occ(news', x) == if x == id then 0 else Occ(news, x) + if x == out then 1 else 0
  {
    var cleared := Cleared(news, id);
    OccPositive(news, out);
    assert out !in cleared[b];
    forall x
      ensures Occ(cleared[b := cleared[b] + {out}], x) == if x == id then 0 else Occ(news, x) + if x == out then 1 else 0
    {
      OccCleared(news, id, x);
      OccUpdate(cleared, b, cleared[b] + {out}, x);
    }
  }

  lemma ReplacedBuckets(news: seq<set<nat>>, id: nat, b: nat, out: nat)
    requires b < |news| && |Cleared(news, id)[b]| < NEW_BUCKET_SIZE
    requires forall c :: 0 <= c < |news| ==> |news[c]| <= NEW_BUCKET_SIZE
    ensures var news' := Cleared(news, id)[b := Cleared(news, id)[b] + {out}];
            forall c :: 0 <= c < |news'| ==>
              |news'[c]| <= NEW_BUCKET_SIZE && news'[c] <= news[c] - {id} + if c == b then {out} else {}
  {
    ClearedSmaller(news, id);
  }

  lemma ReplaceKeeps(h: Hashes, t: Tables, id: nat, pos: nat, b: nat)
    requires Check(h, t, None) && id in t.info && !t.info[id].inTried && t.info[id].lastSuccess > 0
    requires |t.tried| == TRIED_BUCKET_COUNT
    requires pos < |t.tried[TriedBucket(h, t.info[id])]| && b < |t.news| && |Cleared(t.news, id)[b]| < NEW_BUCKET_SIZE
    ensures t.tried[TriedBucket(h, t.info[id])][pos] in t.info
    ensures Check(h, Replaced(h, t, id, pos, b), None)
  {
    hide RandomOk, AddrOk, NewOk, InfosOk, TriedBucket, TriedOk, CountsOk;
    TriedAt(h, t.info, t.tried, TriedBucket(h, t.info[id]), pos);
    ReplacedTried(h, t, id, pos, b);
    var out := t.tried[TriedBucket(h, t.info[id])][pos];
    InfosAt(t.info, t.idCount, out);
    ReplacedNew(t.info, t.news, id, out, b);
    ReplacedElsewhere(t, id, out);
    ReplacedInfo(h, t, id, pos, b);
    ReplacedCountsOk(h, t, id, pos, b);
  }

  lemma ReplacedInfo(h: Hashes, t: Tables, id: nat, pos: nat, b: nat)
    requires id in t.info && |t.tried| == TRIED_BUCKET_COUNT && b < |t.news|
    requires var bucket := t.tried[TriedBucket(h, t.info[id])];
             pos < |bucket| && bucket[pos] in t.info && bucket[pos] != id
    ensures var out := t.tried[TriedBucket(h, t.info[id])][pos];
            Replaced(h, t, id, pos, b).info == t.info[out := AsEvicted(t.info[out])][id := AsTried(t.info[id])]
  {
  }

  lemma ReplacedElsewhere(t: Tables, id: nat, out: nat)
    requires RandomOk(t.info, t.random) && AddrOk(t.info, t.addr) && InfosOk(t.info, t.idCount)
    requires id in t.info && out in t.info && id != out && t.info[id].lastSuccess > 0
    ensures var info := t.info[out := AsEvicted(t.info[out])];
            var info' := info[id := AsTried(t.info[id])];
            RandomOk(info', t.random) && AddrOk(info', t.addr) && InfosOk(info', t.idCount)
  {
    hide RandomOk, AddrOk, InfosOk;
    var i, j := AsEvicted(t.info[out]), AsTried(t.info[id]);
    var info := t.info[out := i];
    MovedElsewhere(t, out, i);
    MovedElsewhere(t.(info := info), id, j);
    InfosAt(t.info, t.idCount, id);
    InfosAt(t.info, t.idCount, out);
    InfosUpdated(t.info, t.idCount, out, i);
    InfosUpdated(info, t.idCount, id, j);
  }

  lemma ReplacedCountsOk(h: Hashes, t: Tables, id: nat, pos: nat, b: nat)
    requires CountsOk(t) && id in t.info && !t.info[id].inTried && |t.tried| == TRIED_BUCKET_COUNT && b < |t.news|
    requires var bucket := t.tried[TriedBucket(h, t.info[id])];
             pos < |bucket| && bucket[pos] in t.info && t.info[bucket[pos]].inTried
    ensures CountsOk(Replaced(h, t, id, pos, b))
  {
    hide TriedBucket;
    var out := t.tried[TriedBucket(h, t.info[id])][pos];
    var info := t.info[out := AsEvicted(t.info[out])];
    IdsUpdated(t.info, out, AsEvicted(t.info[out]));
    IdsUpdated(info, id, AsTried(t.info[id]));
    ReplacedCounts(TriedIds(t.info), out, id);
    ReplacedCounts(NewIds(t.info), id, out);
    assert NewIds(t.info) + {out} - {id} == NewIds(t.info) - {id} + {out};
  }

  lemma ReplacedCounts(ids: set<nat>, gone: nat, come: nat)
    requires gone in ids && come !in ids
    ensures |ids - {gone} + {come}| == |ids|
  {
  }

  lemma TriedAt(h: Hashes, info: map<nat, Info>, tried: seq<seq<nat>>, k: nat, pos: nat)
    requires TriedOk(h, info, tried) && k < |tried| && pos < |tried[k]|
    ensures tried[k][pos] in info && info[tried[k][pos]].inTried
  {
  }
}
