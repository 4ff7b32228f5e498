/**
 How the address manager is saved and loaded. Only the entries and the new buckets are
 written, the entries under new numbers; everything else is rebuilt.
 */
module AddrDisk {
  import opened AddrTables
  import opened Common

  /** What is written of an entry. */
  datatype Record = Record(
    ip: NetAddr, port: nat, services: bv64, time: int, source: NetAddr, lastSuccess: int, attempts: int)

  /** New entries, tried entries, and for each new bucket the numbers of its entries among the new ones. */
  datatype Disk = Disk(news: seq<Record>, trieds: seq<Record>, buckets: seq<seq<nat>>)

  function RecordOf(i: Info): Record {
    Record(i.ip, i.port, i.services, i.time, i.source, i.lastSuccess, i.attempts)
  }

  /** An entry as it is right after reading. */
  function InfoOf(r: Record): Info {
    Info(r.ip, r.port, r.services, r.time, r.source, r.lastSuccess, 0, r.attempts, 0, false, -1)
  }

  const EMPTY_INFO := Info(0, 0, 0, 0, 0, 0, 0, 0, 0, false, -1)

  // ---------- loading ----------

  function EmptyTables(d: Disk): Tables {
    Tables(0, map[], map[], [], |d.trieds|, seq(TRIED_BUCKET_COUNT, _ => []), |d.news|, seq(NEW_BUCKET_COUNT, _ => {}))
  }

  /** A new entry gets the next id. If the number of buckets has changed since, it goes to the bucket of its source at once. */
  function LoadNew(h: Hashes, d: Disk, t: Tables, n: nat): Tables
    requires n < |d.news| && |t.news| == NEW_BUCKET_COUNT
  {
    var r := d.news[n];
    var rebuild := |d.buckets| != NEW_BUCKET_COUNT;
    var i := InfoOf(r).(randomPos := |t.random|, refCount := if rebuild then 1 else 0);
    var b := NewBucket(h, r.ip, r.source);
    t.(info := t.info[n := i], addr := t.addr[r.ip := n], random := t.random + [n],
       news := if rebuild then t.news[b := t.news[b] + {n}] else t.news)
  }

  function LoadNews(h: Hashes, d: Disk, n: nat): (t: Tables)
    requires n <= |d.news|
    ensures |t.news| == NEW_BUCKET_COUNT && |t.tried| == TRIED_BUCKET_COUNT
  {
    if n == 0 then EmptyTables(d) else LoadNew(h, d, LoadNews(h, d, n - 1), n - 1)
  }

  /** A tried entry joins its bucket, or is lost if that is full. */
  function LoadTried(h: Hashes, t: Tables, r: Record): Tables
    requires |t.tried| == TRIED_BUCKET_COUNT
  {
    var i := InfoOf(r).(randomPos := |t.random|, inTried := true);
    var k := TriedBucket(h, i);
    if |t.tried[k]| < TRIED_BUCKET_SIZE then
      t.(info := t.info[t.idCount := i], addr := t.addr[r.ip := t.idCount], random := t.random + [t.idCount],
         tried := t.tried[k := t.tried[k] + [t.idCount]], idCount := t.idCount + 1)
    else
      t.(nTried := t.nTried - 1)
  }

  function LoadTrieds(h: Hashes, d: Disk, n: nat): (t: Tables)
    requires n <= |d.trieds|
    ensures |t.news| == NEW_BUCKET_COUNT && |t.tried| == TRIED_BUCKET_COUNT
  {
    if n == 0 then LoadNews(h, d, |d.news|).(idCount := |d.news|)
    else LoadTried(h, LoadTrieds(h, d, n - 1), d.trieds[n - 1])
  }

  /** An entry joins a new bucket, unless it is in four already. A number that names no entry makes an empty one. */
  function LoadMember(d: Disk, t: Tables, b: nat, id: nat): (t': Tables)
    requires b < |t.news|
    ensures |t'.news| == |t.news|
  {
    var i := if id in t.info then t.info[id] else EMPTY_INFO;
    if |d.buckets| == NEW_BUCKET_COUNT && i.refCount < NEW_BUCKETS_PER_ADDRESS then
      t.(info := t.info[id := i.(refCount := i.refCount + 1)], news := t.news[b := t.news[b] + {id}])
    else
      t.(info := t.info[id := i])
  }

  function LoadMembers(d: Disk, t: Tables, b: nat, n: nat): (t': Tables)
    requires b < |t.news| && b < |d.buckets| && n <= |d.buckets[b]|
    ensures |t'.news| == |t.news|
  {
    if n == 0 then t else LoadMember(d, LoadMembers(d, t, b, n - 1), b, d.buckets[b][n - 1])
  }

  function LoadBuckets(h: Hashes, d: Disk, b: nat): (t: Tables)
    requires b <= |d.buckets| <= NEW_BUCKET_COUNT
    ensures |t.news| == NEW_BUCKET_COUNT
  {
    if b == 0 then LoadTrieds(h, d, |d.trieds|)
    else LoadMembers(d, LoadBuckets(h, d, b - 1), b - 1, |d.buckets[b - 1]|)
  }

  function Loaded(h: Hashes, d: Disk): Tables
    requires |d.buckets| <= NEW_BUCKET_COUNT
  {
    LoadBuckets(h, d, |d.buckets|)
  }

  // ---------- what a good file is ----------

  function SetOf(s: seq<nat>): set<nat> {
    set i | 0 <= i < |s| :: s[i]
  }

  /** The new buckets of a file as sets. */
  function BucketSets(d: Disk): (r: seq<set<nat>>)
    ensures |r| == |d.buckets| && forall b :: 0 <= b < |r| ==> r[b] == SetOf(d.buckets[b])
  {
    seq(|d.buckets|, b requires 0 <= b < |d.buckets| => SetOf(d.buckets[b]))
  }

  /** How many of the first n tried entries belong to a bucket. */
  function CountIn(h: Hashes, trieds: seq<Record>, n: nat, k: nat): nat
    requires n <= |trieds|
  {
    if n == 0 then 0
    else CountIn(h, trieds, n - 1, k) + if TriedBucket(h, InfoOf(trieds[n - 1])) == k then 1 else 0
  }

  /** All entries, in the order of the ids they get. */
  function All(d: Disk): seq<Record> {
    d.news + d.trieds
  }

  ghost predicate DistinctAddresses(rs: seq<Record>) {
    forall i, j :: 0 <= i < j < |rs| ==> rs[i].ip != rs[j].ip
  }

  ghost predicate GoodBuckets(d: Disk) {
    && |d.buckets| == NEW_BUCKET_COUNT
    && (forall b :: 0 <= b < |d.buckets| ==> |d.buckets[b]| <= NEW_BUCKET_SIZE && Distinct(d.buckets[b]))
    && (forall b, i :: 0 <= b < |d.buckets| && 0 <= i < |d.buckets[b]| ==> d.buckets[b][i] < |d.news|)
    && (forall n :: 0 <= n < |d.news| ==> 1 <= Occ(BucketSets(d), n) <= NEW_BUCKETS_PER_ADDRESS)
  }

  /** A file from which nothing is lost. */
  ghost predicate GoodDisk(h: Hashes, d: Disk) {
    && DistinctAddresses(All(d))
    && (forall k :: 0 <= k < TRIED_BUCKET_COUNT ==> CountIn(h, d.trieds, |d.trieds|, k) <= TRIED_BUCKET_SIZE)
    && GoodBuckets(d)
    && (forall n :: 0 <= n < |d.news| ==> d.news[n].lastSuccess >= 0)
    && (forall n :: 0 <= n < |d.trieds| ==> d.trieds[n].lastSuccess > 0)
  }

  // ---------- the entries once loaded ----------

  /** The ids are the numbers below n, in that order, and lead to the entries read. */
  ghost predicate EntriesLoaded(d: Disk, info: map<nat, Info>, addr: map<NetAddr, nat>, random: seq<nat>, n: nat) {
    && n <= |All(d)|
    && (forall id: nat :: id in info <==> id < n)
    && (forall id :: 0 <= id < n ==> info[id] == LoadedInfo(d, id).(refCount := info[id].refCount))
    && |random| == n && (forall i :: 0 <= i < n ==> random[i] == i)
    && (forall id :: 0 <= id < n ==> All(d)[id].ip in addr && addr[All(d)[id].ip] == id)
    && (forall ip :: ip in addr ==> addr[ip] < n && All(d)[addr[ip]].ip == ip)
  }

  /** Entry number id of a file, before it joins new buckets. */
  function LoadedInfo(d: Disk, id: nat): Info
    requires id < |All(d)|
  {
    InfoOf(All(d)[id]).(randomPos := id, inTried := id >= |d.news|)
  }

  lemma {:induction false} LoadNewsFacts(h: Hashes, d: Disk, n: nat)
    requires n <= |d.news| && DistinctAddresses(All(d)) && |d.buckets| == NEW_BUCKET_COUNT
    ensures var t := LoadNews(h, d, n);
            && EntriesLoaded(d, t.info, t.addr, t.random, n)
            && (forall id :: 0 <= id < n ==> t.info[id].refCount == 0)
            && t.news == EmptyTables(d).news && t.tried == EmptyTables(d).tried
            && t.nNew == |d.news| && t.nTried == |d.trieds|
  {
    hide DistinctAddresses;
    if n > 0 {
      LoadNewsFacts(h, d, n - 1);
      var t, t' := LoadNews(h, d, n - 1), LoadNews(h, d, n);
      assert All(d)[n - 1] == d.news[n - 1];
      LoadedOneMore(d, t, t', n - 1);
    }
  }

  /** One more entry is loaded, with the next number. */
  lemma LoadedOneMore(d: Disk, t: Tables, t': Tables, n: nat)
    requires EntriesLoaded(d, t.info, t.addr, t.random, n) && n < |All(d)| && DistinctAddresses(All(d))
    requires n in t'.info && t'.info == t.info[n := t'.info[n]]
    requires t'.info[n] == LoadedInfo(d, n).(refCount := t'.info[n].refCount)
    requires t'.addr == t.addr[All(d)[n].ip := n] && t'.random == t.random + [n]
    ensures EntriesLoaded(d, t'.info, t'.addr, t'.random, n + 1)
  {
  }

  /** The tried buckets hold the entries read so far that belong to them. */
  ghost predicate TriedLoaded(h: Hashes, d: Disk, tried: seq<seq<nat>>, n: nat) {
    && |tried| == TRIED_BUCKET_COUNT && n <= |d.trieds|
    && (forall k :: 0 <= k < |tried| ==> BucketLoaded(h, d, tried[k], k, n))
  }

  ghost predicate BucketLoaded(h: Hashes, d: Disk, bucket: seq<nat>, k: nat, n: nat)
    requires n <= |d.trieds|
  {
    && |bucket| == CountIn(h, d.trieds, n, k) && Distinct(bucket)
    && forall id :: id in bucket <==> BelongsIn(h, d, id, k, n)
  }

  /** One of the first n tried entries of a file, by its id, belongs to a bucket. */
  predicate BelongsIn(h: Hashes, d: Disk, id: nat, k: nat, n: nat)
    requires n <= |d.trieds|
  {
    |d.news| <= id < |d.news| + n && TriedBucket(h, InfoOf(d.trieds[id - |d.news|])) == k
  }

  lemma {:induction false} CountGrows(h: Hashes, trieds: seq<Record>, n: nat, m: nat, k: nat)
    requires n <= m <= |trieds|
    ensures CountIn(h, trieds, n, k) <= CountIn(h, trieds, m, k)
  {
    if n < m {
      CountGrows(h, trieds, n, m - 1, k);
    }
  }

  lemma {:induction false} LoadTriedsFacts(h: Hashes, d: Disk, n: nat)
    requires GoodDisk(h, d) && n <= |d.trieds|
    ensures var t := LoadTrieds(h, d, n);
            && EntriesLoaded(d, t.info, t.addr, t.random, |d.news| + n) && TriedLoaded(h, d, t.tried, n)
            && t.idCount == |d.news| + n
            && (forall id :: 0 <= id < |d.news| + n ==> t.info[id].refCount == 0)
            && t.news == EmptyTables(d).news && t.nNew == |d.news| && t.nTried == |d.trieds|
  {
    hide EntriesLoaded, TriedLoaded;
    if n == 0 {
      LoadNewsFacts(h, d, |d.news|);
      NoneTried(h, d, LoadTrieds(h, d, 0));
    } else {
      LoadTriedsFacts(h, d, n - 1);
      LoadTriedStep(h, d, LoadTrieds(h, d, n - 1), n - 1);
    }
  }

  lemma NoneTried(h: Hashes, d: Disk, t: Tables)
    requires t.tried == EmptyTables(d).tried
    ensures TriedLoaded(h, d, t.tried, 0)
  {
  }

  lemma LoadTriedStep(h: Hashes, d: Disk, t: Tables, n: nat)
    requires GoodDisk(h, d) && n < |d.trieds| && t.idCount == |d.news| + n && |t.tried| == TRIED_BUCKET_COUNT
    requires EntriesLoaded(d, t.info, t.addr, t.random, |d.news| + n) && TriedLoaded(h, d, t.tried, n)
    requires forall id :: 0 <= id < |d.news| + n ==> t.info[id].refCount == 0
    ensures var t' := LoadTried(h, t, d.trieds[n]);
            && EntriesLoaded(d, t'.info, t'.addr, t'.random, |d.news| + n + 1) && TriedLoaded(h, d, t'.tried, n + 1)
            && (forall id :: 0 <= id < |d.news| + n + 1 ==> t'.info[id].refCount == 0)
            && t'.idCount == |d.news| + n + 1 && t'.news == t.news && t'.nNew == t.nNew && t'.nTried == t.nTried
  {
    hide EntriesLoaded, TriedLoaded, GoodBuckets;
    var r := d.trieds[n];
    var k := TriedBucket(h, InfoOf(r));
    var t' := LoadTried(h, t, r);
    TriedHasRoom(h, d, t, n);
    EntriesCounted(d, t, |d.news| + n);
    assert All(d)[|d.news| + n] == r;
    assert t'.info == t.info[t.idCount := t'.info[t.idCount]];
    LoadedOneMore(d, t, t', |d.news| + n);
    TriedStep(h, d, t.tried, n);
  }

  lemma EntriesCounted(d: Disk, t: Tables, n: nat)
    requires EntriesLoaded(d, t.info, t.addr, t.random, n)
    ensures |t.random| == n && n !in t.info && forall id: nat :: id < n ==> id in t.info
  {
  }

  lemma TriedHasRoom(h: Hashes, d: Disk, t: Tables, n: nat)
    requires TriedLoaded(h, d, t.tried, n) && n < |d.trieds|
    requires forall k :: 0 <= k < TRIED_BUCKET_COUNT ==> CountIn(h, d.trieds, |d.trieds|, k) <= TRIED_BUCKET_SIZE
    ensures |t.tried| == TRIED_BUCKET_COUNT && |t.tried[TriedBucket(h, InfoOf(d.trieds[n]))]| < TRIED_BUCKET_SIZE
  {
    var k := TriedBucket(h, InfoOf(d.trieds[n]));
    CountGrows(h, d.trieds, n + 1, |d.trieds|, k);
  }

  lemma BucketStep(h: Hashes, d: Disk, bucket: seq<nat>, k: nat, n: nat)
    requires n < |d.trieds| && BucketLoaded(h, d, bucket, k, n)
    ensures BucketLoaded(h, d, if TriedBucket(h, InfoOf(d.trieds[n])) == k then bucket + [|d.news| + n] else bucket, k, n + 1)
  {
    hide TriedBucket;
    var id := |d.news| + n;
    if TriedBucket(h, InfoOf(d.trieds[n])) == k {
      var longer := bucket + [id];
      assert !BelongsIn(h, d, id, k, n);
      assert forall x :: x in longer <==> x in bucket || x == id;
    }
  }

  lemma TriedStep(h: Hashes, d: Disk, tried: seq<seq<nat>>, n: nat)
    requires TriedLoaded(h, d, tried, n) && n < |d.trieds|
    ensures var k := TriedBucket(h, InfoOf(d.trieds[n])); TriedLoaded(h, d, tried[k := tried[k] + [|d.news| + n]], n + 1)
  {
    hide BucketLoaded;
    forall b | 0 <= b < |tried|
      ensures BucketLoaded(
                h, d, if TriedBucket(h, InfoOf(d.trieds[n])) == b then tried[b] + [|d.news| + n] else tried[b], b, n + 1)
    {
      BucketStep(h, d, tried[b], b, n);
    }
  }

  // ---------- the new buckets once loaded ----------

  lemma {:induction false} OccMonotone(a: seq<set<nat>>, b: seq<set<nat>>, id: nat)
    requires |a| == |b| && forall i :: 0 <= i < |a| ==> a[i] <= b[i]
    ensures Occ(a, id) <= Occ(b, id)
  {
    if a != [] {
      OccMonotone(a[..|a| - 1], b[..|b| - 1], id);
    }
  }

  /** The new buckets when b of them are loaded, and n entries of the next. */
  function Partial(d: Disk, b: nat, n: nat): (r: seq<set<nat>>)
    requires |d.buckets| == NEW_BUCKET_COUNT && b <= |d.buckets| && (b < |d.buckets| ==> n <= |d.buckets[b]|)
    ensures |r| == NEW_BUCKET_COUNT
  {
    seq(NEW_BUCKET_COUNT, c requires 0 <= c < NEW_BUCKET_COUNT =>
      if c < b then SetOf(d.buckets[c]) else if c == b then SetOf(d.buckets[b][..n]) else {})
  }

  lemma PartialEnds(d: Disk, b: nat)
    requires |d.buckets| == NEW_BUCKET_COUNT && b < |d.buckets|
    ensures Partial(d, b, |d.buckets[b]|) == Partial(d, b + 1, 0)
  {
    EmptySet();
    var p, q := Partial(d, b, |d.buckets[b]|), Partial(d, b + 1, 0);
    forall c | 0 <= c < NEW_BUCKET_COUNT
      ensures p[c] == q[c]
    {
      assert d.buckets[b][..|d.buckets[b]|] == d.buckets[b];
      assert c == b + 1 ==> d.buckets[c][..0] == [];
    }
  }

  lemma EmptySet()
    ensures SetOf([]) == {}
  {
  }

  lemma PartialFirst(d: Disk)
    requires |d.buckets| == NEW_BUCKET_COUNT
    ensures Partial(d, 0, 0) == EmptyTables(d).news && Partial(d, |d.buckets|, 0) == BucketSets(d)
  {
    EmptySet();
    var p := Partial(d, 0, 0);
    forall c | 0 <= c < NEW_BUCKET_COUNT
      ensures p[c] == {}
    {
      assert d.buckets[0][..0] == [];
    }
  }

  lemma PartialStep(d: Disk, b: nat, n: nat)
    requires GoodBuckets(d) && b < |d.buckets| && n < |d.buckets[b]|
    ensures var id := d.buckets[b][n];
            && Partial(d, b, n + 1) == Partial(d, b, n)[b := Partial(d, b, n)[b] + {id}]
            && id !in Partial(d, b, n)[b] && id < |d.news|
            && Occ(Partial(d, b, n), id) < NEW_BUCKETS_PER_ADDRESS
  {
    var id := d.buckets[b][n];
    SetOfLonger(d.buckets[b], n);
    assert Partial(d, b, n + 1) == Partial(d, b, n)[b := Partial(d, b, n)[b] + {id}];
    OccUpdate(Partial(d, b, n), b, Partial(d, b, n)[b] + {id}, id);
    assert SetOf(d.buckets[b][..n + 1]) <= SetOf(d.buckets[b]);
    OccMonotone(Partial(d, b, n + 1), BucketSets(d), id);
  }

  lemma SetOfLonger(s: seq<nat>, n: nat)
    requires n < |s| && Distinct(s)
    ensures SetOf(s[..n + 1]) == SetOf(s[..n]) + {s[n]} && s[n] !in SetOf(s[..n])
    ensures SetOf(s[..n + 1]) <= SetOf(s)
  {
    var longer, shorter := s[..n + 1], s[..n];
    forall x | x in SetOf(longer)
      ensures x in SetOf(shorter) + {s[n]}
    {
      var i :| 0 <= i < n + 1 && longer[i] == x;
      assert i < n ==> shorter[i] == x;
    }
    forall x | x in SetOf(shorter)
      ensures x in SetOf(longer)
    {
      var i :| 0 <= i < n && shorter[i] == x;
      assert longer[i] == x;
    }
    assert longer[n] == s[n];
  }

  /** Entries count exactly the buckets they have joined so far. */
  ghost predicate Joining(base: Tables, t: Tables, news: seq<set<nat>>) {
    && t == base.(info := t.info, news := news)
    && t.info.Keys == base.info.Keys
    && forall id :: id in t.info ==> t.info[id] == base.info[id].(refCount := Occ(news, id))
  }

  lemma JoiningStep(d: Disk, base: Tables, t: Tables, b: nat, n: nat)
    requires GoodBuckets(d) && b < |d.buckets| && n < |d.buckets[b]|
    requires forall id: nat :: id < |d.news| ==> id in base.info
    requires Joining(base, t, Partial(d, b, n))
    ensures Joining(base, LoadMember(d, t, b, d.buckets[b][n]), Partial(d, b, n + 1))
  {
    hide Partial;
    var id := d.buckets[b][n];
    var news, news' := Partial(d, b, n), Partial(d, b, n + 1);
    PartialStep(d, b, n);
    var t' := LoadMember(d, t, b, id);
    forall x | x in t'.info
      ensures t'.info[x] == base.info[x].(refCount := Occ(news', x))
    {
      OccUpdate(news, b, news[b] + {id}, x);
    }
  }

  lemma {:induction false} MembersFacts(d: Disk, base: Tables, t: Tables, b: nat, n: nat)
    requires GoodBuckets(d) && b < |d.buckets| && n <= |d.buckets[b]|
    requires forall id: nat :: id < |d.news| ==> id in base.info
    requires |t.news| == NEW_BUCKET_COUNT && Joining(base, t, Partial(d, b, 0))
    ensures Joining(base, LoadMembers(d, t, b, n), Partial(d, b, n))
    decreases n
  {
    hide Joining, GoodBuckets, Partial;
    GoodBucketsCount(d);
    if n > 0 {
      MembersFacts(d, base, t, b, n - 1);
      JoiningStep(d, base, LoadMembers(d, t, b, n - 1), b, n - 1);
    }
  }

  lemma GoodBucketsCount(d: Disk)
    requires GoodBuckets(d)
    ensures |d.buckets| == NEW_BUCKET_COUNT
  {
  }

  lemma {:induction false} BucketsFacts(h: Hashes, d: Disk, b: nat)
    requires GoodDisk(h, d) && b <= |d.buckets|
    ensures Joining(LoadTrieds(h, d, |d.trieds|), LoadBuckets(h, d, b), Partial(d, b, 0))
  {
    hide GoodBuckets, EntriesLoaded, TriedLoaded, Partial, Joining, DistinctAddresses, Occ;
    GoodBucketsCount(d);
    var base := LoadTrieds(h, d, |d.trieds|);
    BaseFacts(h, d);
    if b == 0 {
      PartialFirst(d);
      JoiningNone(d, base);
    } else {
      BucketsFacts(h, d, b - 1);
      NewsKept(base, LoadBuckets(h, d, b - 1), Partial(d, b - 1, 0));
      MembersFacts(d, base, LoadBuckets(h, d, b - 1), b - 1, |d.buckets[b - 1]|);
      PartialEnds(d, b - 1);
    }
  }

  /** The tables before any entry joins a new bucket. */
  lemma BaseFacts(h: Hashes, d: Disk)
    requires GoodDisk(h, d)
    ensures var base := LoadTrieds(h, d, |d.trieds|);
            && base.news == EmptyTables(d).news && (forall id: nat :: id < |All(d)| <==> id in base.info)
            && (forall id :: id in base.info ==> base.info[id].refCount == 0)
            && EntriesLoaded(d, base.info, base.addr, base.random, |All(d)|) && TriedLoaded(h, d, base.tried, |d.trieds|)
            && base.idCount == |All(d)| && base.nNew == |d.news| && base.nTried == |d.trieds|
  {
    hide GoodBuckets, TriedLoaded, DistinctAddresses;
    LoadTriedsFacts(h, d, |d.trieds|);
    assert |All(d)| == |d.news| + |d.trieds|;
  }

  lemma NewsKept(base: Tables, t: Tables, news: seq<set<nat>>)
    requires Joining(base, t, news)
    ensures t.news == news
  {
  }

  lemma JoiningNone(d: Disk, base: Tables)
    requires base.news == EmptyTables(d).news
    requires forall id :: id in base.info ==> base.info[id].refCount == 0
    ensures Joining(base, base, base.news)
  {
    forall id | id in base.info
      ensures Occ(base.news, id) == 0
    {
      OccPositive(base.news, id);
    }
  }

  // ---------- a good file makes tables in agreement ----------

  /** Everything about the tables loaded from a good file. */
  ghost predicate WellLoaded(h: Hashes, d: Disk, t: Tables) {
    && EntriesLoaded(d, t.info, t.addr, t.random, |All(d)|) && TriedLoaded(h, d, t.tried, |d.trieds|)
    && t.news == BucketSets(d) && t.idCount == |All(d)| && t.nNew == |d.news| && t.nTried == |d.trieds|
    && forall id: nat :: id < |All(d)| ==> t.info[id].refCount == Occ(t.news, id)
  }

  lemma LoadedFacts(h: Hashes, d: Disk)
    requires GoodDisk(h, d)
    ensures |d.buckets| == NEW_BUCKET_COUNT && WellLoaded(h, d, Loaded(h, d))
  {
    hide GoodBuckets, TriedLoaded, Partial, Occ, EntriesLoaded, DistinctAddresses;
    GoodBucketsCount(d);
    BaseFacts(h, d);
    BucketsFacts(h, d, |d.buckets|);
    PartialFirst(d);
    JoinedEntries(d, LoadTrieds(h, d, |d.trieds|), Loaded(h, d), BucketSets(d));
  }

  lemma JoinedEntries(d: Disk, base: Tables, t: Tables, news: seq<set<nat>>)
    requires Joining(base, t, news) && EntriesLoaded(d, base.info, base.addr, base.random, |All(d)|)
    ensures EntriesLoaded(d, t.info, t.addr, t.random, |All(d)|)
    ensures t.news == news && forall id: nat :: id < |All(d)| ==> id in t.info && t.info[id].refCount == Occ(t.news, id)
  {
    hide Occ;
  }

  lemma LoadedRandom(h: Hashes, d: Disk, t: Tables)
    requires WellLoaded(h, d, t)
    ensures RandomOk(t.info, t.random)
  {
    hide TriedLoaded;
  }

  lemma LoadedAddr(h: Hashes, d: Disk, t: Tables)
    requires WellLoaded(h, d, t)
    ensures AddrOk(t.info, t.addr)
  {
    hide TriedLoaded;
  }

  lemma LoadedTried(h: Hashes, d: Disk, t: Tables)
    requires WellLoaded(h, d, t) && GoodDisk(h, d)
    ensures TriedOk(h, t.info, t.tried)
  {
    hide GoodBuckets, Occ, DistinctAddresses;
    forall b | 0 <= b < |t.tried|
      ensures |t.tried[b]| <= TRIED_BUCKET_SIZE && Distinct(t.tried[b])
    {
      assert BucketLoaded(h, d, t.tried[b], b, |d.trieds|);
    }
    forall id, b | id in t.info && 0 <= b < |t.tried|
      ensures id in t.tried[b] <==> t.info[id].inTried && TriedBucket(h, t.info[id]) == b
    {
      assert BucketLoaded(h, d, t.tried[b], b, |d.trieds|);
      assert id >= |d.news| ==> All(d)[id] == d.trieds[id - |d.news|];
      assert BelongsIn(h, d, id, b, |d.trieds|) <==> t.info[id].inTried && TriedBucket(h, t.info[id]) == b;
    }
    forall b, i | 0 <= b < |t.tried| && 0 <= i < |t.tried[b]|
      ensures t.tried[b][i] in t.info
    {
      assert BucketLoaded(h, d, t.tried[b], b, |d.trieds|);
      assert t.tried[b][i] in t.tried[b];
      assert BelongsIn(h, d, t.tried[b][i], b, |d.trieds|);
    }
  }

  lemma LoadedNew(h: Hashes, d: Disk, t: Tables)
    requires WellLoaded(h, d, t) && GoodDisk(h, d)
    ensures NewOk(t.info, t.news, None)
  {
    hide TriedLoaded, Occ, DistinctAddresses;
    forall b | 0 <= b < |t.news|
      ensures |t.news[b]| <= NEW_BUCKET_SIZE
    {
      CountedOnce(d.buckets[b], t.news[b]);
    }
    forall b, id | 0 <= b < |t.news| && id in t.news[b]
      ensures id < |d.news|
    {
      var i :| 0 <= i < |d.buckets[b]| && d.buckets[b][i] == id;
    }
  }

  lemma LoadedInfos(h: Hashes, d: Disk, t: Tables)
    requires WellLoaded(h, d, t) && GoodDisk(h, d)
    ensures InfosOk(t.info, t.idCount)
  {
    hide TriedLoaded, Occ, DistinctAddresses;
    forall id | id in t.info
      ensures id < t.idCount && InfoOk(t.info[id])
    {
      if id < |d.news| {
        assert All(d)[id] == d.news[id];
      } else {
        assert All(d)[id] == d.trieds[id - |d.news|];
        OccPositive(t.news, id);
        forall b | 0 <= b < |t.news|
          ensures id !in t.news[b]
        {
          assert forall i :: 0 <= i < |d.buckets[b]| ==> d.buckets[b][i] < |d.news|;
        }
      }
    }
  }

  /** The numbers from a to b. */
  lemma {:induction false} RangeSize(s: set<nat>, a: nat, b: nat)
    requires a <= b && forall x :: x in s <==> a <= x < b
    ensures |s| == b - a
  {
    if a == b {
      assert s == {};
    } else {
      RangeSize(s - {b - 1}, a, b - 1);
    }
  }

  lemma LoadedCounts(h: Hashes, d: Disk, t: Tables)
    requires WellLoaded(h, d, t)
    ensures CountsOk(t)
  {
    hide TriedLoaded, Occ;
    RangeSize(TriedIds(t.info), |d.news|, |All(d)|);
    RangeSize(NewIds(t.info), 0, |d.news|);
  }

  /** Loading a good file loses nothing and makes tables in agreement. */
  lemma LoadedIsGood(h: Hashes, d: Disk)
    requires GoodDisk(h, d)
    ensures |d.buckets| == NEW_BUCKET_COUNT && WellLoaded(h, d, Loaded(h, d)) && Check(h, Loaded(h, d), None)
  {
    hide WellLoaded, GoodDisk, RandomOk, AddrOk, TriedOk, NewOk, InfosOk, CountsOk;
    LoadedFacts(h, d);
    var t := Loaded(h, d);
    LoadedRandom(h, d, t);
    LoadedAddr(h, d, t);
    LoadedTried(h, d, t);
    LoadedNew(h, d, t);
    LoadedInfos(h, d, t);
    LoadedCounts(h, d, t);
  }

  // ---------- saving ----------

  /** The ids below n that are tried, or not, in increasing order. */
  function IdsBelow(info: map<nat, Info>, tried: bool, n: nat): seq<nat> {
    if n == 0 then []
    else if n - 1 in info && info[n - 1].inTried == tried then IdsBelow(info, tried, n - 1) + [n - 1]
    else IdsBelow(info, tried, n - 1)
  }

  lemma {:induction false} IdsBelowFacts(info: map<nat, Info>, tried: bool, n: nat)
    ensures var ids := IdsBelow(info, tried, n);
            && (forall i :: 0 <= i < |ids| ==> ids[i] < n && ids[i] in info && info[ids[i]].inTried == tried)
            && (forall id :: id in info && info[id].inTried == tried && id < n ==> id in ids)
            && Distinct(ids)
    decreases n
  {
    if n > 0 {
      IdsBelowFacts(info, tried, n - 1);
      var ids := IdsBelow(info, tried, n);
      assert n - 1 in info && info[n - 1].inTried == tried ==> ids[|ids| - 1] == n - 1;
    }
  }

  /** The ids below n come first among all of them. */
  lemma {:induction false} IdsBelowPrefix(info: map<nat, Info>, tried: bool, n: nat, m: nat)
    requires n <= m
    ensures IdsBelow(info, tried, n) <= IdsBelow(info, tried, m)
    decreases m
  {
    if n < m {
      IdsBelowPrefix(info, tried, n, m - 1);
    }
  }

  function NewOrder(t: Tables): seq<nat> {
    IdsBelow(t.info, false, t.idCount)
  }

  function TriedOrder(t: Tables): seq<nat> {
    IdsBelow(t.info, true, t.idCount)
  }

  /** The old ids in the order of the new ones. */
  function Order(t: Tables): seq<nat> {
    NewOrder(t) + TriedOrder(t)
  }

  function Records(info: map<nat, Info>, ids: seq<nat>): (r: seq<Record>)
    requires forall i :: 0 <= i < |ids| ==> ids[i] in info
    ensures |r| == |ids| && forall i :: 0 <= i < |ids| ==> r[i] == RecordOf(info[ids[i]])
  {
    seq(|ids|, i requires 0 <= i < |ids| => RecordOf(info[ids[i]]))
  }

  /** A file that tells of some tables: their entries, and their new buckets in any order. */
  ghost predicate SavedAs(t: Tables, d: Disk) {
    && (forall i :: 0 <= i < |NewOrder(t)| ==> NewOrder(t)[i] in t.info)
    && (forall i :: 0 <= i < |TriedOrder(t)| ==> TriedOrder(t)[i] in t.info)
    && d.news == Records(t.info, NewOrder(t)) && d.trieds == Records(t.info, TriedOrder(t))
    && |d.buckets| == |t.news|
    && forall b :: 0 <= b < |d.buckets| ==> BucketSaved(NewOrder(t), t.news[b], d.buckets[b])
  }

  /** A listing, without repetition, of the numbers of the entries in a bucket. */
  ghost predicate BucketSaved(order: seq<nat>, bucket: set<nat>, list: seq<nat>) {
    && Distinct(list)
    && (forall i :: 0 <= i < |list| ==> list[i] < |order| && order[list[i]] in bucket)
    && (forall n: nat :: n < |order| && order[n] in bucket ==> n in list)
  }

  /** The order lists every id once: first the new ones, then the tried ones. */
  lemma OrderFacts(h: Hashes, t: Tables)
    requires Check(h, t, None)
    ensures Distinct(Order(t)) && (forall id :: id in t.info <==> id in Order(t))
    ensures forall n :: 0 <= n < |Order(t)| ==>
              Order(t)[n] in t.info && t.info[Order(t)[n]].inTried == (n >= |NewOrder(t)|)
    ensures |NewOrder(t)| == t.nNew && |TriedOrder(t)| == t.nTried
  {
    hide RandomOk, AddrOk, TriedOk, NewOk, IdsBelow;
    var ns, ts := NewOrder(t), TriedOrder(t);
    IdsBelowFacts(t.info, false, t.idCount);
    IdsBelowFacts(t.info, true, t.idCount);
    hide InfosOk;
    InfosBelow(t.info, t.idCount);
    ListingsJoined(t.info, ns, ts);
    CountedOnce(ns, NewIds(t.info));
    CountedOnce(ts, TriedIds(t.info));
  }

  lemma InfosBelow(info: map<nat, Info>, idCount: nat)
    requires InfosOk(info, idCount)
    ensures forall id :: id in info ==> id < idCount
  {
  }

  /** Two listings of different kinds of ids make one listing. */
  lemma ListingsJoined(info: map<nat, Info>, ns: seq<nat>, ts: seq<nat>)
    requires Distinct(ns) && Distinct(ts)
    requires forall id :: id in ns <==> id in info && !info[id].inTried
    requires forall id :: id in ts <==> id in info && info[id].inTried
    ensures Distinct(ns + ts) && forall id :: id in info <==> id in ns + ts
    ensures forall n :: 0 <= n < |ns + ts| ==> (ns + ts)[n] in info && info[(ns + ts)[n]].inTried == (n >= |ns|)
  {
    var all := ns + ts;
    forall n | 0 <= n < |all|
      ensures all[n] in info && info[all[n]].inTried == (n >= |ns|)
    {
      if n < |ns| {
        assert all[n] in ns;
      } else {
        assert all[n] in ts;
      }
    }
  }

  lemma {:induction false} OccSame(a: seq<set<nat>>, x: nat, b: seq<set<nat>>, y: nat)
    requires |a| == |b| && forall c :: 0 <= c < |a| ==> (x in a[c] <==> y in b[c])
    ensures Occ(a, x) == Occ(b, y)
  {
    if a != [] {
      OccSame(a[..|a| - 1], x, b[..|b| - 1], y);
    }
  }

  lemma InBucketSet(order: seq<nat>, bucket: set<nat>, list: seq<nat>, n: nat)
    requires BucketSaved(order, bucket, list) && n < |order|
    ensures n in SetOf(list) <==> order[n] in bucket
  {
  }

  lemma BucketSize(order: seq<nat>, bucket: set<nat>, list: seq<nat>)
    requires BucketSaved(order, bucket, list) && Distinct(order)
    ensures |list| <= |bucket|
  {
    var ids := seq(|list|, i requires 0 <= i < |list| => order[list[i]]);
    assert Distinct(ids);
    CountedOnce(ids, SetOf(ids));
    Bounded(SetOf(ids), bucket);
  }

  lemma SavedBuckets(h: Hashes, t: Tables, d: Disk)
    requires Check(h, t, None) && SavedAs(t, d)
    ensures GoodBuckets(d)
    ensures forall n: nat :: n < |d.news| ==> Occ(BucketSets(d), n) == t.info[NewOrder(t)[n]].refCount
  {
    var ns := NewOrder(t);
    hide RandomOk, AddrOk, TriedOk, IdsBelow, BucketSaved, Occ, CountsOk;
    IdsBelowFacts(t.info, false, t.idCount);
    forall b | 0 <= b < |d.buckets|
      ensures |d.buckets[b]| <= NEW_BUCKET_SIZE && Distinct(d.buckets[b])
      ensures forall i :: 0 <= i < |d.buckets[b]| ==> d.buckets[b][i] < |d.news|
    {
      BucketSize(ns, t.news[b], d.buckets[b]);
      BucketMembers(ns, t.news[b], d.buckets[b]);
    }
    forall n: nat | n < |d.news|
      ensures Occ(BucketSets(d), n) == t.info[ns[n]].refCount
      ensures 1 <= Occ(BucketSets(d), n) <= NEW_BUCKETS_PER_ADDRESS
    {
      forall b | 0 <= b < |d.buckets|
        ensures n in BucketSets(d)[b] <==> ns[n] in t.news[b]
      {
        InBucketSet(ns, t.news[b], d.buckets[b], n);
      }
      OccSame(BucketSets(d), n, t.news, ns[n]);
      assert InfoOk(t.info[ns[n]]);
    }
  }

  lemma BucketMembers(order: seq<nat>, bucket: set<nat>, list: seq<nat>)
    requires BucketSaved(order, bucket, list)
    ensures Distinct(list) && forall i :: 0 <= i < |list| ==> list[i] < |order|
  {
  }

  lemma SavedAddresses(h: Hashes, t: Tables, d: Disk)
    requires Check(h, t, None) && SavedAs(t, d)
    ensures DistinctAddresses(All(d)) && |All(d)| == |Order(t)|
    ensures forall n :: 0 <= n < |All(d)| ==> Order(t)[n] in t.info && All(d)[n] == RecordOf(t.info[Order(t)[n]])
  {
    hide RandomOk, TriedOk, NewOk, InfosOk, IdsBelow, BucketSaved, CountsOk;
    OrderFacts(h, t);
    forall n | 0 <= n < |All(d)|
      ensures Order(t)[n] in t.info && All(d)[n] == RecordOf(t.info[Order(t)[n]])
    {
      if n < |d.news| {
        assert All(d)[n] == d.news[n] && Order(t)[n] == NewOrder(t)[n];
      } else {
        assert All(d)[n] == d.trieds[n - |d.news|] && Order(t)[n] == TriedOrder(t)[n - |d.news|];
      }
    }
    OneAddressEach(t.info, t.addr, Order(t), All(d));
  }

  lemma OneAddressEach(info: map<nat, Info>, addr: map<NetAddr, nat>, ids: seq<nat>, rs: seq<Record>)
    requires AddrOk(info, addr) && Distinct(ids) && |rs| == |ids|
    requires forall n :: 0 <= n < |ids| ==> ids[n] in info && rs[n] == RecordOf(info[ids[n]])
    ensures DistinctAddresses(rs)
  {
    forall i, j | 0 <= i < j < |rs|
      ensures rs[i].ip != rs[j].ip
    {
      assert ids[i] != ids[j] && addr[info[ids[i]].ip] == ids[i] && addr[info[ids[j]].ip] == ids[j];
    }
  }

  /** No more tried entries belong to a bucket than are in it. */
  lemma SavedTrieds(h: Hashes, t: Tables, d: Disk, k: nat)
    requires Check(h, t, None) && SavedAs(t, d) && k < TRIED_BUCKET_COUNT
    ensures CountIn(h, d.trieds, |d.trieds|, k) <= TRIED_BUCKET_SIZE
  {
    var ts := TriedOrder(t);
    IdsBelowFacts(t.info, true, t.idCount);
    CountIsSize(h, t.info, ts, d.trieds, |ts|, k);
    hide RandomOk, AddrOk, NewOk, InfosOk, IdsBelow;
    var ids := SetOf(t.tried[k]);
    CountedOnce(t.tried[k], ids);
    forall id | id in Belonging(h, t.info, ts, |ts|, k)
      ensures id in ids
    {
      assert id in t.tried[k];
    }
    Bounded(Belonging(h, t.info, ts, |ts|, k), ids);
  }

  function Belonging(h: Hashes, info: map<nat, Info>, ids: seq<nat>, n: nat, k: nat): set<nat>
    requires n <= |ids| && forall i :: 0 <= i < |ids| ==> ids[i] in info
  {
    set i | 0 <= i < n && TriedBucket(h, info[ids[i]]) == k :: ids[i]
  }

  lemma {:induction false} CountIsSize(h: Hashes, info: map<nat, Info>, ids: seq<nat>, rs: seq<Record>, n: nat, k: nat)
    requires n <= |ids| == |rs| && Distinct(ids)
    requires forall i :: 0 <= i < |ids| ==> ids[i] in info && rs[i] == RecordOf(info[ids[i]])
    ensures CountIn(h, rs, n, k) == |Belonging(h, info, ids, n, k)|
    decreases n
  {
    hide TriedBucket, Belonging;
    if n > 0 {
      CountIsSize(h, info, ids, rs, n - 1, k);
      SameBucket(h, info[ids[n - 1]], rs[n - 1]);
      BelongingStep(h, info, ids, n - 1, k);
    } else {
      BelongingNone(h, info, ids, k);
    }
  }

  lemma SameBucket(h: Hashes, i: Info, r: Record)
    requires r == RecordOf(i)
    ensures TriedBucket(h, InfoOf(r)) == TriedBucket(h, i)
  {
  }

  lemma BelongingNone(h: Hashes, info: map<nat, Info>, ids: seq<nat>, k: nat)
    requires forall i :: 0 <= i < |ids| ==> ids[i] in info
    ensures Belonging(h, info, ids, 0, k) == {}
  {
  }

  lemma BelongingStep(h: Hashes, info: map<nat, Info>, ids: seq<nat>, n: nat, k: nat)
    requires n < |ids| && Distinct(ids) && forall i :: 0 <= i < |ids| ==> ids[i] in info
    ensures |Belonging(h, info, ids, n + 1, k)|
            == |Belonging(h, info, ids, n, k)| + if TriedBucket(h, info[ids[n]]) == k then 1 else 0
  {
    hide TriedBucket;
    var fewer, more := Belonging(h, info, ids, n, k), Belonging(h, info, ids, n + 1, k);
    if TriedBucket(h, info[ids[n]]) == k {
      assert ids[n] !in fewer;
      assert more == fewer + {ids[n]};
    } else {
      assert more == fewer;
    }
  }

  /** What is saved of tables in agreement is a good file. */
  lemma SavedIsGood(h: Hashes, t: Tables, d: Disk)
    requires Check(h, t, None) && SavedAs(t, d)
    ensures GoodDisk(h, d)
  {
    SavedAddresses(h, t, d);
    SavedBuckets(h, t, d);
    forall k | 0 <= k < TRIED_BUCKET_COUNT
      ensures CountIn(h, d.trieds, |d.trieds|, k) <= TRIED_BUCKET_SIZE
    {
      SavedTrieds(h, t, d, k);
    }
    IdsBelowFacts(t.info, false, t.idCount);
    IdsBelowFacts(t.info, true, t.idCount);
    hide RandomOk, AddrOk, NewOk, TriedOk, IdsBelow, GoodBuckets, DistinctAddresses, CountsOk, CountIn;
    assert forall n :: 0 <= n < |d.news| ==> InfoOk(t.info[NewOrder(t)[n]]);
    assert forall n :: 0 <= n < |d.trieds| ==> InfoOk(t.info[TriedOrder(t)[n]]);
  }

  // ---------- there and back ----------

  /** The same entry, but for the place in the random order and the time of the last try, which is not written. */
  predicate SameButPlace(i: Info, j: Info) {
    j == i.(randomPos := j.randomPos, lastTry := 0)
  }

  /** Tables that are the same under new ids: the id n stands for order[n]. */
  ghost predicate Renamed(t: Tables, t': Tables, order: seq<nat>) {
    && Distinct(order) && (forall id :: id in t.info <==> id in order)
    && t'.idCount == |order| && t'.nNew == t.nNew && t'.nTried == t.nTried
    && (forall n: nat :: n in t'.info <==> n < |order|)
    && (forall n: nat :: n < |order| ==> order[n] in t.info && SameButPlace(t.info[order[n]], t'.info[n]))
    && |t'.news| == |t.news| && |t'.tried| == |t.tried|
    && (forall b, n: nat :: 0 <= b < |t.news| && n < |order| ==> (n in t'.news[b] <==> order[n] in t.news[b]))
    && (forall k, n: nat :: 0 <= k < |t.tried| && n < |order| ==> (n in t'.tried[k] <==> order[n] in t.tried[k]))
  }

  /** Saving and loading gives tables in agreement again, the same but for the ids: no entry and no membership is lost. */
  lemma RoundTrip(h: Hashes, t: Tables, d: Disk)
    requires Check(h, t, None) && SavedAs(t, d)
    ensures |d.buckets| == NEW_BUCKET_COUNT && Check(h, Loaded(h, d), None) && Renamed(t, Loaded(h, d), Order(t))
  {
    hide Check, SavedAs, GoodDisk, WellLoaded, Renamed, Loaded;
    SavedIsGood(h, t, d);
    LoadedIsGood(h, d);
    SavedIsRenamed(h, t, d, Loaded(h, d));
  }

  lemma SavedIsRenamed(h: Hashes, t: Tables, d: Disk, t': Tables)
    requires Check(h, t, None) && SavedAs(t, d) && WellLoaded(h, d, t') && Check(h, t', None)
    ensures Renamed(t, t', Order(t))
  {
    hide Check, SavedAs, GoodDisk, WellLoaded, BucketSaved;
    OrderFacts(h, t);
    EntriesRenamed(h, t, d, t');
    NewsRenamed(h, t, d, t');
    TriedRenamed(h, t, t', Order(t));
  }

  lemma EntriesRenamed(h: Hashes, t: Tables, d: Disk, t': Tables)
    requires Check(h, t, None) && SavedAs(t, d) && WellLoaded(h, d, t')
    ensures t'.idCount == |Order(t)| && t'.nNew == t.nNew && t'.nTried == t.nTried
    ensures forall n: nat :: n in t'.info <==> n < |Order(t)|
    ensures forall n: nat :: n < |Order(t)| ==> Order(t)[n] in t.info && SameButPlace(t.info[Order(t)[n]], t'.info[n])
  {
    SavedAddresses(h, t, d);
    OrderFacts(h, t);
    SavedBuckets(h, t, d);
    forall n: nat | n < |Order(t)|
      ensures SameButPlace(t.info[Order(t)[n]], t'.info[n])
    {
      RefCountRenamed(h, t, d, t', n);
      assert t'.info[n] == LoadedInfo(d, n).(refCount := t'.info[n].refCount);
    }
  }

  lemma RefCountRenamed(h: Hashes, t: Tables, d: Disk, t': Tables, n: nat)
    requires Check(h, t, None) && SavedAs(t, d) && WellLoaded(h, d, t') && n < |Order(t)|
    ensures Order(t)[n] in t.info && n in t'.info && t'.info[n].refCount == t.info[Order(t)[n]].refCount
  {
    hide RandomOk, AddrOk, TriedOk, NewOk, InfosOk, CountsOk, TriedLoaded, BucketSaved, IdsBelow, Occ;
    InfosAt(t.info, t.idCount, Order(t)[n]);
    SavedAddresses(h, t, d);
    OrderFacts(h, t);
    SavedBuckets(h, t, d);
    if n >= |d.news| {
      forall b | 0 <= b < |d.buckets|
        ensures n !in BucketSets(d)[b]
      {
        BucketMembers(NewOrder(t), t.news[b], d.buckets[b]);
      }
      OccPositive(BucketSets(d), n);
    } else {
      assert Order(t)[n] == NewOrder(t)[n];
    }
  }

  lemma NewsRenamed(h: Hashes, t: Tables, d: Disk, t': Tables)
    requires Check(h, t, None) && SavedAs(t, d) && WellLoaded(h, d, t')
    ensures |t'.news| == |t.news|
    ensures forall b, n: nat :: 0 <= b < |t.news| && n < |Order(t)| ==> (n in t'.news[b] <==> Order(t)[n] in t.news[b])
  {
    OrderFacts(h, t);
    forall b, n: nat | 0 <= b < |t.news| && n < |Order(t)|
      ensures n in t'.news[b] <==> Order(t)[n] in t.news[b]
    {
      if n < |NewOrder(t)| {
        InBucketSet(NewOrder(t), t.news[b], d.buckets[b], n);
      } else {
        BucketMembers(NewOrder(t), t.news[b], d.buckets[b]);
      }
    }
  }

  /** A tried entry is in the bucket its address says, before and after. */
  lemma TriedRenamed(h: Hashes, t: Tables, t': Tables, order: seq<nat>)
    requires Check(h, t, None) && Check(h, t', None)
    requires forall n: nat :: n in t'.info <==> n < |order|
    requires forall n: nat :: n < |order| ==> order[n] in t.info && SameButPlace(t.info[order[n]], t'.info[n])
    ensures |t'.tried| == |t.tried|
    ensures forall k, n: nat :: 0 <= k < |t.tried| && n < |order| ==> (n in t'.tried[k] <==> order[n] in t.tried[k])
  {
    forall k, n: nat | 0 <= k < |t.tried| && n < |order|
      ensures n in t'.tried[k] <==> order[n] in t.tried[k]
    {
      InItsBucket(h, t.info, t.tried, order[n], k);
      InItsBucket(h, t'.info, t'.tried, n, k);
    }
  }

  lemma InItsBucket(h: Hashes, info: map<nat, Info>, tried: seq<seq<nat>>, id: nat, k: nat)
    requires TriedOk(h, info, tried) && id in info && k < |tried|
    ensures id in tried[k] <==> info[id].inTried && TriedBucket(h, info[id]) == k
  {
  }
}
