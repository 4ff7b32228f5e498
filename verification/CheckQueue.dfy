/**
 The queue of script checks and the threads that work on it. Each critical section is one
 step, and so is the execution of a batch between two of them. Thread 0 is the master: it
 alone adds checks, and it joins the workers until all checks are done. A check is known by
 its outcome. Waiting workers may wake up at any time.
 */
module CheckQueue {
  import opened Common
  import Arith

  /** What the mutex protects. */
  datatype Shared = Shared(queue: seq<bool>, idle: int, total: int, allOk: bool, todo: int)

  /** Where a thread is between two critical sections. */
  datatype Phase =
    | Outside
    | Waiting(notified: bool)
    | Working(batch: seq<bool>, ok: bool)
    | Finished(now: nat, ok: bool)

  /** How a critical section is entered. */
  datatype Entry = First | AfterBatch(now: nat, ok: bool) | Woken

  /** How it is left. */
  datatype Outcome = Return(ok: bool) | Wait | Take(batch: seq<bool>, ok: bool)

  predicate AllTrue(checks: seq<bool>) {
    forall i :: 0 <= i < |checks| ==> checks[i]
  }

  // ---------- one critical section ----------

  function Entered(s: Shared, entry: Entry): Shared {
    match entry
    case First => s.(total := s.total + 1)
    case AfterBatch(now, ok) => s.(allOk := s.allOk && ok, todo := s.todo - now)
    case Woken => s.(idle := s.idle - 1)
  }

  /** Whether the section tells the master that the last check is done. */
  predicate Notifies(s: Shared, entry: Entry, master: bool) {
    entry.AfterBatch? && s.todo == entry.now && !master
  }

  function BatchLength(s: Shared, batchSize: nat): (r: nat)
    requires s.total + s.idle >= 0 && s.queue != []
    ensures 1 <= r <= |s.queue|
  {
    Arith.DivMono(1, s.total + s.idle + 1, |s.queue|);
    var share := |s.queue| / (s.total + s.idle + 1);
    var now := if batchSize < share then batchSize else share;
    if now < 1 then 1 else now
  }

  /** The largest batch within the limit and within a fair share of the queue, but at least one check. */
  lemma BatchLengthIsLargest(s: Shared, batchSize: nat)
    requires s.total + s.idle >= 0 && s.queue != []
    ensures var n := BatchLength(s, batchSize);
            && (n == 1 || (n <= batchSize && n * (s.total + s.idle + 1) <= |s.queue|))
            && (batchSize <= n || (n + 1) * (s.total + s.idle + 1) > |s.queue|)
  {
    var share := |s.queue| / (s.total + s.idle + 1);
    Arith.QuotientBounds(|s.queue|, s.total + s.idle + 1);
    LargestShare(|s.queue|, s.total + s.idle + 1, batchSize, share, BatchLength(s, batchSize));
  }

  lemma LargestShare(queued: nat, threads: nat, limit: nat, share: nat, n: nat)
    requires share * threads <= queued < share * threads + threads
    requires n == 1 || n == limit || n == share
    requires (n <= limit && n <= share) || n == 1
    requires limit <= n || share <= n
    ensures n == 1 || (n <= limit && n * threads <= queued)
    ensures limit <= n || (n + 1) * threads > queued
  {
    if n <= share {
      Arith.MulGe(n, share, threads);
    } else {
      Arith.MulGe(share + 1, n + 1, threads);
    }
  }

  /** Jobs are taken from the back of the queue, the last one first. */
  function Reversed(checks: seq<bool>): (r: seq<bool>)
    ensures |r| == |checks|
  {
    if checks == [] then [] else [checks[|checks| - 1]] + Reversed(checks[..|checks| - 1])
  }

  function Left(s: Shared, master: bool, quit: bool, batchSize: nat): (Shared, Outcome)
    requires s.total + s.idle >= 0
  {
    if s.queue == [] then
      if (master || quit) && s.todo == 0 then
        (s.(total := s.total - 1, allOk := master || s.allOk), Return(s.allOk))
      else
        (s.(idle := s.idle + 1), Wait)
    else
      var keep := |s.queue| - BatchLength(s, batchSize);
      (s.(queue := s.queue[..keep]), Take(Reversed(s.queue[keep..]), s.allOk))
  }

  class CheckQueue {
    var queue: seq<bool>
    var idle: int
    var total: int
    var allOk: bool
    var todo: int
    const quit: bool
    const batchSize: nat

    function State(): Shared
      reads this
    {
      Shared(queue, idle, total, allOk, todo)
    }

    constructor (batchSize: nat)
      ensures State() == Shared([], 0, 0, true, 0) && this.batchSize == batchSize && !quit
    {
      queue, idle, total, allOk, todo := [], 0, 0, true, 0;
      quit, this.batchSize := false, batchSize;
    }

    method Add(checks: seq<bool>)
      modifies this
      ensures State() == old(State()).(queue := old(queue) + checks, todo := old(todo) + |checks|)
    {
      for i := 0 to |checks|
        invariant State() == old(State()).(queue := old(queue) + checks[..i])
      {
        queue := queue + [checks[i]];
      }
      assert checks[..|checks|] == checks;
      todo := todo + |checks|;
    }

    /** How many checks to process next. */
    method NextBatch() returns (now: nat)
      requires total + idle >= 0 && queue != []
      ensures now == BatchLength(State(), batchSize)
    {
      var share := |queue| / (total + idle + 1);
      now := if batchSize < share then batchSize else share;
      now := if now < 1 then 1 else now;
    }

    /** From taking the lock to waiting, returning, or leaving with a batch of work. */
    method Section(master: bool, entry: Entry) returns (outcome: Outcome, notify: bool)
      requires Entered(State(), entry).total + Entered(State(), entry).idle >= 0
      modifies this
      ensures (State(), outcome) == Left(Entered(old(State()), entry), master, quit, batchSize)
      ensures notify == Notifies(old(State()), entry, master)
    {
      hide BatchLength;
      notify := false;
      match entry {
        case AfterBatch(now, ok) =>
          allOk := allOk && ok;
          todo := todo - now;
          if todo == 0 && !master {
            notify := true;
          }
        case First =>
          total := total + 1;
        case Woken =>
          idle := idle - 1;
      }
      if queue == [] {
        if (master || quit) && todo == 0 {
          total := total - 1;
          var result := allOk;
          if master {
            allOk := true;
          }
          return Return(result), notify;
        }
        idle := idle + 1;
        return Wait, notify;
      }
      var now := NextBatch();
      var batch := TakeBatch(now);
      outcome := Take(batch, allOk);
    }

    method TakeBatch(now: nat) returns (batch: seq<bool>)
      requires now <= |queue|
      modifies this`queue
      ensures queue == old(queue)[..|old(queue)| - now]
      ensures batch == Reversed(old(queue)[|old(queue)| - now..])
    {
      batch := [];
      for i := 0 to now
        invariant queue == old(queue)[..|old(queue)| - i]
        invariant batch == Reversed(old(queue)[|old(queue)| - i..])
      {
        assert old(queue)[|old(queue)| - i - 1..] == [queue[|queue| - 1]] + old(queue)[|old(queue)| - i..];
        ReversedCons(queue[|queue| - 1], old(queue)[|old(queue)| - i..]);
        batch := batch + [queue[|queue| - 1]];
        queue := queue[..|queue| - 1];
      }
    }
  }

  lemma {:induction false} ReversedCons(x: bool, s: seq<bool>)
    ensures Reversed([x] + s) == Reversed(s) + [x]
  {
    var xs := [x] + s;
    if s == [] {
      assert xs[..0] == [];
    } else {
      assert xs[..|xs| - 1] == [x] + s[..|s| - 1];
      ReversedCons(x, s[..|s| - 1]);
    }
  }

  lemma {:induction false} ReversedAllTrue(s: seq<bool>)
    ensures AllTrue(Reversed(s)) <==> AllTrue(s)
  {
    if s != [] {
      var k := |s| - 1;
      ReversedAllTrue(s[..k]);
      AllTrueJoin([s[k]], Reversed(s[..k]));
      AllTrueJoin(s[..k], [s[k]]);
      assert s[..k] + [s[k]] == s;
    }
  }

  lemma AllTrueJoin(a: seq<bool>, b: seq<bool>)
    ensures AllTrue(a + b) <==> AllTrue(a) && AllTrue(b)
  {
    if AllTrue(a + b) {
      assert forall i :: 0 <= i < |a| ==> a[i] == (a + b)[i];
      assert forall i :: 0 <= i < |b| ==> b[i] == (a + b)[|a| + i];
    }
  }
}
