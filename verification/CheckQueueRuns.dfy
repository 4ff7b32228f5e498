/**
 Runs of the check queue: any number of threads, and their steps in any order. The
 invariant says what the counters count and what the result so far stands for.
 */
module CheckQueueRuns {
  import opened Common
  import opened CheckQueue

  /** `added` is the history of the checks added since the master last returned. */
  datatype System = System(shared: Shared, threads: seq<Phase>, added: seq<bool>, quit: bool, batchSize: nat)

  datatype Step = AddChecks(checks: seq<bool>) | Enter(t: nat) | Resume(t: nat) | Execute(t: nat)

  // ---------- counting over threads ----------

  /** Checks a thread has taken and not yet reported. */
  function Load(p: Phase): nat {
    if p.Working? then |p.batch| else if p.Finished? then p.now else 0
  }

  function Inside(p: Phase): nat {
    if p.Outside? then 0 else 1
  }

  function Asleep(p: Phase): nat {
    if p.Waiting? then 1 else 0
  }

  function Holding(p: Phase): nat {
    if p.Working? || p.Finished? then 1 else 0
  }

  /** Progress still to be made by a thread: to execute, to report, or to wake up when told to. */
  function Weight(p: Phase): nat {
    match p
    case Outside => 0
    case Waiting(notified) => if notified then 1 else 0
    case Working(batch, ok) => 3 * |batch|
    case Finished(now, ok) => 2 * now
  }

  function Sum(threads: seq<Phase>, f: Phase -> nat): nat {
    if threads == [] then 0 else Sum(threads[..|threads| - 1], f) + f(threads[|threads| - 1])
  }

  lemma {:induction false} SumUpdate(threads: seq<Phase>, f: Phase -> nat, t: nat, p: Phase)
    requires t < |threads|
    ensures Sum(threads[t := p], f) == Sum(threads, f) - f(threads[t]) + f(p)
    ensures Sum(threads, f) >= f(threads[t])
  {
    var k := |threads| - 1;
    if t < k {
      SumUpdate(threads[..k], f, t, p);
      assert threads[t := p][..k] == threads[..k][t := p];
    } else {
      assert threads[t := p][..k] == threads[..k];
    }
  }

  lemma {:induction false} SumZero(threads: seq<Phase>, f: Phase -> nat)
    ensures Sum(threads, f) == 0 <==> forall t :: 0 <= t < |threads| ==> f(threads[t]) == 0
  {
    if threads != [] {
      SumZero(threads[..|threads| - 1], f);
    }
  }

  lemma {:induction false} InsideIsAsleepOrHolding(threads: seq<Phase>)
    ensures Sum(threads, Inside) == Sum(threads, Asleep) + Sum(threads, Holding)
  {
    if threads != [] {
      InsideIsAsleepOrHolding(threads[..|threads| - 1]);
    }
  }

  // ---------- the invariant ----------

  /** Will everything a thread holds turn out well? */
  predicate PendingOk(p: Phase) {
    match p
    case Working(batch, ok) => ok && AllTrue(batch)
    case Finished(now, ok) => ok
    case _ => true
  }

  predicate AllPendingOk(threads: seq<Phase>) {
    forall t :: 0 <= t < |threads| ==> PendingOk(threads[t])
  }

  ghost predicate Inv(s: System) {
    && s.threads != []
    && s.shared.todo == |s.shared.queue| + Sum(s.threads, Load)
    && s.shared.idle == Sum(s.threads, Asleep)
    && s.shared.total == Sum(s.threads, Inside)
    && (AllTrue(s.added) <==> s.shared.allOk && AllTrue(s.shared.queue) && AllPendingOk(s.threads))
    && s.shared.todo <= |s.added|
    && (forall t :: 0 <= t < |s.threads| && Holding(s.threads[t]) == 1 ==> Load(s.threads[t]) > 0)
    && (s.threads[0] == Waiting(false) ==> s.shared.queue == [] && s.shared.todo > 0)
  }

  // ---------- steps ----------

  /** Only the master adds checks, and only before it waits for them. */
  predicate Enabled(s: System, step: Step) {
    match step
    case AddChecks(checks) => s.threads != [] && s.threads[0].Outside?
    case Enter(t) => t < |s.threads| && s.threads[t].Outside?
    case Resume(t) => t < |s.threads| && (s.threads[t].Waiting? || s.threads[t].Finished?)
    case Execute(t) => t < |s.threads| && s.threads[t].Working?
  }

  function EntryOf(p: Phase): Entry {
    match p
    case Waiting(_) => Woken
    case Finished(now, ok) => AfterBatch(now, ok)
    case _ => First
  }

  function PhaseAfter(outcome: Outcome): Phase {
    match outcome
    case Return(_) => Outside
    case Wait => Waiting(false)
    case Take(batch, ok) => Working(batch, ok)
  }

  /** Wakes the master if it is told to and is waiting. */
  function Notify(threads: seq<Phase>, notify: bool): seq<Phase> {
    if notify && threads != [] && threads[0].Waiting? then threads[0 := Waiting(true)] else threads
  }

  lemma CountersCover(s: System, t: nat)
    requires Inv(s) && t < |s.threads| && !s.threads[t].Working?
    ensures Entered(s.shared, EntryOf(s.threads[t])).total >= 0 && Entered(s.shared, EntryOf(s.threads[t])).idle >= 0
  {
    SumUpdate(s.threads, Asleep, t, Outside);
  }

  /** A critical section of thread t, with what it returns if it returns. */
  function Section(s: System, t: nat): (System, Outcome)
    requires Inv(s) && t < |s.threads| && !s.threads[t].Working?
  {
    CountersCover(s, t);
    var entry := EntryOf(s.threads[t]);
    var (shared, outcome) := Left(Entered(s.shared, entry), t == 0, s.quit, s.batchSize);
    var threads := Notify(s.threads, Notifies(s.shared, entry, t == 0))[t := PhaseAfter(outcome)];
    (s.(shared := shared, threads := threads, added := if t == 0 && outcome.Return? then [] else s.added), outcome)
  }

  /** Checks after the first failed one are skipped, which does not change the outcome. */
  function Apply(s: System, step: Step): System
    requires Inv(s) && Enabled(s, step)
  {
    match step
    case AddChecks(checks) =>
      s.(shared := s.shared.(queue := s.shared.queue + checks, todo := s.shared.todo + |checks|), added := s.added + checks)
    case Enter(t) => Section(s, t).0
    case Resume(t) => Section(s, t).0
    case Execute(t) =>
      var p := s.threads[t];
      s.(threads := s.threads[t := Finished(|p.batch|, p.ok && AllTrue(p.batch))])
  }

  /** Runs a batch one check after the other, until one fails. */
  method ExecuteBatch(batch: seq<bool>, start: bool) returns (ok: bool)
    ensures ok == (start && AllTrue(batch))
  {
    ok := start;
    for i := 0 to |batch|
      invariant ok == (start && AllTrue(batch[..i]))
    {
      AllTrueJoin(batch[..i], [batch[i]]);
      assert batch[..i + 1] == batch[..i] + [batch[i]];
      if ok {
        ok := batch[i];
      }
    }
    assert batch[..|batch|] == batch;
  }

  // ---------- every step keeps the invariant ----------

  lemma AddKeeps(s: System, checks: seq<bool>)
    requires Inv(s) && Enabled(s, AddChecks(checks))
    ensures Inv(Apply(s, AddChecks(checks)))
  {
    AllTrueJoin(s.shared.queue, checks);
    AllTrueJoin(s.added, checks);
  }

  lemma PendingUpdate(threads: seq<Phase>, t: nat, p: Phase)
    requires t < |threads| && PendingOk(p) == PendingOk(threads[t])
    ensures AllPendingOk(threads[t := p]) == AllPendingOk(threads)
  {
    if AllPendingOk(threads[t := p]) {
      forall u | 0 <= u < |threads| ensures PendingOk(threads[u]) {
        assert PendingOk(threads[t := p][u]);
      }
    }
  }

  lemma ExecuteKeeps(s: System, t: nat)
    requires Inv(s) && Enabled(s, Execute(t))
    ensures Inv(Apply(s, Execute(t)))
  {
    var p := Apply(s, Execute(t)).threads[t];
    SumUpdate(s.threads, Load, t, p);
    SumUpdate(s.threads, Asleep, t, p);
    SumUpdate(s.threads, Inside, t, p);
    PendingUpdate(s.threads, t, p);
  }

  /** Telling the master changes none of the counts. */
  lemma NotifyKeeps(threads: seq<Phase>, notify: bool)
    requires threads != []
    ensures |Notify(threads, notify)| == |threads|
    ensures Sum(Notify(threads, notify), Load) == Sum(threads, Load)
    ensures Sum(Notify(threads, notify), Asleep) == Sum(threads, Asleep)
    ensures Sum(Notify(threads, notify), Inside) == Sum(threads, Inside)
    ensures Sum(Notify(threads, notify), Weight) <= Sum(threads, Weight) + if notify then 1 else 0
    ensures forall t :: 0 <= t < |threads| ==> PendingOk(Notify(threads, notify)[t]) == PendingOk(threads[t])
    ensures forall t :: 0 <= t < |threads| ==> Load(Notify(threads, notify)[t]) == Load(threads[t])
    ensures forall t :: 0 <= t < |threads| ==> Holding(Notify(threads, notify)[t]) == Holding(threads[t])
  {
    if notify && threads[0].Waiting? {
      SumUpdate(threads, Load, 0, Waiting(true));
      SumUpdate(threads, Asleep, 0, Waiting(true));
      SumUpdate(threads, Inside, 0, Waiting(true));
      SumUpdate(threads, Weight, 0, Waiting(true));
    }
  }

  /** The parts of a critical section: the queue splits into what is kept and the batch taken. */
  lemma LeftFacts(e: Shared, master: bool, quit: bool, batchSize: nat)
    requires e.total + e.idle >= 0
    ensures var (s, outcome) := Left(e, master, quit, batchSize);
            && (outcome.Return? ==> e.queue == [] && e.todo == 0 && s == e.(total := e.total - 1, allOk := master || e.allOk)
                                    && outcome.ok == e.allOk)
            && (outcome.Wait? ==> e.queue == [] && s == e.(idle := e.idle + 1) && (master ==> e.todo != 0))
            && (outcome.Take? ==>
                  && s == e.(queue := s.queue)
                  && outcome.ok == e.allOk && |outcome.batch| > 0
                  && |s.queue| + |outcome.batch| == |e.queue|
                  && (AllTrue(e.queue) <==> AllTrue(s.queue) && AllTrue(outcome.batch)))
  {
    var (s, outcome) := Left(e, master, quit, batchSize);
    if outcome.Take? {
      var keep := |s.queue|;
      assert e.queue == e.queue[..keep] + e.queue[keep..];
      AllTrueJoin(e.queue[..keep], e.queue[keep..]);
      ReversedAllTrue(e.queue[keep..]);
    }
  }

  /** The counters after a section of thread t. */
  lemma SectionCounts(s: System, t: nat)
    requires Inv(s) && t < |s.threads| && !s.threads[t].Working?
    ensures var s' := Section(s, t).0;
            && |s'.threads| == |s.threads|
            && s'.shared.todo == |s'.shared.queue| + Sum(s'.threads, Load)
            && s'.shared.idle == Sum(s'.threads, Asleep)
            && s'.shared.total == Sum(s'.threads, Inside)
            && (forall u :: 0 <= u < |s'.threads| && Holding(s'.threads[u]) == 1 ==> Load(s'.threads[u]) > 0)
  {
    hide AllTrue, AllPendingOk, Left, Notify;
    CountersCover(s, t);
    var entry := EntryOf(s.threads[t]);
    var notify := Notifies(s.shared, entry, t == 0);
    var e := Entered(s.shared, entry);
    var (s', outcome) := Section(s, t);
    var told := Notify(s.threads, notify);
    NotifyKeeps(s.threads, notify);
    LeftFacts(e, t == 0, s.quit, s.batchSize);
    var p := PhaseAfter(outcome);
    SumUpdate(told, Load, t, p);
    SumUpdate(told, Asleep, t, p);
    SumUpdate(told, Inside, t, p);
    NotifyShape(s.threads, notify, t);
  }

  lemma NoneIsTrue()
    ensures AllTrue([])
  {
  }

  lemma NotifyShape(threads: seq<Phase>, notify: bool, t: nat)
    requires t < |threads| && (notify ==> t != 0)
    ensures Notify(threads, notify)[t] == threads[t]
    ensures Notify(threads, notify)[0] == Waiting(false) ==> threads[0] == Waiting(false) && !notify
  {
  }

  ghost predicate OthersOk(threads: seq<Phase>, t: nat) {
    forall u :: 0 <= u < |threads| && u != t ==> PendingOk(threads[u])
  }

  lemma PendingSplit(threads: seq<Phase>, notify: bool, t: nat, p: Phase)
    requires t < |threads|
    ensures |Notify(threads, notify)| == |threads|
    ensures AllPendingOk(threads) <==> OthersOk(threads, t) && PendingOk(threads[t])
    ensures AllPendingOk(Notify(threads, notify)[t := p]) <==> OthersOk(threads, t) && PendingOk(p)
  {
    NotifyKeeps(threads, notify);
    var told := Notify(threads, notify);
    if AllPendingOk(told[t := p]) {
      forall u | 0 <= u < |threads| && u != t ensures PendingOk(threads[u]) {
        assert PendingOk(told[t := p][u]);
      }
      assert PendingOk(told[t := p][t]);
    }
  }

  /** With nothing left to do, no thread holds anything. */
  lemma NothingHeld(s: System)
    requires Inv(s) && s.shared.todo == 0
    ensures s.shared.queue == [] && Sum(s.threads, Holding) == 0 && AllPendingOk(s.threads)
  {
    SumZero(s.threads, Load);
    forall t | 0 <= t < |s.threads| ensures Holding(s.threads[t]) == 0 {
      assert Load(s.threads[t]) == 0;
    }
    SumZero(s.threads, Holding);
  }

  /** When thread t reports the last checks, no other thread holds anything. */
  lemma NothingElseHeld(s: System, t: nat)
    requires Inv(s) && t < |s.threads| && s.shared.todo == Load(s.threads[t])
    ensures OthersOk(s.threads, t) && s.shared.queue == []
  {
    hide AllTrue, AllPendingOk;
    SumUpdate(s.threads, Load, t, Outside);
    var others := s.threads[t := Outside];
    SumZero(others, Load);
    forall u | 0 <= u < |s.threads| && u != t ensures PendingOk(s.threads[u]) {
      assert Load(others[u]) == 0 && others[u] == s.threads[u];
    }
  }

  /** The result so far, the queue and what threads hold stand for all checks added. */
  lemma SectionOutcome(s: System, t: nat)
    requires Inv(s) && t < |s.threads| && !s.threads[t].Working?
    ensures var s' := Section(s, t).0;
            AllTrue(s'.added) <==> s'.shared.allOk && AllTrue(s'.shared.queue) && AllPendingOk(s'.threads)
    ensures var (s', outcome) := Section(s, t);
            t == 0 && outcome.Return? ==> outcome.ok == AllTrue(s.added)
  {
    hide AllTrue, AllPendingOk, Left, Notify, OthersOk, Sum;
    CountersCover(s, t);
    var entry := EntryOf(s.threads[t]);
    var notify := Notifies(s.shared, entry, t == 0);
    var e := Entered(s.shared, entry);
    var (s', outcome) := Section(s, t);
    LeftFacts(e, t == 0, s.quit, s.batchSize);
    PendingSplit(s.threads, notify, t, PhaseAfter(outcome));
    assert e.allOk == (s.shared.allOk && PendingOk(s.threads[t]));
    if t == 0 && outcome.Return? {
      NothingElseHeld(s, t);
      NoneIsTrue();
    }
  }

  lemma SectionMaster(s: System, t: nat)
    requires Inv(s) && t < |s.threads| && !s.threads[t].Working?
    ensures var s' := Section(s, t).0;
            && s'.threads != []
            && s'.shared.todo <= |s'.added|
            && (s'.threads[0] == Waiting(false) ==> s'.shared.queue == [] && s'.shared.todo > 0)
  {
    hide AllTrue, AllPendingOk, Left, Notify, Sum;
    CountersCover(s, t);
    var entry := EntryOf(s.threads[t]);
    var notify := Notifies(s.shared, entry, t == 0);
    LeftFacts(Entered(s.shared, entry), t == 0, s.quit, s.batchSize);
    NotifyKeeps(s.threads, notify);
    NotifyShape(s.threads, notify, t);
    SumUpdate(s.threads, Load, t, Outside);
  }

  lemma StepKeeps(s: System, step: Step)
    requires Inv(s) && Enabled(s, step)
    ensures Inv(Apply(s, step))
  {
    hide AllTrue, AllPendingOk, Section, Sum;
    match step {
      case AddChecks(checks) => AddKeeps(s, checks);
      case Execute(t) => ExecuteKeeps(s, t);
      case Enter(t) => SectionCounts(s, t); SectionOutcome(s, t); SectionMaster(s, t);
      case Resume(t) => SectionCounts(s, t); SectionOutcome(s, t); SectionMaster(s, t);
    }
  }

  // ---------- whole runs ----------

  function Start(threads: nat, quit: bool, batchSize: nat): System {
    System(Shared([], 0, 0, true, 0), seq(threads + 1, _ => Outside), [], quit, batchSize)
  }

  lemma {:induction false} AllOutside(n: nat, f: Phase -> nat)
    requires f(Outside) == 0
    ensures Sum(seq(n, _ => Outside), f) == 0
  {
    SumZero(seq(n, _ => Outside), f);
  }

  lemma StartIsGood(threads: nat, quit: bool, batchSize: nat)
    ensures Inv(Start(threads, quit, batchSize))
  {
    AllOutside(threads + 1, Load);
    AllOutside(threads + 1, Asleep);
    AllOutside(threads + 1, Inside);
  }

  /** A run of any steps that are enabled when their turn comes; the invariant holds after each. */
  function Run(s: System, steps: seq<Step>): (r: Option<System>)
    requires Inv(s)
    ensures r.Some? ==> Inv(r.value)
    decreases |steps|
  {
    if steps == [] then
      Some(s)
    else if !Enabled(s, steps[0]) then
      None
    else
      StepKeeps(s, steps[0]);
      Run(Apply(s, steps[0]), steps[1..])
  }

  /**
   In every reachable state, what is to do is what is queued or held, and the threads that
   are neither outside nor asleep are those that hold something.
   */
  lemma CountersInEveryRun(threads: nat, quit: bool, batchSize: nat, steps: seq<Step>)
    ensures Inv(Start(threads, quit, batchSize))
    ensures var r := Run(Start(threads, quit, batchSize), steps);
            r.Some? ==> var s := r.value;
                        && s.shared.todo == |s.shared.queue| + Sum(s.threads, Load)
                        && s.shared.total - s.shared.idle == Sum(s.threads, Holding)
  {
    StartIsGood(threads, quit, batchSize);
    var r := Run(Start(threads, quit, batchSize), steps);
    if r.Some? {
      InsideIsAsleepOrHolding(r.value.threads);
    }
  }

  /**
   When the master's wait returns, it says whether all checks added were true, and it leaves
   the queue as the next control object wants it.
   */
  lemma WaitReturns(s: System)
    requires Inv(s) && !s.threads[0].Working? && Section(s, 0).1.Return?
    ensures var (s', outcome) := Section(s, 0);
            && outcome.ok == AllTrue(s.added)
            && s'.added == [] && s'.threads[0].Outside?
            && s'.shared.queue == [] && s'.shared.todo == 0 && s'.shared.allOk
            && s'.shared.total == s'.shared.idle
  {
    hide AllTrue, AllPendingOk, Section, Sum;
    SectionCounts(s, 0);
    SectionOutcome(s, 0);
    SectionMaster(s, 0);
    NoneIsTrue();
    var s' := Section(s, 0).0;
    MasterLeft(s);
    NothingHeld(s');
    InsideIsAsleepOrHolding(s'.threads);
  }

  lemma MasterLeft(s: System)
    requires Inv(s) && !s.threads[0].Working? && Section(s, 0).1.Return?
    ensures var s' := Section(s, 0).0;
            s'.added == [] && s'.threads[0].Outside? && s'.shared.queue == [] && s'.shared.todo == 0
  {
    hide AllTrue, AllPendingOk, Left, Sum;
    CountersCover(s, 0);
    LeftFacts(Entered(s.shared, EntryOf(s.threads[0])), true, s.quit, s.batchSize);
  }

  /** Until checks are added, the state stays as a new control object asserts it. */
  lemma ReadyForControl(s: System)
    requires Inv(s) && s.threads[0].Outside? && s.added == []
    ensures s.shared.total == s.shared.idle && s.shared.todo == 0 && s.shared.allOk
  {
    SumZero(s.threads, Load);
    NothingHeld(s);
    InsideIsAsleepOrHolding(s.threads);
  }

  /** While the master sleeps and has not been told to wake up, some worker holds checks to report. */
  lemma MasterIsNotForgotten(s: System)
    requires Inv(s) && s.threads[0] == Waiting(false)
    ensures exists t :: 0 < t < |s.threads| && (s.threads[t].Working? || s.threads[t].Finished?)
  {
    SumZero(s.threads, Load);
    var t :| 0 <= t < |s.threads| && Load(s.threads[t]) != 0;
  }

  // ---------- progress ----------

  /** A step that work is waiting for, rather than a thread joining in or waking up for nothing. */
  predicate Productive(s: System, step: Step) {
    match step
    case Execute(t) => true
    case Resume(t) => t < |s.threads| && (s.threads[t].Finished? || s.threads[t] == Waiting(true))
    case _ => false
  }

  function Measure(s: System): nat {
    4 * |s.shared.queue| + Sum(s.threads, Weight)
  }

  /** While the master is inside, some productive step is enabled. */
  lemma SomethingToDo(s: System) returns (step: Step)
    requires Inv(s) && !s.threads[0].Outside?
    ensures Enabled(s, step) && Productive(s, step)
  {
    var t := 0;
    if s.threads[0] == Waiting(false) {
      MasterIsNotForgotten(s);
      t :| 0 < t < |s.threads| && (s.threads[t].Working? || s.threads[t].Finished?);
    }
    step := if s.threads[t].Working? then Execute(t) else Resume(t);
  }

  /**
   No step but adding checks increases the measure, and every productive one decreases it:
   the master's wait ends after finitely many productive steps.
   */
  lemma MeasureDecreases(s: System, step: Step)
    requires Inv(s) && Enabled(s, step) && !step.AddChecks?
    ensures Measure(Apply(s, step)) <= Measure(s)
    ensures Productive(s, step) ==> Measure(Apply(s, step)) < Measure(s)
  {
    match step {
      case Execute(t) => SumUpdate(s.threads, Weight, t, Apply(s, step).threads[t]);
      case Enter(t) => SectionMeasure(s, t);
      case Resume(t) => SectionMeasure(s, t);
    }
  }

  lemma SectionMeasure(s: System, t: nat)
    requires Inv(s) && t < |s.threads| && !s.threads[t].Working?
    ensures Measure(Section(s, t).0) <= Measure(s)
    ensures s.threads[t].Finished? || s.threads[t] == Waiting(true) ==> Measure(Section(s, t).0) < Measure(s)
  {
    hide AllTrue, AllPendingOk, Left, Notify;
    CountersCover(s, t);
    var entry := EntryOf(s.threads[t]);
    var notify := Notifies(s.shared, entry, t == 0);
    LeftFacts(Entered(s.shared, entry), t == 0, s.quit, s.batchSize);
    NotifyKeeps(s.threads, notify);
    NotifyShape(s.threads, notify, t);
    SumUpdate(Notify(s.threads, notify), Weight, t, PhaseAfter(Section(s, t).1));
  }
}
