/**
 * The verification queue of src/checkqueue.h as an interleaved transition system: a master
 * and any number of workers, one step per critical section. A batch is executed between two
 * critical sections of its thread and touches no shared state.
 */
module CheckQueue {
  import opened Foundations
  import opened Arith

  /** A verification; `ok` is what calling it returns. */
  datatype Check = Check(id: nat, ok: bool)

  const MASTER: nat := 0

  /** Where a thread is: not in Loop, waiting on its condition variable, waiting for the mutex
      after a wake-up, or holding a batch that it has not reported yet. */
  datatype Thread = Outside | Sleeping | Woken | Working(batch: seq<Check>, fOk: bool)

  datatype State = State(queue: seq<Check>, nIdle: int, nTotal: int, fAllOk: bool, nTodo: int,
                         threads: map<nat, Thread>)

  datatype Step =
    | Add(checks: seq<Check>, notified: Option<nat>)
    | Enter(t: nat)
    | Resume(t: nat)
    | Finish(t: nat)
    | Spurious(t: nat)

  ghost predicate AllOk(checks: seq<Check>) {
    forall i :: 0 <= i < |checks| ==> checks[i].ok
  }

  /** Executing a batch: once a check has failed the others are skipped. */
  function Execute(fOk: bool, batch: seq<Check>): bool
    decreases |batch|
  {
    if batch == [] then fOk else Execute(if fOk then batch[0].ok else fOk, batch[1..])
  }

  lemma {:induction false} ExecuteIsConjunction(fOk: bool, batch: seq<Check>)
    ensures Execute(fOk, batch) <==> fOk && AllOk(batch)
    decreases |batch|
  {
    if batch != [] {
      ExecuteIsConjunction(if fOk then batch[0].ok else fOk, batch[1..]);
      assert AllOk(batch) <==> batch[0].ok && AllOk(batch[1..]) by {
        forall i | 0 <= i < |batch| ensures batch[i] == if i == 0 then batch[0] else batch[1..][i - 1] {}
        forall i | 0 <= i < |batch| - 1 ensures batch[1..][i] == batch[i + 1] {}
      }
    }
  }

  // ------------------------------------------------------------------
  // Steps
  // ------------------------------------------------------------------

  /** How many checks a thread takes: a fair share, but at least one and at most nBatchSize. */
  function BatchCount(s: State, nBatchSize: nat): (n: nat)
    requires s.nTotal + s.nIdle + 1 > 0 && s.queue != []
    ensures 1 <= n <= |s.queue|
  {
    var share := |s.queue| / (s.nTotal + s.nIdle + 1);
    QuotientFits(|s.queue|, s.nTotal + s.nIdle + 1);
    var capped := if nBatchSize < share then nBatchSize else share;
    if capped < 1 then 1 else capped
  }


  /** The checks a thread takes off the back of the queue, in the order it takes them. */
  function TakeBack(queue: seq<Check>, n: nat): seq<Check>
    requires n <= |queue|
  {
    seq(n, i requires 0 <= i < n => queue[|queue| - 1 - i])
  }

  /** The end of the critical section: return, go to sleep, or take a batch off the back. */
  function LoopTop(s: State, t: nat, nBatchSize: nat): (State, Option<bool>)
    requires s.nTotal + s.nIdle + 1 > 0
  {
    if s.queue == [] then
      if t == MASTER && s.nTodo == 0 then
        (s.(nTotal := s.nTotal - 1, fAllOk := true, threads := s.threads[t := Outside]), Some(s.fAllOk))
      else
        (s.(nIdle := s.nIdle + 1, threads := s.threads[t := Sleeping]), None)
    else
      var nNow := BatchCount(s, nBatchSize);
      (s.(queue := s.queue[..|s.queue| - nNow],
          threads := s.threads[t := Working(TakeBack(s.queue, nNow), s.fAllOk)]), None)
  }

  ghost predicate Enabled(s: State, step: Step) {
    match step
    case Add(checks, notified) =>
      // only the master adds work, and notify_one wakes a sleeping worker if there is one
      && MASTER in s.threads && s.threads[MASTER] == Outside
      && (|checks| == 1 ==>
            if notified.Some? then IsSleepingWorker(s, notified.value) else forall t :: !IsSleepingWorker(s, t))
    case Enter(t) => t in s.threads && s.threads[t] == Outside
    case Resume(t) => t in s.threads && s.threads[t] == Woken
    case Finish(t) => t in s.threads && s.threads[t].Working?
    case Spurious(t) => t in s.threads && s.threads[t] == Sleeping
  }

  predicate IsSleepingWorker(s: State, t: nat) {
    t != MASTER && t in s.threads && s.threads[t] == Sleeping
  }

  ghost function WakeWorkers(s: State, n: nat, notified: Option<nat>): map<nat, Thread> {
    if n == 0 then s.threads
    else if n == 1 then
      if notified.Some? then s.threads[notified.value := Woken] else s.threads
    else
      map t | t in s.threads :: if IsSleepingWorker(s, t) then Woken else s.threads[t]
  }

  /** The threads after a worker that reported the last check has notified the master. */
  function WakeMaster(threads: map<nat, Thread>): map<nat, Thread> {
    if MASTER in threads && threads[MASTER] == Sleeping then threads[MASTER := Woken] else threads
  }

  /** A thread reports its batch. */
  function Report(s: State, t: nat): State
    requires t in s.threads && s.threads[t].Working?
  {
    var th := s.threads[t];
    var nTodo := s.nTodo - |th.batch|;
    s.(fAllOk := s.fAllOk && Execute(th.fOk, th.batch), nTodo := nTodo,
       threads := if nTodo == 0 && t != MASTER then WakeMaster(s.threads) else s.threads)
  }

  // ------------------------------------------------------------------
  // The invariant
  // ------------------------------------------------------------------

  function Held(t: nat, th: Thread): nat {
    if th.Working? then |th.batch| else 0
  }

  function Waits(t: nat, th: Thread): nat {
    if th.Sleeping? || th.Woken? then 1 else 0
  }

  function Inside(t: nat, th: Thread): nat {
    if th.Outside? then 0 else 1
  }

  /** nTodo counts the queued checks and those in unreported batches; nIdle and nTotal count
      the waiting threads and the threads in Loop; no batch is empty. */
  ghost predicate Counted(s: State) {
    && s.nTodo == |s.queue| + Sum(s.threads, Held)
    && s.nIdle == Sum(s.threads, Waits)
    && s.nTotal == Sum(s.threads, Inside)
    && forall t :: t in s.threads && s.threads[t].Working? ==> s.threads[t].batch != []
  }

  /** A master that sleeps and was not notified has found the queue empty and work undone. */
  ghost predicate NoLostWakeUp(s: State) {
    MASTER in s.threads && (s.threads[MASTER] == Sleeping ==> s.queue == [] && s.nTodo > 0)
  }

  /** `goal`, the conjunction of the checks added since the last return, is what fAllOk, the
      queue and the unreported batches still amount to. */
  ghost predicate OnTrack(s: State, goal: bool) {
    && (goal <==> s.fAllOk && AllOk(s.queue) && BatchesOk(s.threads))
    && forall t :: t in s.threads && s.threads[t].Working? && !s.threads[t].fOk ==> !s.fAllOk
  }

  ghost predicate BatchesOk(threads: map<nat, Thread>) {
    forall t :: t in threads && threads[t].Working? ==> AllOk(threads[t].batch)
  }

  ghost predicate Inv(s: State, goal: bool) {
    Counted(s) && NoLostWakeUp(s) && OnTrack(s, goal)
  }

  // ------------------------------------------------------------------
  // One step
  // ------------------------------------------------------------------

  /** The state after a step, and what Wait returned if it did. */
  ghost function Apply(s: State, step: Step, nBatchSize: nat): (State, Option<bool>)
    requires Enabled(s, step) && s.nTotal >= 0 && s.nIdle >= 0 && (step.Resume? ==> s.nIdle > 0)
  {
    match step
    case Add(checks, notified) =>
      (s.(queue := s.queue + checks, nTodo := s.nTodo + |checks|,
          threads := WakeWorkers(s, |checks|, notified)), None)
    case Enter(t) => LoopTop(s.(nTotal := s.nTotal + 1), t, nBatchSize)
    case Resume(t) => LoopTop(s.(nIdle := s.nIdle - 1), t, nBatchSize)
    case Finish(t) => LoopTop(Report(s, t), t, nBatchSize)
    case Spurious(t) => (s.(threads := s.threads[t := Woken]), None)
  }

  lemma Applicable(s: State, step: Step)
    requires Counted(s) && Enabled(s, step)
    ensures s.nTotal >= 0 && s.nIdle >= 0 && (step.Resume? ==> s.nIdle > 0)
  {
    if step.Resume? { SumAtLeast(s.threads, Waits, step.t); }
  }

  lemma AllOkTakeBack(queue: seq<Check>, n: nat)
    requires n <= |queue|
    ensures AllOk(queue) <==> AllOk(queue[..|queue| - n]) && AllOk(TakeBack(queue, n))
  {
    var front, back := queue[..|queue| - n], TakeBack(queue, n);
    if AllOk(front) && AllOk(back) {
      forall i | 0 <= i < |queue| ensures queue[i].ok {
        if i < |queue| - n { assert front[i] == queue[i]; } else { assert back[|queue| - 1 - i] == queue[i]; }
      }
    }
  }

  /** What LoopTop needs: the invariant but for thread t, which is in the critical section. */
  ghost predicate InSection(s: State, t: nat, goal: bool) {
    && t in s.threads && MASTER in s.threads
    && s.nTodo == |s.queue| + Sum(s.threads[t := Outside], Held)
    && s.nIdle == Sum(s.threads[t := Outside], Waits)
    && s.nTotal == Sum(s.threads[t := Outside], Inside) + 1
    && (forall x :: x in s.threads && x != t && s.threads[x].Working? ==>
          s.threads[x].batch != [] && (s.threads[x].fOk || !s.fAllOk))
    && (goal <==> s.fAllOk && AllOk(s.queue) && BatchesOk(s.threads[t := Outside]))
    && (t != MASTER && s.threads[MASTER] == Sleeping ==> s.queue == [] && s.nTodo > 0)
  }

  lemma SectionSums(s: State, t: nat, th: Thread)
    requires t in s.threads
    ensures Sum(s.threads[t := th], Held) == Sum(s.threads[t := Outside], Held) + Held(t, th)
    ensures Sum(s.threads[t := th], Waits) == Sum(s.threads[t := Outside], Waits) + Waits(t, th)
    ensures Sum(s.threads[t := th], Inside) == Sum(s.threads[t := Outside], Inside) + Inside(t, th)
  {
    var m := s.threads[t := Outside];
    assert m[t := th] == s.threads[t := th];
    SumReplace(m, Held, t, th);
    SumReplace(m, Waits, t, th);
    SumReplace(m, Inside, t, th);
  }

  lemma SectionBatches(s: State, t: nat, th: Thread)
    ensures BatchesOk(s.threads[t := th]) <==>
              BatchesOk(s.threads[t := Outside]) && (th.Working? ==> AllOk(th.batch))
  {
    var m, m' := s.threads[t := Outside], s.threads[t := th];
    if BatchesOk(m') {
      forall x | x in m && m[x].Working? ensures AllOk(m[x].batch) { assert m'[x] == m[x]; }
      assert th.Working? ==> m'[t].Working?;
    }
    if BatchesOk(m) && (th.Working? ==> AllOk(th.batch)) {
      forall x | x in m' && m'[x].Working? ensures AllOk(m'[x].batch) { assert x != t ==> m[x] == m'[x]; }
    }
  }

  /** Thread t leaves the critical section as th, the rest of the state being what it should. */
  lemma LeaveSection(s: State, t: nat, th: Thread, s': State, goal: bool, goal': bool)
    requires InSection(s, t, goal)
    requires s' == s.(queue := s'.queue, nIdle := s'.nIdle, nTotal := s'.nTotal, fAllOk := s'.fAllOk, threads := s.threads[t := th])
    requires |s'.queue| + Held(t, th) == |s.queue| && s'.nIdle == s.nIdle + Waits(t, th) && s'.nTotal == s.nTotal - 1 + Inside(t, th)
    requires th.Working? ==> th.batch != [] && (th.fOk || !s'.fAllOk)
    requires s.queue == [] ==> s'.queue == []
    requires t == MASTER && th == Sleeping ==> s.queue == [] && s.nTodo > 0
    requires goal' <==> s'.fAllOk && AllOk(s'.queue) && BatchesOk(s.threads[t := Outside]) && (th.Working? ==> AllOk(th.batch))
    requires s'.fAllOk == s.fAllOk || Sum(s.threads[t := Outside], Held) == 0
    ensures Inv(s', goal')
  {
    SectionSums(s, t, th);
    SectionBatches(s, t, th);
    var others := s.threads[t := Outside];
    if s'.fAllOk != s.fAllOk { NothingHeld(others); }
    hide AllOk, BatchesOk;
    forall x | x in s'.threads && s'.threads[x].Working? && !s'.threads[x].fOk ensures !s'.fAllOk {
      assert x != t ==> others[x] == s.threads[x] == s'.threads[x];
    }
  }

  lemma LoopTopKeepsInv(s: State, t: nat, nBatchSize: nat, goal: bool)
    requires InSection(s, t, goal)
    ensures s.nTotal + s.nIdle + 1 > 0
    ensures var (s', r) := LoopTop(s, t, nBatchSize);
            && Inv(s', if r.Some? then true else goal)
            && (r.Some? ==> r.value == goal)
            && s'.nTodo == s.nTodo
  {
    var (s', r) := LoopTop(s, t, nBatchSize);
    if s.queue == [] && t == MASTER && s.nTodo == 0 {
      NothingHeld(s.threads[t := Outside]);
      NoBatches(s.threads[t := Outside]);
      LeaveSection(s, t, Outside, s', goal, true);
    } else if s.queue == [] {
      LeaveSection(s, t, Sleeping, s', goal, goal);
    } else {
      var n := BatchCount(s, nBatchSize);
      AllOkTakeBack(s.queue, n);
      LeaveSection(s, t, Working(TakeBack(s.queue, n), s.fAllOk), s', goal, goal);
    }
  }

  lemma NoBatches(threads: map<nat, Thread>)
    requires forall t :: t in threads && threads[t].Working? ==> threads[t].batch == []
    ensures BatchesOk(threads)
  {
  }

  lemma NothingHeld(threads: map<nat, Thread>)
    requires Sum(threads, Held) == 0
    ensures forall t :: t in threads && threads[t].Working? ==> threads[t].batch == []
  {
    forall t | t in threads && threads[t].Working? ensures threads[t].batch == [] {
      SumAtLeast(threads, Held, t);
    }
  }

  ghost function GoalAfter(goal: bool, step: Step, r: Option<bool>): bool {
    if r.Some? then true else goal && (step.Add? ==> AllOk(step.checks))
  }

  lemma EnterSection(s: State, t: nat, goal: bool)
    requires Inv(s, goal) && t in s.threads && s.threads[t] == Outside
    ensures InSection(s.(nTotal := s.nTotal + 1), t, goal)
  {
    assert s.threads[t := Outside] == s.threads;
  }

  lemma ResumeSection(s: State, t: nat, goal: bool)
    requires Inv(s, goal) && t in s.threads && s.threads[t] == Woken
    ensures InSection(s.(nIdle := s.nIdle - 1), t, goal)
  {
    SectionSums(s, t, Woken);
    SectionBatches(s, t, Woken);
    assert s.threads[t := Woken] == s.threads;
  }

  lemma ReportSection(s: State, t: nat, goal: bool)
    requires Inv(s, goal) && t in s.threads && s.threads[t].Working?
    ensures InSection(Report(s, t), t, goal) && Report(s, t).nTodo < s.nTodo
  {
    var th := s.threads[t];
    ExecuteIsConjunction(th.fOk, th.batch);
    SectionSums(s, t, th);
    SectionBatches(s, t, th);
    assert s.threads[t := th] == s.threads;
    var s' := Report(s, t);
    WakeKeepsSums(s.threads[t := Outside], s'.threads[t := Outside]);
    hide BatchesOk, AllOk, Execute;
  }

  lemma WakeKeepsSums(threads: map<nat, Thread>, threads': map<nat, Thread>)
    requires threads'.Keys == threads.Keys
    requires forall t :: t in threads ==> threads'[t] == threads[t] || (threads[t] == Sleeping && threads'[t] == Woken)
    ensures Sum(threads', Held) == Sum(threads, Held)
    ensures Sum(threads', Waits) == Sum(threads, Waits)
    ensures Sum(threads', Inside) == Sum(threads, Inside)
    ensures BatchesOk(threads') <==> BatchesOk(threads)
  {
    SumSame(threads, threads', Held);
    SumSame(threads, threads', Waits);
    SumSame(threads, threads', Inside);
  }

  lemma WakesOnlySleepers(s: State, n: nat, notified: Option<nat>)
    requires n == 1 && notified.Some? ==> IsSleepingWorker(s, notified.value)
    ensures var threads' := WakeWorkers(s, n, notified);
            && threads'.Keys == s.threads.Keys
            && (forall t :: t in s.threads ==>
                  threads'[t] == s.threads[t] || (t != MASTER && s.threads[t] == Sleeping && threads'[t] == Woken))
  {
  }

  lemma AddKeepsInv(s: State, checks: seq<Check>, notified: Option<nat>, goal: bool)
    requires Inv(s, goal) && Enabled(s, Add(checks, notified))
    ensures Inv(s.(queue := s.queue + checks, nTodo := s.nTodo + |checks|,
                   threads := WakeWorkers(s, |checks|, notified)), goal && AllOk(checks))
  {
    var threads' := WakeWorkers(s, |checks|, notified);
    WakesOnlySleepers(s, |checks|, notified);
    WakeKeepsSums(s.threads, threads');
    hide WakeWorkers, BatchesOk;
    assert AllOk(s.queue + checks) <==> AllOk(s.queue) && AllOk(checks) by {
      var q := s.queue + checks;
      if AllOk(q) {
        forall i | 0 <= i < |s.queue| ensures s.queue[i].ok { assert q[i] == s.queue[i]; }
        forall i | 0 <= i < |checks| ensures checks[i].ok { assert q[|s.queue| + i] == checks[i]; }
      }
    }
    hide AllOk;
  }

  lemma SpuriousKeepsInv(s: State, t: nat, goal: bool)
    requires Inv(s, goal) && Enabled(s, Spurious(t))
    ensures Inv(s.(threads := s.threads[t := Woken]), goal)
  {
    WakeKeepsSums(s.threads, s.threads[t := Woken]);
    hide BatchesOk;
  }

  /** What a step promises. */
  ghost predicate Kept(s: State, step: Step, nBatchSize: nat, goal: bool)
    requires Enabled(s, step) && s.nTotal >= 0 && s.nIdle >= 0 && (step.Resume? ==> s.nIdle > 0)
  {
    var (s', r) := Apply(s, step, nBatchSize);
    && Inv(s', GoalAfter(goal, step, r))
    && (r.Some? ==> r.value == goal)
    && (!step.Add? ==> s'.nTodo <= s.nTodo)
    && (step.Finish? ==> s'.nTodo < s.nTodo)
  }

  lemma FinishKeepsInv(s: State, t: nat, nBatchSize: nat, goal: bool)
    requires Inv(s, goal) && Enabled(s, Finish(t)) && s.nTotal >= 0 && s.nIdle >= 0
    ensures Kept(s, Finish(t), nBatchSize, goal)
  {
    ReportSection(s, t, goal);
    LoopTopKeepsInv(Report(s, t), t, nBatchSize, goal);
    hide Inv, InSection, LoopTop, Report;
  }

  lemma EnterKeepsInv(s: State, t: nat, nBatchSize: nat, goal: bool)
    requires Inv(s, goal) && Enabled(s, Enter(t)) && s.nTotal >= 0 && s.nIdle >= 0
    ensures Kept(s, Enter(t), nBatchSize, goal)
  {
    EnterSection(s, t, goal);
    LoopTopKeepsInv(s.(nTotal := s.nTotal + 1), t, nBatchSize, goal);
    hide Inv, InSection, LoopTop;
  }

  lemma ResumeKeepsInv(s: State, t: nat, nBatchSize: nat, goal: bool)
    requires Inv(s, goal) && Enabled(s, Resume(t)) && s.nTotal >= 0 && s.nIdle > 0
    ensures Kept(s, Resume(t), nBatchSize, goal)
  {
    ResumeSection(s, t, goal);
    LoopTopKeepsInv(s.(nIdle := s.nIdle - 1), t, nBatchSize, goal);
    hide Inv, InSection, LoopTop;
  }

  /** Every step keeps the invariant, and Wait returns exactly the conjunction of the checks
      added since it last returned. */
  lemma StepKeepsInv(s: State, step: Step, nBatchSize: nat, goal: bool)
    requires Inv(s, goal) && Enabled(s, step)
    ensures s.nTotal >= 0 && s.nIdle >= 0 && (step.Resume? ==> s.nIdle > 0)
    ensures Kept(s, step, nBatchSize, goal)
  {
    Applicable(s, step);
    match step {
      case Add(checks, notified) =>
        AddKeepsInv(s, checks, notified, goal);
        hide Inv, WakeWorkers, AllOk;
      case Enter(t) => EnterKeepsInv(s, t, nBatchSize, goal);
      case Resume(t) => ResumeKeepsInv(s, t, nBatchSize, goal);
      case Finish(t) => FinishKeepsInv(s, t, nBatchSize, goal);
      case Spurious(t) =>
        SpuriousKeepsInv(s, t, goal);
        hide Inv;
    }
    hide *;
  }

  // ------------------------------------------------------------------
  // Whole runs
  // ------------------------------------------------------------------

  /** The queue as constructed, with every thread still outside. */
  ghost predicate Init(s: State) {
    && MASTER in s.threads && (forall t :: t in s.threads ==> s.threads[t] == Outside)
    && s.queue == [] && s.nIdle == 0 && s.nTotal == 0 && s.nTodo == 0 && s.fAllOk
  }

  lemma InitInv(s: State)
    requires Init(s)
    ensures Inv(s, true)
  {
    AllZero(s.threads, Held);
    AllZero(s.threads, Waits);
    AllZero(s.threads, Inside);
  }

  lemma {:induction false} AllZero(m: map<nat, Thread>, f: (nat, Thread) -> nat)
    requires forall t :: t in m ==> f(t, m[t]) == 0
    ensures Sum(m, f) == 0
  {
    if Sum(m, f) > 0 {
      var t := SumPositive(m, f);
    }
  }

  /** One enabled step from s to s' with event r. */
  ghost predicate Takes(s: State, step: Step, s': State, r: Option<bool>, nBatchSize: nat) {
    && Enabled(s, step) && s.nTotal >= 0 && s.nIdle >= 0 && (step.Resume? ==> s.nIdle > 0)
    && (s', r) == Apply(s, step, nBatchSize)
  }

  ghost predicate IsRun(states: seq<State>, steps: seq<Step>, events: seq<Option<bool>>, nBatchSize: nat) {
    && |states| == |steps| + 1 && |events| == |steps|
    && Init(states[0])
    && forall i :: 0 <= i < |steps| ==> Takes(states[i], steps[i], states[i + 1], events[i], nBatchSize)
  }

  /** Whether all checks added since the last return before step i succeed. */
  ghost predicate Owed(steps: seq<Step>, events: seq<Option<bool>>, i: nat)
    requires i <= |steps| == |events|
  {
    forall j :: 0 <= j < i && steps[j].Add? && NoReturn(events, j, i) ==> AllOk(steps[j].checks)
  }

  ghost predicate NoReturn(events: seq<Option<bool>>, j: nat, i: nat)
    requires i <= |events|
  {
    forall k :: j <= k < i ==> events[k] == None
  }

  lemma OwedStep(steps: seq<Step>, events: seq<Option<bool>>, i: nat)
    requires i < |steps| == |events|
    ensures Owed(steps, events, i + 1) <==> GoalAfter(Owed(steps, events, i), steps[i], events[i])
  {
    var n := i + 1;
    if events[i].Some? {
      assert forall j :: 0 <= j <= i ==> !NoReturn(events, j, n);
    } else {
      assert forall j :: 0 <= j <= i ==> (NoReturn(events, j, n) <==> NoReturn(events, j, i));
    }
  }

  lemma {:induction false} RunInv(states: seq<State>, steps: seq<Step>, events: seq<Option<bool>>, nBatchSize: nat, i: nat)
    requires IsRun(states, steps, events, nBatchSize) && i < |states|
    ensures Inv(states[i], Owed(steps, events, i))
  {
    if i == 0 {
      InitInv(states[0]);
    } else {
      RunInv(states, steps, events, nBatchSize, i - 1);
      hide Inv, Owed;
      assert Takes(states[i - 1], steps[i - 1], states[i - 1 + 1], events[i - 1], nBatchSize);
      StepKeepsInv(states[i - 1], steps[i - 1], nBatchSize, Owed(steps, events, i - 1));
      OwedStep(steps, events, i - 1);
    }
  }

  /** In every interleaving of a master and any number of workers, Wait returns exactly the
      conjunction of all checks added since the previous Wait. */
  lemma WaitReturnsConjunction(states: seq<State>, steps: seq<Step>, events: seq<Option<bool>>, nBatchSize: nat, i: nat)
    requires IsRun(states, steps, events, nBatchSize) && i < |steps| && events[i].Some?
    ensures events[i].value <==> Owed(steps, events, i)
  {
    RunInv(states, steps, events, nBatchSize, i);
    hide Inv, Owed;
    assert Takes(states[i], steps[i], states[i + 1], events[i], nBatchSize);
    StepKeepsInv(states[i], steps[i], nBatchSize, Owed(steps, events, i));
  }

  /** Whenever the master sleeps un-notified, the queue is empty, a worker holds an unreported
      batch, and the report that brings nTodo to zero wakes the master. */
  lemma SleepingMasterIsNotForgotten(s: State, goal: bool) returns (t: nat)
    requires Inv(s, goal) && s.threads[MASTER] == Sleeping
    ensures s.queue == [] && t != MASTER && Enabled(s, Finish(t))
    ensures Report(s, t).nTodo < s.nTodo
    ensures Report(s, t).nTodo == 0 ==> Report(s, t).threads[MASTER] == Woken
  {
    t := SumPositive(s.threads, Held);
  }

  // ------------------------------------------------------------------
  // Wait ends
  // ------------------------------------------------------------------

  /** A thread that is to enter Loop or to go on after a wake-up. */
  function Pending(t: nat, th: Thread): nat {
    if th.Outside? || th.Woken? then 1 else 0
  }

  /** Bounds the steps to come: two for every undone check, one for every thread that is to go on. */
  ghost function Rank(s: State): int {
    2 * s.nTodo + Sum(s.threads, Pending)
  }

  lemma LoopTopRank(s: State, t: nat, nBatchSize: nat)
    requires s.nTotal + s.nIdle + 1 > 0 && t in s.threads
    ensures var (s', r) := LoopTop(s, t, nBatchSize);
            r.None? ==> Rank(s') == Rank(s) - Pending(t, s.threads[t]) && !s'.threads[t].Outside? && s'.threads == s.threads[t := s'.threads[t]]
  {
    var (s', r) := LoopTop(s, t, nBatchSize);
    SumReplace(s.threads, Pending, t, s'.threads[t]);
  }

  /** Reporting a batch makes up for waking the master. */
  lemma ReportRank(s: State, t: nat, goal: bool)
    requires Inv(s, goal) && t in s.threads && s.threads[t].Working?
    ensures Rank(Report(s, t)) < Rank(s) && Report(s, t).threads.Keys == s.threads.Keys
    ensures Report(s, t).nTotal == s.nTotal && Report(s, t).nIdle == s.nIdle && Report(s, t).threads[t] == s.threads[t]
    ensures Report(s, t).threads[MASTER].Outside? <==> s.threads[MASTER].Outside?
  {
    ReportSection(s, t, goal);
    SumReplace(s.threads, Pending, MASTER, Woken);
  }

  /** Every step but an Add, a spurious wake-up or a return lowers the rank, and the master stays in Wait. */
  lemma RankDrops(s: State, step: Step, nBatchSize: nat, goal: bool)
    requires Inv(s, goal) && Enabled(s, step) && !step.Add?
    ensures s.nTotal >= 0 && s.nIdle >= 0 && (step.Resume? ==> s.nIdle > 0)
    ensures var (s', r) := Apply(s, step, nBatchSize);
            r.None? ==>
              && Rank(s') <= Rank(s) + (if step.Spurious? then 1 else -1)
              && MASTER in s'.threads && (!s.threads[MASTER].Outside? ==> !s'.threads[MASTER].Outside?)
  {
    Applicable(s, step);
    match step {
      case Enter(t) => LoopTopRank(s.(nTotal := s.nTotal + 1), t, nBatchSize);
      case Resume(t) => LoopTopRank(s.(nIdle := s.nIdle - 1), t, nBatchSize);
      case Finish(t) =>
        ReportRank(s, t, goal);
        LoopTopRank(Report(s, t), t, nBatchSize);
        hide Rank, Report, LoopTop;
      case Spurious(t) => SumReplace(s.threads, Pending, t, Woken);
    }
  }

  /** Consecutive steps, none of them an Add and none in which Wait returns. */
  ghost predicate IsWaiting(states: seq<State>, steps: seq<Step>, nBatchSize: nat) {
    && |states| == |steps| + 1
    && forall i :: 0 <= i < |steps| ==> !steps[i].Add? && Takes(states[i], steps[i], states[i + 1], None, nBatchSize)
  }

  function Wakes(steps: seq<Step>): nat {
    if steps == [] then 0 else Wakes(steps[..|steps| - 1]) + if steps[|steps| - 1].Spurious? then 1 else 0
  }

  lemma WaitingStep(s: State, step: Step, s': State, nBatchSize: nat, goal: bool)
    requires Inv(s, goal) && !s.threads[MASTER].Outside? && !step.Add? && Takes(s, step, s', None, nBatchSize)
    ensures Inv(s', goal) && !s'.threads[MASTER].Outside? && Rank(s') < Rank(s) + if step.Spurious? then 2 else 0
  {
    StepKeepsInv(s, step, nBatchSize, goal);
    RankDrops(s, step, nBatchSize, goal);
    hide Rank, Enabled;
  }

  lemma {:induction false} WaitingIsBounded(states: seq<State>, steps: seq<Step>, nBatchSize: nat, goal: bool, i: nat)
    requires IsWaiting(states, steps, nBatchSize) && i <= |steps|
    requires Inv(states[0], goal) && !states[0].threads[MASTER].Outside?
    ensures Inv(states[i], goal) && !states[i].threads[MASTER].Outside?
    ensures i + Rank(states[i]) <= Rank(states[0]) + 2 * Wakes(steps[..i])
  {
    if i > 0 {
      WaitingIsBounded(states, steps, nBatchSize, goal, i - 1);
      hide Inv, Rank, Takes;
      assert Takes(states[i - 1], steps[i - 1], states[i - 1 + 1], None, nBatchSize);
      WaitingStep(states[i - 1], steps[i - 1], states[i], nBatchSize, goal);
      assert steps[..i][..i - 1] == steps[..i - 1];
    }
  }

  /** However the threads are scheduled, a master in Wait gets its answer: without an Add, the steps before the return
      are bounded but for spurious wake-ups, and until then one more step, of the master or of a worker with a batch,
      is always possible. */
  lemma WaitMustEnd(states: seq<State>, steps: seq<Step>, nBatchSize: nat, goal: bool) returns (next: Step)
    requires IsWaiting(states, steps, nBatchSize)
    requires Inv(states[0], goal) && !states[0].threads[MASTER].Outside?
    ensures |steps| <= Rank(states[0]) + 2 * Wakes(steps)
    ensures Enabled(states[|steps|], next) && (next.Finish? || next == Resume(MASTER))
  {
    var n := |steps|;
    WaitingIsBounded(states, steps, nBatchSize, goal, n);
    assert steps[..n] == steps;
    next := NextStep(states[n], goal);
    NotNegative(states[n], goal);
  }

  lemma NotNegative(s: State, goal: bool)
    requires Inv(s, goal)
    ensures Rank(s) >= 0
  {
  }

  /** The steps, none of them an Add, lead to a return of Wait. */
  ghost predicate Ends(s: State, steps: seq<Step>, nBatchSize: nat)
    decreases |steps|
  {
    && steps != []
    && Enabled(s, steps[0]) && !steps[0].Add?
    && s.nTotal >= 0 && s.nIdle >= 0 && (steps[0].Resume? ==> s.nIdle > 0)
    && var (s', r) := Apply(s, steps[0], nBatchSize);
       r.Some? || Ends(s', steps[1..], nBatchSize)
  }

  /** Some schedule of the master and the workers with batches brings the return. */
  lemma {:induction false} WaitCanEnd(s: State, nBatchSize: nat, goal: bool) returns (steps: seq<Step>)
    requires Inv(s, goal) && s.threads[MASTER] != Outside
    ensures Ends(s, steps, nBatchSize)
    decreases Rank(s)
  {
    var step := NextStep(s, goal);
    StepKeepsInv(s, step, nBatchSize, goal);
    RankDrops(s, step, nBatchSize, goal);
    NotNegative(s, goal);
    var (s', r) := Apply(s, step, nBatchSize);
    if r.Some? {
      steps := [step];
    } else {
      var rest := WaitCanEnd(s', nBatchSize, GoalAfter(goal, step, r));
      steps := [step] + rest;
      assert steps[1..] == rest;
    }
  }

  lemma NextStep(s: State, goal: bool) returns (step: Step)
    requires Inv(s, goal) && s.threads[MASTER] != Outside
    ensures Enabled(s, step)
    ensures step.Finish? || (step == Resume(MASTER) && s.threads[MASTER] == Woken)
  {
    match s.threads[MASTER] {
      case Woken => step := Resume(MASTER);
      case Working(_, _) => step := Finish(MASTER);
      case Sleeping =>
        var t := SleepingMasterIsNotForgotten(s, goal);
        step := Finish(t);
    }
  }
}
