/**
The file watcher: a worker thread that watches one file and any number of threads that poll
it, over a mutex, a condition variable and the flags IDLE and DEAD. Every step below is one
action that other threads, and whoever changes the file, cannot interrupt.
*/
module Watcher {
  datatype Mode = Native | Fallback

  /** The watched name: nothing there, or a file whose inode and time stamp are `stamp`. */
  datatype File = Missing | Present(stamp: nat)

  /** Where a poll stands inside its critical section. */
  datatype Stage = Entered | Rearmed

  datatype Lock = Free | ByWorker | ByPoller(who: nat, stage: Stage)

  datatype WorkerAt =
    | Created      // before taking the mutex
    | Locked       // about to rearm for the first time
    | Watching     // blocked in impl_watch
    | Noticed      // impl_watch has seen a change; its mark is still there
    | Unmarked     // the mark is removed; events may be left
    | Changed      // impl_watch has returned 0
    | Waiting      // in pthread_cond_wait, not signalled
    | Woken        // signalled, to take the mutex again
    | Exited

  datatype Code = Zero | Again | NoEntry | IoError

  datatype Poll = Poll(who: nat, code: Code)

  datatype State = State(
    mode: Mode,
    lock: Lock,
    idle: bool,
    dead: bool,
    worker: WorkerAt,
    file: File,
    changes: nat,           // how often the file has changed
    marked: bool,           // native: the kernel reports changes
    pending: nat,           // native: unread events
    oldStamp: nat,          // fallback: the stat saved by the last rearm
    rearmed: int,           // `changes` at the last successful rearm, or -1
    polls: seq<Poll>        // the polls that have returned
  )

  predicate Init(s: State)
  {
    && s.lock == Free && !s.idle && !s.dead && s.worker == Created
    && s.changes == 0 && (s.file == Missing || s.file == Present(0))
    && !s.marked && s.pending == 0 && s.rearmed == -1 && s.polls == []
  }

  datatype Step =
    | Change(removed: bool)
    | StrayEvent
    | WorkerLock
    | WorkerSandboxFails
    | WorkerRearms(code: Code)
    | WorkerNotices(read: nat)
    | WorkerUnmarks
    | WorkerDrains
    | WorkerWatchFails
    | WorkerWaits
    | WorkerRelocks
    | PollBusy(who: nat)
    | PollEnters(who: nat)
    | PollNotIdle
    | PollRearms(code: Code)
    | PollSignals

  // ---- rearming and watching --------------------------------------------

  /** Which codes `impl_rearm` can give. */
  predicate RearmGives(s: State, code: Code)
  {
    if s.dead then code == IoError
    else match code
      case Zero => s.file.Present?
      case NoEntry => s.file.Missing?
      case IoError => true
      case Again => false
  }

  /** A successful `impl_rearm`: a mark is added, or the stat of the file is saved. */
  function AfterRearm(s: State): (r: State)
    requires s.file.Present?
  {
    match s.mode
    case Native => s.(marked := true, rearmed := s.changes)
    case Fallback => s.(oldStamp := s.file.stamp, rearmed := s.changes)
  }

  /** What makes `impl_watch` return: an event to read, or another stat than the saved one. */
  predicate Notable(s: State)
  {
    match s.mode
    case Native => s.pending > 0
    case Fallback => s.file != Present(s.oldStamp)
  }

  predicate InWatch(w: WorkerAt)
  {
    w == Watching || w == Noticed || w == Unmarked
  }

  // ---- the steps --------------------------------------------------------

  predicate Enabled(s: State, step: Step)
  {
    match step
    case Change(removed) => !(removed && s.file.Missing?)
    case StrayEvent => s.mode == Native
    case WorkerLock => s.worker == Created && s.lock == Free
    case WorkerSandboxFails => s.worker == Locked
    case WorkerRearms(code) => s.worker == Locked && RearmGives(s, code)
    case WorkerNotices(read) => s.worker == Watching && Notable(s) && (s.mode == Native ==> 0 < read <= s.pending)
    case WorkerUnmarks => s.worker == Noticed
    case WorkerDrains => s.worker == Unmarked
    case WorkerWatchFails => InWatch(s.worker)
    case WorkerWaits => s.worker == Changed
    case WorkerRelocks => s.worker == Woken && s.lock == Free
    case PollBusy(_) => s.lock != Free
    case PollEnters(_) => s.lock == Free
    case PollNotIdle => s.lock.ByPoller? && s.lock.stage == Entered && !s.idle
    case PollRearms(code) => s.lock.ByPoller? && s.lock.stage == Entered && s.idle && RearmGives(s, code)
    case PollSignals => s.lock.ByPoller? && s.lock.stage == Rearmed
  }

  function Exit(s: State): (r: State)
  {
    s.(worker := Exited, lock := Free, idle := true, dead := true)
  }

  /** `w->flags |= WATCHER_IDLE`, then the wait releases the mutex. */
  function GoIdle(s: State): (r: State)
  {
    s.(worker := Waiting, lock := Free, idle := true)
  }

  function Returned(s: State, who: nat, code: Code): (r: State)
  {
    s.(polls := s.polls + [Poll(who, code)])
  }

  function Next(s: State, step: Step): (r: State)
    requires Enabled(s, step)
  {
    match step
    case Change(removed) =>
      s.(changes := s.changes + 1,
         file := if removed then Missing else Present(s.changes + 1),
         pending := if s.marked then s.pending + 1 else s.pending)
    case StrayEvent => s.(pending := s.pending + 1)
    case WorkerLock => s.(worker := Locked, lock := ByWorker)
    case WorkerSandboxFails => Exit(s)
    case WorkerRearms(code) =>
      if code == Zero then AfterRearm(s).(worker := Watching)
      else if code == NoEntry then GoIdle(s)
      else Exit(s)
    case WorkerNotices(read) =>
      if s.mode == Native then s.(worker := Noticed, pending := s.pending - read) else s.(worker := Changed)
    case WorkerUnmarks => s.(worker := Unmarked, marked := false)
    case WorkerDrains => s.(worker := Changed, pending := 0)
    case WorkerWatchFails => Exit(s)
    case WorkerWaits => GoIdle(s)
    case WorkerRelocks => s.(worker := Watching, lock := ByWorker)
    case PollBusy(who) => Returned(s, who, Again)
    case PollEnters(who) => s.(lock := ByPoller(who, Entered))
    case PollNotIdle => Returned(s.(lock := Free), s.lock.who, Again)
    case PollRearms(code) =>
      if code == Zero then AfterRearm(s).(lock := ByPoller(s.lock.who, Rearmed))
      else Returned(s.(lock := Free), s.lock.who, code)
    case PollSignals =>
      Returned(s.(idle := false, lock := Free, worker := if s.worker == Waiting then Woken else s.worker),
               s.lock.who, Zero)
  }

  // ---- the invariant ----------------------------------------------------

  predicate HoldsLock(w: WorkerAt)
  {
    w == Locked || InWatch(w) || w == Changed
  }

  /** The mutex and the flags say where the worker is. */
  predicate Flags(s: State)
  {
    && (HoldsLock(s.worker) <==> s.lock == ByWorker)
    && (s.idle <==> s.worker == Waiting || s.worker == Exited)
    && (s.dead <==> s.worker == Exited)
    && (s.lock.ByPoller? && s.lock.stage == Rearmed ==> s.worker == Waiting)
  }

  /** The watch is set up and the worker watches, or is on its way to. */
  predicate Armed(s: State)
  {
    s.worker == Watching || s.worker == Woken || (s.lock.ByPoller? && s.lock.stage == Rearmed)
  }

  predicate Tracking(s: State)
  {
    && s.rearmed <= s.changes
    && (s.file.Present? ==> s.file.stamp == s.changes)
    && (Armed(s) ==> s.rearmed >= 0)
    && (Armed(s) && s.mode == Native ==> s.marked && (s.changes > s.rearmed ==> s.pending > 0))
    && (Armed(s) && s.mode == Fallback ==> s.oldStamp == s.rearmed)
    && (s.worker == Created || s.worker == Locked ==> s.rearmed == -1 && !s.marked)
  }

  predicate Inv(s: State)
  {
    Flags(s) && Tracking(s)
  }

  lemma InitInv(s: State)
    requires Init(s)
    ensures Inv(s)
  {
  }

  lemma StepKeepsInv(s: State, step: Step)
    requires Inv(s) && Enabled(s, step)
    ensures Inv(Next(s, step))
  {
    match step
    case Change(_) =>
    case StrayEvent =>
    case WorkerLock =>
    case WorkerSandboxFails =>
    case WorkerRearms(_) =>
    case WorkerNotices(_) =>
    case WorkerUnmarks =>
    case WorkerDrains =>
    case WorkerWatchFails =>
    case WorkerWaits =>
    case WorkerRelocks =>
    case PollBusy(_) =>
    case PollEnters(_) =>
    case PollNotIdle =>
    case PollRearms(_) =>
    case PollSignals =>
  }

  // ---- runs -------------------------------------------------------------

  predicate IsRun(s: State, steps: seq<Step>)
    decreases |steps|
  {
    steps == [] || (Enabled(s, steps[0]) && IsRun(Next(s, steps[0]), steps[1..]))
  }

  function After(s: State, steps: seq<Step>): (r: State)
    requires IsRun(s, steps)
    decreases |steps|
  {
    if steps == [] then s else After(Next(s, steps[0]), steps[1..])
  }

  lemma {:induction false} RunKeepsInv(s: State, steps: seq<Step>)
    requires Inv(s) && IsRun(s, steps)
    ensures Inv(After(s, steps))
    decreases |steps|
  {
    if steps != [] {
      StepKeepsInv(s, steps[0]);
      RunKeepsInv(Next(s, steps[0]), steps[1..]);
    }
  }

  // ---- what the invariant means -----------------------------------------

  /** A change since the last rearm is on record. */
  predicate Recorded(s: State)
  {
    || (Armed(s) && Notable(s))
    || s.worker == Noticed || s.worker == Unmarked || s.worker == Changed
    || (s.worker == Waiting && s.idle && !Armed(s))
  }

  /**
  In every interleaving, a change made after the last successful rearm is not lost while the
  worker lives: an event waits for `impl_watch`, or the worker has noticed and is about to go
  idle, or IDLE is set and the next poll that gets the mutex rearms.
  */
  lemma NoChangeIsLost(init: State, steps: seq<Step>)
    requires Init(init) && IsRun(init, steps)
    ensures var s := After(init, steps);
            s.rearmed >= 0 && s.changes > s.rearmed && !s.dead ==> Recorded(s)
  {
    InitInv(init);
    RunKeepsInv(init, steps);
  }

  /**
  What holds beyond the invariant when every event stands for a change: nothing is pending or
  noticed that did not happen after the last rearm.
  */
  predicate Exact(s: State)
  {
    && Inv(s)
    && (Armed(s) && s.changes == s.rearmed ==> s.file.Present?)
    && (Noticing(s) ==> s.changes > s.rearmed)
    && (s.mode == Native ==>
          && (Armed(s) && s.pending > 0 ==> s.changes > s.rearmed)
          && (s.worker == Unmarked ==> !s.marked)
          && (s.worker == Created || s.worker == Locked || s.worker == Changed || (s.worker == Waiting && !Armed(s)) ==>
                s.pending == 0 && !s.marked))
  }

  /** The worker has noticed a change, and the next rearm is still to come. */
  predicate Noticing(s: State)
  {
    s.worker == Noticed || s.worker == Unmarked || s.worker == Changed || (s.worker == Waiting && !Armed(s))
  }

  lemma StepKeepsExact(s: State, step: Step)
    requires Exact(s) && Enabled(s, step) && step != StrayEvent
    ensures Exact(Next(s, step))
  {
    StepKeepsInv(s, step);
    match step
    case Change(_) =>
    case WorkerLock =>
    case WorkerSandboxFails =>
    case WorkerRearms(_) =>
    case WorkerNotices(_) =>
    case WorkerUnmarks =>
    case WorkerDrains =>
    case WorkerWatchFails =>
    case WorkerWaits =>
    case WorkerRelocks =>
    case PollBusy(_) =>
    case PollEnters(_) =>
    case PollNotIdle =>
    case PollRearms(_) =>
    case PollSignals =>
  }

  /** No event arrives that no change of the file stands behind. */
  predicate NoStrays(steps: seq<Step>)
  {
    forall i :: 0 <= i < |steps| ==> steps[i] != StrayEvent
  }

  lemma {:induction false} RunKeepsExact(s: State, steps: seq<Step>)
    requires Exact(s) && IsRun(s, steps) && NoStrays(steps)
    ensures Exact(After(s, steps))
    decreases |steps|
  {
    if steps != [] {
      StepKeepsExact(s, steps[0]);
      RunKeepsExact(Next(s, steps[0]), steps[1..]);
    }
  }

  /**
  In every interleaving a live worker has a change on record if and only if the file changed
  after the latest rearm. So a change before the first rearm is the only kind that is missed.
  */
  lemma RecordedIff(init: State, steps: seq<Step>)
    requires Init(init) && IsRun(init, steps) && NoStrays(steps)
    ensures var s := After(init, steps);
            s.rearmed >= 0 && !s.dead ==> (Recorded(s) <==> s.changes > s.rearmed)
  {
    InitInv(init);
    RunKeepsExact(init, steps);
  }

  /** A poll rearms only while the worker waits: never during `impl_watch`, never unheard. */
  lemma RearmNeverOverlapsWatch(init: State, steps: seq<Step>, code: Code)
    requires Init(init) && IsRun(init, steps)
    ensures var s := After(init, steps);
            && (Enabled(s, PollRearms(code)) ==> s.worker == Waiting || s.worker == Exited)
            && (Enabled(s, PollSignals) ==> s.worker == Waiting)
  {
    InitInv(init);
    RunKeepsInv(init, steps);
  }

  /** What a poll that gets the mutex does, when nothing comes between: the code follows the flags. */
  lemma PollDecides(s: State, who: nat, code: Code)
    requires Inv(s) && s.lock == Free
    requires s.idle ==> RearmGives(s, code)
    ensures var steps := if !s.idle then [PollEnters(who), PollNotIdle]
                         else if code == Zero then [PollEnters(who), PollRearms(code), PollSignals]
                         else [PollEnters(who), PollRearms(code)];
            && IsRun(s, steps)
            && var r := After(s, steps);
            && r.lock == Free
            && r.polls == s.polls + [Poll(who, if s.idle then code else Again)]
            && (s.idle && code == Zero ==> r.rearmed == s.changes && r.worker == Woken && !r.idle)
            && (!(s.idle && code == Zero) ==> r == s.(polls := r.polls))
  {
    var s1 := Next(s, PollEnters(who));
    if !s.idle {
      var s2 := Next(s1, PollNotIdle);
      assert After(s1, [PollNotIdle]) == s2;
      assert [PollEnters(who), PollNotIdle][1..] == [PollNotIdle];
    } else if code == Zero {
      var s2 := Next(s1, PollRearms(code));
      var s3 := Next(s2, PollSignals);
      assert [PollRearms(code), PollSignals][1..] == [PollSignals];
      assert After(s2, [PollSignals]) == s3;
      assert [PollEnters(who), PollRearms(code), PollSignals][1..] == [PollRearms(code), PollSignals];
    } else {
      var s2 := Next(s1, PollRearms(code));
      assert After(s1, [PollRearms(code)]) == s2;
      assert [PollEnters(who), PollRearms(code)][1..] == [PollRearms(code)];
    }
  }

  /** How many steps the worker still needs, once a change is on record, to set IDLE. */
  function StepsToIdle(s: State): (n: nat)
  {
    match s.worker
    case Woken => 5
    case Watching => 4
    case Noticed => 3
    case Unmarked => 2
    case Changed => 1
    case _ => 0
  }

  /** The next step of a worker that is not blocked. */
  function WorkerStep(s: State): (step: Step)
  {
    match s.worker
    case Woken => WorkerRelocks
    case Watching => WorkerNotices(s.pending)
    case Noticed => WorkerUnmarks
    case Unmarked => WorkerDrains
    case _ => WorkerWaits
  }

  /**
  A recorded change leads to IDLE: whenever no poll holds the mutex, the worker can move, each
  of its moves brings it closer, and at the end IDLE is set with the mutex free.
  */
  lemma {:induction false} RecordedLeadsToIdle(s: State) returns (steps: seq<Step>)
    requires Inv(s) && Recorded(s) && !s.lock.ByPoller?
    ensures IsRun(s, steps) && |steps| <= StepsToIdle(s)
    ensures var r := After(s, steps);
            Inv(r) && r.idle && r.worker == Waiting && r.lock == Free && r.rearmed == s.rearmed
    decreases StepsToIdle(s)
  {
    if s.worker == Waiting {
      return [];
    }
    var step := WorkerStep(s);
    StepKeepsInv(s, step);
    var rest := RecordedLeadsToIdle(Next(s, step));
    steps := [step] + rest;
    assert steps[1..] == rest;
  }

  predicate NoZeroFrom(polls: seq<Poll>, k: nat)
  {
    forall i :: k <= i < |polls| ==> polls[i].code != Zero
  }

  /** Once the worker is dead no poll returns 0 any more. */
  lemma {:induction false} DeadIsFinal(s: State, steps: seq<Step>)
    requires Inv(s) && s.dead && IsRun(s, steps)
    ensures var r := After(s, steps);
            r.dead && s.polls <= r.polls && NoZeroFrom(r.polls, |s.polls|)
    decreases |steps|
  {
    if steps != [] {
      var s1 := Next(s, steps[0]);
      StepKeepsInv(s, steps[0]);
      assert s1.dead && s.polls <= s1.polls && NoZeroFrom(s1.polls, |s.polls|);
      DeadIsFinal(s1, steps[1..]);
    }
  }

  /** A failure that ends the worker. That the file is missing when it starts is none. */
  predicate Fatal(step: Step)
  {
    step == WorkerSandboxFails || step == WorkerWatchFails || step == WorkerRearms(IoError)
  }

  lemma DiesOnlyOfFailure(s: State, step: Step)
    requires Inv(s) && !s.dead && Enabled(s, step)
    ensures Next(s, step).dead <==> Fatal(step)
  {
  }

  /** In every interleaving the worker is dead if and only if something has failed. */
  lemma {:induction false} DeadIffFailed(s: State, steps: seq<Step>)
    requires Inv(s) && !s.dead && IsRun(s, steps)
    ensures After(s, steps).dead <==> exists i :: 0 <= i < |steps| && Fatal(steps[i])
    decreases |steps|
  {
    if steps != [] {
      var s1, rest := Next(s, steps[0]), steps[1..];
      DiesOnlyOfFailure(s, steps[0]);
      StepKeepsInv(s, steps[0]);
      if s1.dead {
        DeadIsFinal(s1, rest);
      } else {
        DeadIffFailed(s1, rest);
        assert forall i :: 0 < i < |steps| ==> steps[i] == rest[i - 1];
        assert forall i :: 0 <= i < |rest| ==> rest[i] == steps[i + 1];
      }
    }
  }

  /**
  No poll holds the mutex for ever, and a live worker that can take it moves unless it waits for
  a signal or watches an unchanged file.
  */
  lemma SomeoneMoves(s: State) returns (step: Step)
    requires Inv(s)
    requires s.lock.ByPoller? || !(s.dead || s.worker == Waiting || (s.worker == Watching && !Notable(s)))
    ensures Enabled(s, step) && !Fatal(step) && step != StrayEvent && !step.Change?
    ensures s.lock.ByPoller? ==> Next(s, step).lock != s.lock
    ensures !s.lock.ByPoller? ==> Next(s, step).worker != s.worker
  {
    if s.lock.ByPoller? {
      if s.lock.stage == Rearmed {
        return PollSignals;
      }
      return if !s.idle then PollNotIdle else if s.dead then PollRearms(IoError)
             else if s.file.Present? then PollRearms(Zero) else PollRearms(NoEntry);
    }
    match s.worker {
      case Created => return WorkerLock;
      case Locked => return WorkerRearms(if s.file.Present? then Zero else NoEntry);
      case _ => return WorkerStep(s);
    }
  }

  /**
  A file that is missing when the worker starts: the worker waits, polls say so, and once the file
  is there the next poll rearms.
  */
  lemma MissingAtStart(init: State, who: nat)
    requires Init(init) && init.file.Missing?
    ensures var s := Next(Next(init, WorkerLock), WorkerRearms(NoEntry));
            && s.worker == Waiting && s.idle && s.lock == Free && RearmGives(s, NoEntry)
            && var steps := [PollEnters(who), PollRearms(Zero), PollSignals];
            && var t := Next(s, Change(false));
            && IsRun(t, steps) && After(t, steps).polls == [Poll(who, Zero)] && After(t, steps).rearmed == 1
            && After(t, steps).worker == Woken
  {
    InitInv(init);
    var s1 := Next(init, WorkerLock);
    StepKeepsInv(init, WorkerLock);
    var s := Next(s1, WorkerRearms(NoEntry));
    StepKeepsInv(s1, WorkerRearms(NoEntry));
    StepKeepsInv(s, Change(false));
    PollDecides(Next(s, Change(false)), who, Zero);
  }

  /**
  The promise starts with the first rearm. A change made before it is not on record after it,
  although the file may have been read before the change.
  */
  lemma StartUpRace(init: State)
    requires Init(init)
    ensures var steps := [Change(false), WorkerLock, WorkerRearms(Zero)];
            && IsRun(init, steps)
            && var s := After(init, steps);
            && s.changes == 1 && s.worker == Watching && !s.idle
            && !Recorded(s)
  {
    var s1 := Next(init, Change(false));
    var s2 := Next(s1, WorkerLock);
    var s3 := Next(s2, WorkerRearms(Zero));
    assert [Change(false), WorkerLock, WorkerRearms(Zero)][1..] == [WorkerLock, WorkerRearms(Zero)];
    assert [WorkerLock, WorkerRearms(Zero)][1..] == [WorkerRearms(Zero)];
    assert After(s2, [WorkerRearms(Zero)]) == s3;
  }
}
