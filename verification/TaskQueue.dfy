/**
 The queue of lib/dtv-util/src/taskqueue.cpp as a state machine: any number of threads that
 push, the thread that loops over the tasks, and the one that stops the queue.  A step is one
 action of one thread; what a thread does under the mutex is several steps.
 */
module TaskQueue {

  type Task = nat
  type Thread = nat

  datatype Owner = Free | Pusher(p: Thread) | Stopper | Looper

  /** Where a pushing thread is. */
  datatype PushAt = ToLock(task: Task) | ToPush(task: Task) | ToUnlock | ToNotify

  datatype StopAt = Before | SetsFlag | Unlocks | Notifies | Joins | Stopped

  /** Where the looping thread is; `exit` is its local variable of that name. */
  datatype LoopAt =
    | Enters                  // `getTasks` takes the mutex
    | Decides                 // ... and looks at the flag and the queue
    | GoesToWait
    | Waits
    | Wakes                   // notified, or not: the wake-up may be spurious
    | SavesExit
    | Drains(exit: bool)
    | Leaves(exit: bool)      // `getTasks` releases the mutex
    | Runs(exit: bool)        // `runTasks`
    | ClearLocks | Clears | ClearUnlocks
    | Done

  datatype State = State(
    tasks: seq<Task>, exit: bool, mutex: Owner,
    pushers: map<Thread, PushAt>, stop: StopAt, loop: LoopAt, batch: seq<Task>,
    // history: all tasks pushed, run, and deleted without being run; how many were pushed before the flag was set
    pushed: seq<Task>, ran: seq<Task>, cleared: seq<Task>, before: nat)

  const INIT := State([], false, Free, map[], Before, Enters, [], [], [], [], 0)

  datatype Step =
    | PushBegins(p: Thread, task: Task) | PushLocks(p: Thread) | Pushes(p: Thread)
    | PushUnlocks(p: Thread) | PushNotifies(p: Thread)
    | StopLocks | StopSets | StopUnlocks | StopNotifies | StopJoins
    | LoopLocks | LoopDecides | LoopWaits | LoopWakesUnasked | LoopRelocks | LoopSavesExit
    | LoopDrains | LoopLeaves | LoopRuns | LoopGoesOn | LoopLocksToClear | LoopClears | LoopUnlocksAfterClear

  /** Whether a thread can take a step. */
  predicate Enabled(s: State, step: Step) {
    match step
    case PushBegins(p, task) => p !in s.pushers
    case PushLocks(p) => p in s.pushers && s.pushers[p].ToLock? && s.mutex.Free?
    case Pushes(p) => p in s.pushers && s.pushers[p].ToPush?
    case PushUnlocks(p) => p in s.pushers && s.pushers[p].ToUnlock?
    case PushNotifies(p) => p in s.pushers && s.pushers[p].ToNotify?
    case StopLocks => s.stop.Before? && s.mutex.Free?
    case StopSets => s.stop.SetsFlag?
    case StopUnlocks => s.stop.Unlocks?
    case StopNotifies => s.stop.Notifies?
    case StopJoins => s.stop.Joins? && s.loop.Done?
    case LoopLocks => s.loop.Enters? && s.mutex.Free?
    case LoopDecides => s.loop.Decides?
    case LoopWaits => s.loop.GoesToWait?
    case LoopWakesUnasked => s.loop.Waits?
    case LoopRelocks => s.loop.Wakes? && s.mutex.Free?
    case LoopSavesExit => s.loop.SavesExit?
    case LoopDrains => s.loop.Drains?
    case LoopLeaves => s.loop.Leaves?
    case LoopRuns => s.loop.Runs? && s.batch != []
    case LoopGoesOn => s.loop.Runs? && s.batch == []
    case LoopLocksToClear => s.loop.ClearLocks? && s.mutex.Free?
    case LoopClears => s.loop.Clears?
    case LoopUnlocksAfterClear => s.loop.ClearUnlocks?
  }

  function Notify(s: State): State {
    if s.loop.Waits? then s.(loop := Wakes) else s
  }

  function After(s: State, step: Step): State
    requires Enabled(s, step)
  {
    match step
    case PushBegins(p, task) => s.(pushers := s.pushers[p := ToLock(task)])
    case PushLocks(p) => s.(mutex := Pusher(p), pushers := s.pushers[p := ToPush(s.pushers[p].task)])
    case Pushes(p) =>
      var task := s.pushers[p].task;
      s.(tasks := s.tasks + [task], pushed := s.pushed + [task], pushers := s.pushers[p := ToUnlock])
    case PushUnlocks(p) => s.(mutex := Free, pushers := s.pushers[p := ToNotify])
    case PushNotifies(p) => Notify(s.(pushers := s.pushers - {p}))
    case StopLocks => s.(mutex := Stopper, stop := SetsFlag)
    case StopSets => s.(exit := true, before := |s.pushed|, stop := Unlocks)
    case StopUnlocks => s.(mutex := Free, stop := Notifies)
    case StopNotifies => Notify(s.(stop := Joins))
    case StopJoins => s.(stop := Stopped)
    case LoopLocks => s.(mutex := Looper, loop := Decides)
    case LoopDecides =>
      if s.exit && s.tasks == [] then s.(loop := Leaves(true))
      else if s.tasks == [] then s.(loop := GoesToWait)
      else s.(loop := Drains(false))
    case LoopWaits => s.(mutex := Free, loop := Waits)
    case LoopWakesUnasked => s.(loop := Wakes)
    case LoopRelocks => s.(mutex := Looper, loop := SavesExit)
    case LoopSavesExit => s.(loop := Drains(s.exit))
    case LoopDrains =>
      if s.tasks == [] then s.(loop := Leaves(s.loop.exit))
      else s.(tasks := s.tasks[1..], batch := s.batch + [s.tasks[0]])
    case LoopLeaves => s.(mutex := Free, loop := Runs(s.loop.exit))
    case LoopRuns => s.(batch := s.batch[1..], ran := s.ran + [s.batch[0]])
    case LoopGoesOn => s.(loop := if s.loop.exit then ClearLocks else Enters)
    case LoopLocksToClear => s.(mutex := Looper, loop := Clears)
    case LoopClears =>
      if s.tasks == [] then s.(loop := ClearUnlocks)
      else s.(tasks := s.tasks[1..], cleared := s.cleared + [s.tasks[0]])
    case LoopUnlocksAfterClear => s.(mutex := Free, loop := Done)
  }

  // ----- The invariant

  predicate Holds(at: LoopAt) {
    at.Decides? || at.GoesToWait? || at.SavesExit? || at.Drains? || at.Leaves? || at.Clears? || at.ClearUnlocks?
  }

  /** The mutex is held by exactly the thread that is between its lock and unlock. */
  ghost predicate Excludes(s: State) {
    && (Holds(s.loop) <==> s.mutex.Looper?)
    && (s.stop.SetsFlag? || s.stop.Unlocks? <==> s.mutex.Stopper?)
    && (forall p :: p in s.pushers ==> (s.pushers[p].ToPush? || s.pushers[p].ToUnlock? <==> s.mutex == Pusher(p)))
    && (s.mutex.Pusher? ==> s.mutex.p in s.pushers)
  }

  /** The looping thread has seen the flag. */
  predicate Exiting(at: LoopAt) {
    (at.Leaves? && at.exit) || (at.Runs? && at.exit) || at.ClearLocks? || at.Clears? || at.ClearUnlocks? || at.Done?
  }

  predicate Finishing(at: LoopAt) {
    at.ClearLocks? || at.Clears? || at.ClearUnlocks? || at.Done?
  }

  /** Every task that was pushed is, in this order, run, about to run or queued; only at the end some are deleted. */
  ghost predicate KeepsTasks(s: State) {
    && s.pushed == s.ran + s.batch + s.cleared + s.tasks
    && (Finishing(s.loop) ==> s.batch == [])
    && (s.cleared != [] ==> Finishing(s.loop))
  }

  /** Tasks from before the flag are not among the ones that are left when the flag is seen. */
  ghost predicate KeepsPromise(s: State) {
    && (s.exit <==> s.stop.Unlocks? || s.stop.Notifies? || s.stop.Joins? || s.stop.Stopped?)
    && (s.exit ==> s.before <= |s.pushed|)
    && (s.loop.Drains? && s.loop.exit ==> s.exit)
    && (Exiting(s.loop) ==> s.exit && s.before <= |s.ran| + |s.batch|)
    && (s.stop.Stopped? ==> s.loop.Done?)
  }

  /** A waiting thread has nothing to do, or somebody is about to notify it. */
  ghost predicate KeepsAwake(s: State) {
    && (s.loop.GoesToWait? ==> s.tasks == [] && !s.exit)
    && (s.loop.Waits? && s.tasks != [] ==>
          exists p :: p in s.pushers && (s.pushers[p].ToUnlock? || s.pushers[p].ToNotify?))
    && (s.loop.Waits? && s.exit ==> s.stop.Unlocks? || s.stop.Notifies?)
  }

  ghost predicate Inv(s: State) {
    Excludes(s) && KeepsTasks(s) && KeepsPromise(s) && KeepsAwake(s)
  }

  lemma StepKeepsExclusion(s: State, step: Step)
    requires Excludes(s) && Enabled(s, step)
    ensures Excludes(After(s, step))
  {
    if OfLoop(step) {
      LoopKeepsExclusion(s, step);
    }
  }

  lemma LoopKeepsExclusion(s: State, step: Step)
    requires Excludes(s) && Enabled(s, step) && OfLoop(step)
    ensures Excludes(After(s, step))
  {
  }

  /** A task moves from the queue to the batch, from the batch to those run, or from the queue to those deleted. */
  lemma OneMoves(ran: seq<Task>, batch: seq<Task>, cleared: seq<Task>, tasks: seq<Task>)
    ensures tasks != [] && cleared == [] ==>
              ran + batch + cleared + tasks == ran + (batch + [tasks[0]]) + cleared + tasks[1..]
    ensures batch != [] ==> ran + batch + cleared + tasks == (ran + [batch[0]]) + batch[1..] + cleared + tasks
    ensures tasks != [] ==> ran + batch + cleared + tasks == ran + batch + (cleared + [tasks[0]]) + tasks[1..]
  {
  }

  lemma StepKeepsTasks(s: State, step: Step)
    requires KeepsTasks(s) && Enabled(s, step)
    ensures KeepsTasks(After(s, step))
  {
    OneMoves(s.ran, s.batch, s.cleared, s.tasks);
    if step.Pushes? {
      var task := s.pushers[step.p].task;
      assert (s.ran + s.batch + s.cleared + s.tasks) + [task] == s.ran + s.batch + s.cleared + (s.tasks + [task]);
    }
  }

  lemma TaskNumbers(s: State)
    requires KeepsTasks(s)
    ensures |s.pushed| == |s.ran| + |s.batch| + |s.cleared| + |s.tasks|
    ensures !Finishing(s.loop) ==> s.cleared == []
  {
  }

  lemma StepKeepsPromise(s: State, step: Step)
    requires Inv(s) && Enabled(s, step)
    ensures KeepsPromise(After(s, step))
  {
    hide Excludes, KeepsTasks, KeepsAwake;
    TaskNumbers(s);
  }

  lemma StepKeepsAwake(s: State, step: Step)
    requires Inv(s) && Enabled(s, step)
    ensures KeepsAwake(After(s, step))
  {
    var s' := After(s, step);
    if s'.loop.Waits? && s'.tasks != [] {
      if step.Pushes? {
        assert step.p in s'.pushers;
      } else if !step.LoopWaits? {
        var p :| p in s.pushers && (s.pushers[p].ToUnlock? || s.pushers[p].ToNotify?);
        assert p in s'.pushers;
      }
    }
  }

  // ----- Runs

  /** Every interleaving: any thread that is able to may take the next step. */
  ghost predicate IsRun(states: seq<State>, steps: seq<Step>) {
    && |states| == |steps| + 1 && states[0] == INIT
    && forall i :: 0 <= i < |steps| ==> Follows(states[i], steps[i], states[i + 1])
  }

  predicate Follows(s: State, step: Step, s': State) {
    Enabled(s, step) && s' == After(s, step)
  }

  lemma {:induction false} RunKeepsInvariant(states: seq<State>, steps: seq<Step>, i: nat)
    requires IsRun(states, steps) && i < |states|
    ensures Inv(states[i])
  {
    if i > 0 {
      RunKeepsInvariant(states, steps, i - 1);
      var s, step := states[i - 1], steps[i - 1];
      assert Follows(s, step, states[i]);
      StepKeepsExclusion(s, step);
      StepKeepsTasks(s, step);
      StepKeepsPromise(s, step);
      StepKeepsAwake(s, step);
    }
  }

  /** From the setting of the flag on, what had been pushed is remembered. */
  lemma {:induction false} FlagIsSetOnce(states: seq<State>, steps: seq<Step>, k: nat, i: nat)
    requires IsRun(states, steps) && k < i < |states| && steps[k].StopSets?
    ensures states[i].before == |states[k].pushed| && states[k].pushed <= states[i].pushed
    ensures states[i].exit
  {
    hide Inv, Enabled;
    assert Follows(states[i - 1], steps[i - 1], states[i]);
    if i > k + 1 {
      FlagIsSetOnce(states, steps, k, i - 1);
      RunKeepsInvariant(states, steps, i - 1);
      SetsNotAgain(states[i - 1], steps[i - 1]);
    }
  }

  lemma SetsNotAgain(s: State, step: Step)
    requires Inv(s) && s.exit && Enabled(s, step)
    ensures !step.StopSets?
  {
  }

  /** At any point of any run, the tasks run so far are the first ones pushed, each once and in order. */
  lemma RunInOrder(states: seq<State>, steps: seq<Step>, i: nat)
    requires IsRun(states, steps) && i < |states|
    ensures states[i].ran <= states[i].pushed
  {
    RunKeepsInvariant(states, steps, i);
  }

  /** When the loop has ended, every task that was pushed before the flag was set has been run. */
  lemma ShutdownLosesNothing(states: seq<State>, steps: seq<Step>, k: nat, i: nat)
    requires IsRun(states, steps) && k < i < |states|
    requires steps[k].StopSets? && states[i].loop.Done?
    ensures states[k].pushed <= states[i].ran
  {
    RunKeepsInvariant(states, steps, i);
    FlagIsSetOnce(states, steps, k, i);
    var s := states[i];
    assert s.ran <= s.pushed && s.before <= |s.ran|;
  }

  /** The loop does not end before the flag is set, and `stop` does not return before the loop has ended. */
  lemma EndsOnlyWhenStopped(states: seq<State>, steps: seq<Step>, i: nat)
    requires IsRun(states, steps) && i < |states|
    ensures states[i].loop.Done? ==> states[i].exit
    ensures states[i].stop.Stopped? ==> states[i].loop.Done?
  {
    RunKeepsInvariant(states, steps, i);
  }

  // ----- Nobody is left waiting

  /** No wake-up is lost: a waiting thread with tasks to run is about to be notified. */
  lemma WaitingIsNoticed(states: seq<State>, steps: seq<Step>, i: nat)
    requires IsRun(states, steps) && i < |states|
    requires states[i].loop.Waits? && states[i].tasks != []
    ensures exists p :: p in states[i].pushers && (states[i].pushers[p].ToUnlock? || states[i].pushers[p].ToNotify?)
  {
    RunKeepsInvariant(states, steps, i);
  }

  lemma {:induction false} StaysNotified(states: seq<State>, steps: seq<Step>, k: nat, i: nat)
    requires IsRun(states, steps) && k < i < |states| && steps[k].StopNotifies?
    ensures states[i].stop.Joins? || states[i].stop.Stopped?
  {
    assert Follows(states[i - 1], steps[i - 1], states[i]);
    if i > k + 1 {
      StaysNotified(states, steps, k, i - 1);
    }
  }

  /** After `stop` has set the flag and notified, the loop never waits again. */
  lemma NeverWaitsAgain(states: seq<State>, steps: seq<Step>, k: nat, i: nat)
    requires IsRun(states, steps) && k < i < |states| && steps[k].StopNotifies?
    ensures !states[i].loop.Waits?
  {
    StaysNotified(states, steps, k, i);
    RunKeepsInvariant(states, steps, i);
  }

  /** The step is not one of a thread that begins to push or to stop, nor an unasked wake-up. */
  predicate GetsOn(step: Step) {
    !step.PushBegins? && !step.PushLocks? && !step.StopLocks? && !step.LoopWakesUnasked?
  }

  /** While there are tasks to run, or the flag is set, and the loop has not ended, some thread can get on. */
  lemma SomebodyGetsOn(states: seq<State>, steps: seq<Step>, i: nat)
    requires IsRun(states, steps) && i < |states|
    requires !states[i].loop.Done? && (states[i].tasks != [] || states[i].batch != [] || states[i].exit)
    requires states[i].loop.Waits? ==> states[i].tasks != [] || states[i].exit
    ensures exists step :: Enabled(states[i], step) && GetsOn(step)
  {
    var s := states[i];
    RunKeepsInvariant(states, steps, i);
    var step :=
      match s.mutex
      case Pusher(p) => if s.pushers[p].ToPush? then Pushes(p) else PushUnlocks(p)
      case Stopper => if s.stop.SetsFlag? then StopSets else StopUnlocks
      case _ =>
        match s.loop
        case Enters => LoopLocks
        case Decides => LoopDecides
        case GoesToWait => LoopWaits
        case Waits => if s.exit then StopNotifies else NotifiesNext(s)
        case Wakes => LoopRelocks
        case SavesExit => LoopSavesExit
        case Drains(_) => LoopDrains
        case Leaves(_) => LoopLeaves
        case Runs(_) => if s.batch != [] then LoopRuns else LoopGoesOn
        case ClearLocks => LoopLocksToClear
        case Clears => LoopClears
        case _ => LoopUnlocksAfterClear;
    assert Enabled(s, step) && GetsOn(step);
  }

  /** The thread that is going to notify the loop. */
  ghost function NotifiesNext(s: State): Step
    requires exists p :: p in s.pushers && s.pushers[p].ToNotify?
  {
    var p :| p in s.pushers && s.pushers[p].ToNotify?;
    PushNotifies(p)
  }

  // ----- The loop ends

  predicate OfLoop(step: Step) {
    || step.LoopLocks? || step.LoopDecides? || step.LoopWaits? || step.LoopWakesUnasked? || step.LoopRelocks?
    || step.LoopSavesExit? || step.LoopDrains? || step.LoopLeaves? || step.LoopRuns? || step.LoopGoesOn?
    || step.LoopLocksToClear? || step.LoopClears? || step.LoopUnlocksAfterClear?
  }

  /** How many steps the loop takes until it ends, once it has been notified, if nobody pushes any more. */
  function Remaining(s: State): nat {
    var queued, taken := |s.tasks|, |s.batch|;
    var again := 7 + if queued > 0 then 2 * queued + 5 else 0;
    match s.loop
    case Enters => again + taken
    case Decides => again - 1 + taken
    case GoesToWait | Waits => 0
    case Wakes => 3 * queued + taken + 8
    case SavesExit => 3 * queued + taken + 7
    case Drains(exit) => if exit then 3 * queued + taken + 6 else 2 * queued + taken + 10
    case Leaves(exit) => taken + if exit then queued + 5 else again + 2
    case Runs(exit) => taken + if exit then queued + 4 else again + 1
    case ClearLocks => queued + 3
    case Clears => queued + 2
    case ClearUnlocks => 1
    case Done => 0
  }

  /** Every step of the loop brings it closer to its end, and nothing but a push takes it away. */
  lemma LoopGetsCloser(s: State, step: Step)
    requires Inv(s) && (s.stop.Joins? || s.stop.Stopped?) && Enabled(s, step)
    ensures OfLoop(step) ==> Remaining(After(s, step)) < Remaining(s)
    ensures !step.Pushes? ==> Remaining(After(s, step)) <= Remaining(s)
  {
    hide Excludes, KeepsTasks;
    if OfLoop(step) {
      LoopStepCounts(s, step);
    }
  }

  lemma LoopStepCounts(s: State, step: Step)
    requires Enabled(s, step) && OfLoop(step)
    requires s.exit && !s.loop.GoesToWait? && !s.loop.Waits?
    ensures Remaining(After(s, step)) < Remaining(s)
  {
  }

  /** How many of the steps are the loop's. */
  function LoopSteps(steps: seq<Step>): nat {
    if steps == [] then 0
    else LoopSteps(steps[..|steps| - 1]) + if OfLoop(steps[|steps| - 1]) then 1 else 0
  }

  /**
   Once `stop` has notified, and if nobody pushes any more, the loop takes no more steps than it has
   left, in any interleaving and with any number of spurious wake-ups.
   */
  lemma {:induction false} LoopStepsAreBounded(states: seq<State>, steps: seq<Step>, k: nat, i: nat)
    requires IsRun(states, steps) && k < i < |states| && steps[k].StopNotifies?
    requires forall j :: k < j < i ==> !steps[j].Pushes?
    ensures LoopSteps(steps[k + 1..i]) + Remaining(states[i]) <= Remaining(states[k + 1])
  {
    hide Follows, Remaining, OfLoop;
    if i == k + 1 {
      assert steps[k + 1..i] == [];
    } else {
      LoopStepsAreBounded(states, steps, k, i - 1);
      RunGetsCloser(states, steps, k, i - 1);
      assert steps[k + 1..i][..i - 1 - (k + 1)] == steps[k + 1..i - 1];
    }
  }

  lemma RunGetsCloser(states: seq<State>, steps: seq<Step>, k: nat, i: nat)
    requires IsRun(states, steps) && k < i < |steps| && steps[k].StopNotifies? && !steps[i].Pushes?
    ensures Remaining(states[i + 1]) + (if OfLoop(steps[i]) then 1 else 0) <= Remaining(states[i])
  {
    hide Inv, Remaining, OfLoop, Enabled, After;
    RunKeepsInvariant(states, steps, i);
    StaysNotified(states, steps, k, i);
    assert Follows(states[i], steps[i], states[i + 1]);
    LoopGetsCloser(states[i], steps[i]);
  }

  /** And it is never blocked: it can take a step, or the thread that holds the mutex can. */
  lemma LoopIsNotBlocked(s: State)
    requires Inv(s) && s.stop.Joins?
    ensures s.loop.Done? || (exists step :: OfLoop(step) && Enabled(s, step))
            || (s.mutex.Pusher? && (Enabled(s, Pushes(s.mutex.p)) || Enabled(s, PushUnlocks(s.mutex.p))))
  {
    var step :=
      match s.loop
      case Enters => LoopLocks
      case Decides => LoopDecides
      case GoesToWait => LoopWaits
      case Waits => LoopWakesUnasked
      case Wakes => LoopRelocks
      case SavesExit => LoopSavesExit
      case Drains(_) => LoopDrains
      case Leaves(_) => LoopLeaves
      case Runs(_) => if s.batch != [] then LoopRuns else LoopGoesOn
      case ClearLocks => LoopLocksToClear
      case Clears => LoopClears
      case ClearUnlocks => LoopUnlocksAfterClear
      case Done => StopJoins;
    assert s.loop.Done? || s.mutex.Pusher? || (OfLoop(step) && Enabled(s, step));
  }
}
