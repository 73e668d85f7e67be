/**
 * Graceful shutdown: a one-shot signal, handles that hand out guards, and a counter of guards that
 * shutdown waits for.
 *
 * Every handle is created with at most one guard, so a guard is named after its handle. Each atomic
 * counter update, poll and channel operation is one step; steps interleave freely.
 */
module GracefulShutdown {
  import Sorting

  type HandleId = nat
  type CallId = nat

  /** The one-shot channel behind every clone of the shutdown future. */
  datatype Channel = Open | Sent | Closed

  datatype Event = Panic | ShutdownRequested

  /** `signal` says whether the manager still holds the sending half. */
  datatype Manager = Running(signal: bool) | Finished(ok: bool, signal: bool) | Gone

  /** A call of `graceful_shutdown_with_timeout` that has sent its request. */
  datatype Waiter = Waiting | Returned(completed: bool)

  datatype State = State(
    counter: nat,
    /** Handles in existence and whether they still hold their guard. */
    handles: map<HandleId, bool>,
    /** Guards handed out and not yet dropped. */
    handedOut: set<HandleId>,
    /** Handles ever created. */
    used: set<HandleId>,
    /** Handles whose polls returned a guard, in order; kept for the proofs only. */
    given: seq<HandleId>,
    events: seq<Event>,
    manager: Manager,
    channel: Channel,
    waiters: map<CallId, Waiter>)

  const INITIAL := State(0, map[], {}, {}, [], [], Running(true), Open, map[])

  /** Handles that still hold their guard. */
  function Holding(handles: map<HandleId, bool>): set<HandleId> {
    set h | h in handles && handles[h]
  }

  function LiveGuards(s: State): set<HandleId> {
    Holding(s.handles) + s.handedOut
  }

  /** Polling a shutdown future: ready once the channel was sent to or closed. */
  predicate IsResolved(s: State) {
    !s.channel.Open?
  }

  // ---------------------------------------------------------------- handles and guards

  /** A new handle with a new guard. */
  ghost predicate Spawn(s: State, s': State, h: HandleId) {
    && h !in s.used
    && s' == s.(counter := s.counter + 1, handles := s.handles[h := true], used := s.used + {h})
  }

  /** The clone gets a guard of its own if the original still has one. */
  ghost predicate Clone(s: State, s': State, h: HandleId, clone: HandleId) {
    && h in s.handles && clone !in s.used
    && s' == s.(
         counter := if s.handles[h] then s.counter + 1 else s.counter,
         handles := s.handles[clone := s.handles[h]],
         used := s.used + {clone})
  }

  /** A ready poll takes the guard out of the handle; a poll after that panics. */
  ghost predicate Poll(s: State, s': State, h: HandleId) {
    && h in s.handles
    && s' == if IsResolved(s) && s.handles[h]
             then s.(handles := s.handles[h := false], handedOut := s.handedOut + {h}, given := s.given + [h])
             else s
  }

  ghost predicate DropHandle(s: State, s': State, h: HandleId) {
    && h in s.handles && (s.handles[h] ==> s.counter > 0)
    && s' == s.(counter := if s.handles[h] then s.counter - 1 else s.counter, handles := s.handles - {h})
  }

  ghost predicate DropGuard(s: State, s': State, h: HandleId) {
    h in s.handedOut && s.counter > 0 && s' == s.(counter := s.counter - 1, handedOut := s.handedOut - {h})
  }

  // ---------------------------------------------------------------- the manager

  ghost predicate TaskPanics(s: State, s': State) {
    s' == s.(events := s.events + [Panic])
  }

  /** The manager takes the next event; only a shutdown request makes it fire the signal. */
  ghost predicate Receive(s: State, s': State) {
    && s.manager.Running? && s.events != []
    && s' == (if s.events[0].Panic? then s.(manager := Finished(false, s.manager.signal))
              else FireSignal(s)).(events := s.events[1..])
  }

  /** No sender is left and no event is queued. */
  ghost predicate SendersGone(s: State, s': State) {
    s.manager.Running? && s.events == [] && s' == FireSignal(s)
  }

  function FireSignal(s: State): State
    requires s.manager.Running?
  {
    s.(manager := Finished(true, false), channel := if s.manager.signal then Sent else s.channel)
  }

  /** The manager is dropped after finishing, or aborted while running; a held signal closes. */
  ghost predicate DropManager(s: State, s': State) {
    && !s.manager.Gone?
    && s' == s.(manager := Gone, channel := if s.manager.signal then Closed else s.channel)
  }

  // ---------------------------------------------------------------- waiting for shutdown

  ghost predicate RequestShutdown(s: State, s': State, c: CallId) {
    c !in s.waiters && s' == s.(events := s.events + [ShutdownRequested], waiters := s.waiters[c := Waiting])
  }

  /** Reads the counter; returns when it is zero, or past the deadline. */
  ghost predicate CheckCounter(s: State, s': State, c: CallId, pastDeadline: bool) {
    && c in s.waiters && s.waiters[c].Waiting?
    && s' == if s.counter == 0 then s.(waiters := s.waiters[c := Returned(true)])
             else if pastDeadline then s.(waiters := s.waiters[c := Returned(false)])
             else s
  }

  datatype Step =
    | SpawnStep(h: HandleId)
    | CloneStep(h: HandleId, clone: HandleId)
    | PollStep(h: HandleId)
    | DropHandleStep(h: HandleId)
    | DropGuardStep(h: HandleId)
    | TaskPanicsStep
    | ReceiveStep
    | SendersGoneStep
    | DropManagerStep
    | RequestStep(c: CallId)
    | CheckStep(c: CallId, pastDeadline: bool)

  ghost predicate Takes(s: State, s': State, step: Step) {
    match step
    case SpawnStep(h) => Spawn(s, s', h)
    case CloneStep(h, clone) => Clone(s, s', h, clone)
    case PollStep(h) => Poll(s, s', h)
    case DropHandleStep(h) => DropHandle(s, s', h)
    case DropGuardStep(h) => DropGuard(s, s', h)
    case TaskPanicsStep => TaskPanics(s, s')
    case ReceiveStep => Receive(s, s')
    case SendersGoneStep => SendersGone(s, s')
    case DropManagerStep => DropManager(s, s')
    case RequestStep(c) => RequestShutdown(s, s', c)
    case CheckStep(c, pastDeadline) => CheckCounter(s, s', c, pastDeadline)
  }

  ghost predicate Next(s: State, s': State) {
    exists step :: Takes(s, s', step)
  }

  ghost predicate IsRun(run: seq<State>) {
    run != [] && run[0] == INITIAL && forall i :: 0 <= i < |run| - 1 ==> Next(run[i], run[i + 1])
  }

  // ---------------------------------------------------------------- the invariant

  predicate CountOk(s: State) {
    s.counter == |LiveGuards(s)|
  }

  ghost predicate IdsOk(s: State) {
    && (forall h :: h in s.handles || h in s.handedOut || h in s.given ==> h in s.used)
    && (forall h :: h in s.handedOut ==> h in s.given)
    && (forall h :: h in s.given && h in s.handles ==> !s.handles[h])
    && Sorting.NoRepeats(s.given)
  }

  ghost predicate GuardsOk(s: State) {
    CountOk(s) && IdsOk(s)
  }

  /** The channel is open exactly while the manager holds the signal. */
  predicate SignalOk(s: State) {
    s.channel.Open? <==> !s.manager.Gone? && s.manager.signal
  }

  lemma LiveGuardsRemove(s: State, s': State, h: HandleId)
    requires LiveGuards(s') == LiveGuards(s) - {h} && h in LiveGuards(s)
    ensures |LiveGuards(s')| == |LiveGuards(s)| - 1
  {
  }

  lemma HoldingInsert(handles: map<HandleId, bool>, h: HandleId, guarded: bool)
    requires h !in handles
    ensures Holding(handles[h := guarded]) == Holding(handles) + (if guarded then {h} else {})
  {
  }

  lemma HoldingRemove(handles: map<HandleId, bool>, h: HandleId)
    ensures Holding(handles - {h}) == Holding(handles) - {h}
    ensures h in Holding(handles) <==> h in handles && handles[h]
  {
  }

  lemma FreshHandle(s: State, h: HandleId)
    requires IdsOk(s) && h !in s.used
    ensures h !in s.handles && h !in s.handedOut
  {
  }

  lemma GuardStillInside(s: State, h: HandleId)
    requires IdsOk(s) && h in s.handles && s.handles[h]
    ensures h !in s.handedOut
  {
  }

  lemma OneMoreGuard(s: State, s': State, h: HandleId)
    requires CountOk(s) && h !in LiveGuards(s)
    requires s'.counter == s.counter + 1 && s'.handedOut == s.handedOut
    requires Holding(s'.handles) == Holding(s.handles) + {h}
    ensures CountOk(s')
  {
    hide Holding;
    assert LiveGuards(s') == LiveGuards(s) + {h};
  }

  lemma SpawnCounts(s: State, s': State, h: HandleId)
    requires GuardsOk(s) && Spawn(s, s', h)
    ensures CountOk(s')
  {
    hide IdsOk, CountOk, Holding;
    FreshHandle(s, h);
    HoldingInsert(s.handles, h, true);
    HoldingRemove(s.handles, h);
    OneMoreGuard(s, s', h);
  }

  lemma CloneCounts(s: State, s': State, h: HandleId, clone: HandleId)
    requires GuardsOk(s) && Clone(s, s', h, clone)
    ensures CountOk(s')
  {
    hide IdsOk, Holding;
    FreshHandle(s, clone);
    HoldingInsert(s.handles, clone, s.handles[h]);
    HoldingRemove(s.handles, clone);
    if s.handles[h] {
      hide CountOk;
      OneMoreGuard(s, s', clone);
    } else {
      assert LiveGuards(s') == LiveGuards(s);
    }
  }

  lemma PollCounts(s: State, s': State, h: HandleId)
    requires CountOk(s) && Poll(s, s', h)
    ensures CountOk(s')
  {
    assert LiveGuards(s') == LiveGuards(s);
  }

  lemma DropHandleCounts(s: State, s': State, h: HandleId)
    requires GuardsOk(s) && DropHandle(s, s', h)
    ensures CountOk(s')
  {
    HoldingRemove(s.handles, h);
    if s.handles[h] {
      GuardStillInside(s, h);
      hide IdsOk, Holding;
      assert LiveGuards(s') == LiveGuards(s) - {h};
      LiveGuardsRemove(s, s', h);
    } else {
      hide IdsOk, Holding;
      assert LiveGuards(s') == LiveGuards(s);
    }
  }

  lemma DropGuardCounts(s: State, s': State, h: HandleId)
    requires GuardsOk(s) && DropGuard(s, s', h)
    ensures CountOk(s')
  {
    assert LiveGuards(s') == LiveGuards(s) - {h};
    LiveGuardsRemove(s, s', h);
  }

  lemma StepKeepsIds(s: State, s': State, step: Step)
    requires IdsOk(s) && Takes(s, s', step)
    ensures IdsOk(s')
  {
  }

  /** Dropping never finds the counter at zero. */
  lemma DropNeverUnderflows(s: State, h: HandleId)
    requires GuardsOk(s) && ((h in s.handles && s.handles[h]) || h in s.handedOut)
    ensures s.counter > 0
  {
    assert h in LiveGuards(s);
  }

  lemma StepKeepsGuards(s: State, s': State, step: Step)
    requires GuardsOk(s) && Takes(s, s', step)
    ensures GuardsOk(s')
  {
    StepKeepsIds(s, s', step);
    hide IdsOk;
    if {
      case step.SpawnStep? => SpawnCounts(s, s', step.h);
      case step.CloneStep? => CloneCounts(s, s', step.h, step.clone);
      case step.PollStep? => PollCounts(s, s', step.h);
      case step.DropHandleStep? => DropHandleCounts(s, s', step.h);
      case step.DropGuardStep? => DropGuardCounts(s, s', step.h);
      case s'.handles == s.handles && s'.handedOut == s.handedOut && s'.counter == s.counter =>
    }
  }

  lemma StepKeepsSignal(s: State, s': State, step: Step)
    requires SignalOk(s) && Takes(s, s', step)
    ensures SignalOk(s')
    ensures IsResolved(s) ==> IsResolved(s')
    ensures s.manager.Gone? ==> s'.manager.Gone?
  {
  }

  lemma {:induction false} EveryRunCounts(run: seq<State>, i: nat)
    requires IsRun(run) && i < |run|
    ensures GuardsOk(run[i]) && SignalOk(run[i])
  {
    if i > 0 {
      EveryRunCounts(run, i - 1);
      hide GuardsOk, SignalOk, Takes;
      var step := RunSteps(run, i);
      StepKeepsGuards(run[i - 1], run[i], step);
      StepKeepsSignal(run[i - 1], run[i], step);
    }
  }

  /** Each handle gives out its guard at most once. */
  lemma EachGuardGivenOnce(run: seq<State>, i: nat, k: nat, l: nat)
    requires IsRun(run) && i < |run| && k < l < |run[i].given|
    ensures run[i].given[k] != run[i].given[l]
  {
    EveryRunCounts(run, i);
    hide IsRun;
  }

  lemma RunSteps(run: seq<State>, i: nat) returns (step: Step)
    requires IsRun(run) && 0 < i < |run|
    ensures Takes(run[i - 1], run[i], step)
  {
    hide Takes;
    assert Next(run[i - 1], run[i - 1 + 1]);
    step :| Takes(run[i - 1], run[i], step);
  }

  /** Once the manager is gone, for whatever reason, every shutdown future stays resolved. */
  lemma {:induction false} ExitResolvesAll(run: seq<State>, i: nat, j: nat)
    requires IsRun(run) && i <= j < |run| && run[i].manager.Gone?
    ensures run[j].manager.Gone? && IsResolved(run[j])
    decreases j - i
  {
    hide IsRun, GuardsOk, Takes;
    if i < j {
      ExitResolvesAll(run, i, j - 1);
      EveryRunCounts(run, j - 1);
      var step := RunSteps(run, j);
      StepKeepsSignal(run[j - 1], run[j], step);
    } else {
      EveryRunCounts(run, j);
    }
  }

  lemma OtherStepsKeepWaiters(s: State, s': State, step: Step)
    requires Takes(s, s', step) && !step.RequestStep? && !step.CheckStep?
    ensures s'.waiters == s.waiters
  {
    hide LiveGuards;
  }

  lemma StepOfWaiter(s: State, s': State, step: Step, c: CallId)
    requires GuardsOk(s) && Takes(s, s', step) && c in s'.waiters && s'.waiters[c].Returned?
    ensures c in s.waiters
    ensures s.waiters[c] == s'.waiters[c]
            || (s.waiters[c].Waiting? && (s'.waiters[c].completed <==> LiveGuards(s) == {}))
  {
    assert s.counter == 0 <==> LiveGuards(s) == {};
    hide GuardsOk, CountOk, IdsOk, LiveGuards, Holding;
    if !step.RequestStep? && !step.CheckStep? {
      hide Takes;
      OtherStepsKeepWaiters(s, s', step);
    }
  }

  /**
   * A shutdown call returns true only after a moment, following its request, without any live
   * guard; it returns false only after a moment with one.
   */
  lemma {:induction false} ReturnsTrueAfterQuiet(run: seq<State>, i: nat, c: CallId) returns (k: nat)
    requires IsRun(run) && i < |run| && c in run[i].waiters && run[i].waiters[c].Returned?
    ensures k < i && c in run[k].waiters && run[k].waiters[c].Waiting?
    ensures run[i].waiters[c].completed <==> LiveGuards(run[k]) == {}
  {
    if i > 0 {
      EveryRunCounts(run, i - 1);
      hide GuardsOk, Takes, LiveGuards;
      var step := RunSteps(run, i);
      StepOfWaiter(run[i - 1], run[i], step, c);
      if run[i - 1].waiters[c].Waiting? {
        k := i - 1;
      } else {
        k := ReturnsTrueAfterQuiet(run, i - 1, c);
      }
    }
  }

  /** The manager reports an error exactly when the event it stopped at was a panic. */
  ghost predicate StopsWith(s: State, ok: bool) {
    && s.manager.Running?
    && (ok ==> s.events == [] || s.events[0] == ShutdownRequested)
    && (!ok ==> s.events != [] && s.events[0] == Panic)
  }

  lemma StepFinishes(s: State, s': State, step: Step)
    requires Takes(s, s', step) && SignalOk(s) && s'.manager.Finished?
    ensures StopsWith(s, s'.manager.ok) || s.manager == s'.manager
    ensures s.manager.Running? && s'.manager.ok ==> !s'.channel.Open?
    ensures s.manager.Running? && !s'.manager.ok ==> s'.channel == s.channel
  {
  }

  /**
   * A manager that finished well stopped at a shutdown request or with no sender left, and every
   * shutdown future is resolved; one that failed stopped at a task's panic.
   */
  lemma {:induction false} FinishedWhy(run: seq<State>, i: nat) returns (k: nat)
    requires IsRun(run) && i < |run| && run[i].manager.Finished?
    ensures k < i && StopsWith(run[k], run[i].manager.ok)
    ensures run[i].manager.ok ==> IsResolved(run[i])
  {
    hide GuardsOk, Takes;
    if i > 0 {
      EveryRunCounts(run, i - 1);
      var step := RunSteps(run, i);
      StepFinishes(run[i - 1], run[i], step);
      StepKeepsSignal(run[i - 1], run[i], step);
      if run[i - 1].manager == run[i].manager {
        k := FinishedWhy(run, i - 1);
      } else {
        k := i - 1;
      }
    }
  }

  /** A clone holds a guard exactly if its original does, and that guard is one more. */
  lemma CloneGuardsAlike(s: State, s': State, h: HandleId, clone: HandleId)
    requires GuardsOk(s) && Clone(s, s', h, clone)
    ensures clone in s'.handles && h in s'.handles && s'.handles[clone] == s'.handles[h] == s.handles[h]
    ensures LiveGuards(s') == LiveGuards(s) + (if s.handles[h] then {clone} else {})
    ensures |LiveGuards(s')| == |LiveGuards(s)| + (if s.handles[h] then 1 else 0)
  {
    HoldingInsert(s.handles, clone, s.handles[h]);
    FreshHandle(s, clone);
    HoldingRemove(s.handles, clone);
    hide Holding;
    assert clone !in LiveGuards(s);
  }

  /** A resolved poll moves the guard to its caller, the guards and their number staying as they are. */
  lemma PollHandsOver(s: State, s': State, h: HandleId)
    requires GuardsOk(s) && Poll(s, s', h) && s.channel != Open
    ensures LiveGuards(s') == LiveGuards(s) && |LiveGuards(s')| == s'.counter
    ensures h in s'.handles && !s'.handles[h]
    ensures s.handles[h] ==> h in s'.handedOut && s'.given == s.given + [h]
    ensures !s.handles[h] ==> s' == s
  {
    assert LiveGuards(s') == LiveGuards(s);
  }

  /** A waiter that looks while no guard is alive returns true at once. */
  lemma QuietCheckReturns(s: State, s': State, c: CallId, pastDeadline: bool)
    requires GuardsOk(s) && CheckCounter(s, s', c, pastDeadline)
    ensures LiveGuards(s) == {} ==> c in s'.waiters && s'.waiters[c] == Returned(true)
    ensures LiveGuards(s) != {} ==>
              c in s'.waiters && s'.waiters[c] == if pastDeadline then Returned(false) else Waiting
  {
    hide IdsOk, Holding, LiveGuards;
    assert s.counter == 0 <==> LiveGuards(s) == {};
  }
}
