/** src/orchestrator/benchmark_orchestrator.cpp with any number of workers, as a
    system of interleaved steps.

    Each worker runs the loop automaton of LoopProtocol against the one shared flag;
    a submission or a poll may throw instead of completing. Stores to the failed flag
    and to the shared flag are separate steps, and a signal may clear the shared flag
    between any two steps. A poll of io_uring may also never return, which leaves its
    worker hung. */
module Orchestrator {
  import opened Types
  import LP = LoopProtocol

  datatype Phase =
    | NotStarted
    | Starting                  // launched, not yet at the barrier
    | AtBarrier
    | Looping(loop: LP.Loop)
    | Caught                    // an exception left the loop
    | Marked                    // failed_ is stored, the shared flag is not yet cleared
    | Gone                      // the thread body has ended
    | Hung                      // waits in a poll that never returns

  /** `uring` says that the job runs on io_uring. */
  datatype WorkerState = WorkerState(depth: nat, uring: bool, phase: Phase, threw: bool, failed: bool, submits: nat)

  datatype Main =
    | Launching(next: nat)
    | Watching                  // the timed loop
    | Joining(next: nat)
    | Scanning(next: nat)
    | Finished(success: bool)

  datatype State = State(workers: seq<WorkerState>, running: bool, main: Main, anyFailed: bool)

  datatype Action =
    | Launch | StopRun | Join | Scan | Report
    | Signal
    | Arrive(w: nat) | Leave(w: nat) | Work(w: nat, e: LP.Event) | Throw(w: nat) | Hang(w: nat)
    | StoreFailed(w: nat) | ClearFlag(w: nat)

  predicate Arrived(w: WorkerState) {
    !w.phase.NotStarted? && !w.phase.Starting?
  }

  predicate AllArrived(s: State) {
    forall i :: 0 <= i < |s.workers| ==> Arrived(s.workers[i])
  }

  function SetWorker(s: State, i: nat, w: WorkerState): State
    requires i < |s.workers|
  {
    s.(workers := s.workers[i := w])
  }

  /** One step; None when it is not enabled. */
  function Next(s: State, a: Action): Option<State> {
    match a
    case Launch => NextLaunch(s)
    case StopRun => if s.main.Watching? then Some(s.(running := false, main := Joining(0))) else None
    case Join => NextJoin(s)
    case Scan => NextScan(s)
    case Report =>
      if s.main.Scanning? && s.main.next == |s.workers| then Some(s.(main := Finished(!s.anyFailed))) else None
    case Signal => Some(s.(running := false))
    case Arrive(i) =>
      if i < |s.workers| && s.workers[i].phase.Starting?
          then Some(SetWorker(s, i, s.workers[i].(phase := AtBarrier))) else None
    case Leave(i) =>
      if i < |s.workers| && s.workers[i].phase.AtBarrier? && AllArrived(s)
      then Some(SetWorker(s, i, s.workers[i].(phase := Looping(LP.Start(s.workers[i].depth))))) else None
    case Work(i, e) => if i < |s.workers| then NextWork(s, i, e) else None
    case Throw(i) => if i < |s.workers| then NextThrow(s, i) else None
    case Hang(i) => if i < |s.workers| then NextHang(s, i) else None
    case StoreFailed(i) =>
      if i < |s.workers| && s.workers[i].phase.Caught?
      then Some(SetWorker(s, i, s.workers[i].(phase := Marked, failed := true))) else None
    case ClearFlag(i) =>
      if i < |s.workers| && s.workers[i].phase.Marked?
      then Some(SetWorker(s, i, s.workers[i].(phase := Gone)).(running := false)) else None
  }

  function NextLaunch(s: State): Option<State> {
    if !s.main.Launching? then None
    else if s.main.next < |s.workers| && s.workers[s.main.next].phase.NotStarted? then
      Some(SetWorker(s, s.main.next, s.workers[s.main.next].(phase := Starting)).(main := Launching(s.main.next + 1)))
    else if s.main.next == |s.workers| then Some(s.(main := Watching))
    else None
  }

  function NextJoin(s: State): Option<State> {
    if !s.main.Joining? then None
    else if s.main.next < |s.workers| then
      if s.workers[s.main.next].phase.Gone? then Some(s.(main := Joining(s.main.next + 1))) else None
    else Some(s.(main := Scanning(0)))
  }

  function NextScan(s: State): Option<State> {
    if s.main.Scanning? && s.main.next < |s.workers| then
      Some(s.(main := Scanning(s.main.next + 1), anyFailed := s.anyFailed || s.workers[s.main.next].failed))
    else None
  }

  /** A loop step; a load reads the shared flag. */
  function NextWork(s: State, i: nat, e: LP.Event): Option<State>
    requires i < |s.workers|
  {
    var w := s.workers[i];
    if !w.phase.Looping? || (e.Load? && e.on != s.running) then None else
      match LP.Step(w.depth, w.phase.loop, e) {
        case None => None
        case Some(loop) =>
          Some(SetWorker(s, i, w.(phase := if loop.pc.Done? then Gone else Looping(loop),
                                  submits := w.submits + if e.Submit? then 1 else 0)))
      }
  }

  /** Only the engine calls throw. */
  function NextThrow(s: State, i: nat): Option<State>
    requires i < |s.workers|
  {
    var w := s.workers[i];
    if w.phase.Looping? && LP.MayThrow(w.phase.loop.pc) then Some(SetWorker(s, i, w.(phase := Caught, threw := true)))
    else None
  }

  /** Only a poll can wait for ever, and only with io_uring. */
  function NextHang(s: State, i: nat): Option<State>
    requires i < |s.workers|
  {
    var w := s.workers[i];
    if w.uring && w.phase.Looping? && LP.MayHang(w.phase.loop.pc)
    then Some(SetWorker(s, i, w.(phase := Hung))) else None
  }

  predicate Init(s: State) {
    && s.running && !s.anyFailed && s.main == Launching(0)
    && (forall i :: 0 <= i < |s.workers| ==>
          var w := s.workers[i]; w.depth >= 1 && w.phase.NotStarted? && !w.threw && !w.failed && w.submits == 0)
  }

  /** A run: the states after each of the actions, or None where one was not enabled. */
  function Run(s: State, actions: seq<Action>): Option<State> {
    if actions == [] then Some(s) else
      match Run(s, actions[..|actions| - 1])
      case None => None
      case Some(t) => Next(t, actions[|actions| - 1])
  }

  // ---------------------------------------------------------------------------
  // The invariant

  ghost predicate WorkerOk(w: WorkerState, running: bool) {
    && w.depth >= 1
    && (w.phase.NotStarted? || w.phase.Starting? || w.phase.AtBarrier? ==> !w.threw && !w.failed && w.submits == 0)
    && (w.phase.Looping? ==>
          && !w.threw && !w.failed && !w.phase.loop.pc.Done?
          && LP.QueueInvariant(w.depth, w.phase.loop) && (w.phase.loop.stopped ==> !running))
    && (w.phase.Hung? ==> w.uring && !w.threw && !w.failed)
    && (w.phase.Caught? ==> w.threw && !w.failed)
    && (w.phase.Marked? ==> w.threw && w.failed)
    && (w.phase.Gone? ==> w.failed == w.threw && !running)
  }

  ghost predicate Inv(s: State) {
    && (forall i :: 0 <= i < |s.workers| ==> WorkerOk(s.workers[i], s.running))
    // a worker past the barrier means that every worker has reached it
    && (forall i :: 0 <= i < |s.workers| && Arrived(s.workers[i]) && !s.workers[i].phase.AtBarrier? ==> AllArrived(s))
    && MainOk(s)
  }

  ghost predicate MainOk(s: State) {
    match s.main
    case Launching(n) =>
      && n <= |s.workers| && !s.anyFailed
      && (forall i :: 0 <= i < |s.workers| ==> (s.workers[i].phase.NotStarted? <==> n <= i))
    case Watching => !s.anyFailed && NoneUnstarted(s)
    case Joining(n) =>
      && n <= |s.workers| && !s.anyFailed && !s.running && NoneUnstarted(s)
      && (forall i :: 0 <= i < n ==> s.workers[i].phase.Gone?)
    case Scanning(n) =>
      && n <= |s.workers| && !s.running && AllGone(s)
      && (s.anyFailed <==> exists i :: 0 <= i < n && s.workers[i].failed)
    case Finished(success) =>
      && !s.running && AllGone(s)
      && (success <==> forall i :: 0 <= i < |s.workers| ==> !s.workers[i].failed)
  }

  ghost predicate NoneUnstarted(s: State) {
    forall i :: 0 <= i < |s.workers| ==> !s.workers[i].phase.NotStarted?
  }

  ghost predicate AllGone(s: State) {
    forall i :: 0 <= i < |s.workers| ==> s.workers[i].phase.Gone?
  }

  lemma InitInv(s: State)
    requires Init(s)
    ensures Inv(s)
  {
  }

  /** Replacing worker i by one that is past the same gates keeps the invariant. */
  lemma WorkerStepInv(s: State, i: nat, w: WorkerState, running: bool)
    requires Inv(s) && i < |s.workers| && (running ==> s.running)
    requires WorkerOk(w, running) && !s.workers[i].phase.NotStarted? && !w.phase.NotStarted?
    requires Arrived(s.workers[i]) ==> Arrived(w)
    requires Arrived(w) && !w.phase.AtBarrier? ==> AllArrived(s)
    requires !s.workers[i].phase.Gone?
    ensures Inv(s.(workers := s.workers[i := w], running := running))
  {
    var t := s.(workers := s.workers[i := w], running := running);
    forall j | 0 <= j < |t.workers| ensures WorkerOk(t.workers[j], t.running) {
      assert WorkerOk(s.workers[j], s.running);
    }
    if AllArrived(s) {
      assert AllArrived(t);
    }
  }

  lemma StepInv(s: State, a: Action)
    requires Inv(s) && Next(s, a).Some?
    ensures Inv(Next(s, a).value)
  {
    match a {
      case Launch | StopRun | Join | Scan | Report | Signal => MainStepInv(s, a);
      case Work(i, e) => WorkInv(s, i, e);
      case Arrive(i) => OwnStepInv(s, a, i);
      case Leave(i) => OwnStepInv(s, a, i);
      case Throw(i) => OwnStepInv(s, a, i);
      case Hang(i) => OwnStepInv(s, a, i);
      case StoreFailed(i) => OwnStepInv(s, a, i);
      case ClearFlag(i) => OwnStepInv(s, a, i);
    }
  }

  lemma WorkInv(s: State, i: nat, e: LP.Event)
    requires Inv(s) && Next(s, Work(i, e)).Some?
    ensures Inv(Next(s, Work(i, e)).value)
  {
    assert WorkerOk(s.workers[i], s.running);
    LP.QueueStep(s.workers[i].depth, s.workers[i].phase.loop, e);
    WorkerStepInv(s, i, Next(s, Work(i, e)).value.workers[i], s.running);
  }

  lemma OwnStepInv(s: State, a: Action, i: nat)
    requires Inv(s) && Next(s, a).Some?
    requires a == Arrive(i) || a == Leave(i) || a == Throw(i) || a == Hang(i) || a == StoreFailed(i) || a
      == ClearFlag(i)
    ensures Inv(Next(s, a).value)
  {
    assert WorkerOk(s.workers[i], s.running);
    WorkerStepInv(s, i, Next(s, a).value.workers[i], s.running && !a.ClearFlag?);
  }

  lemma MainStepInv(s: State, a: Action)
    requires Inv(s) && Next(s, a).Some?
    requires a.Launch? || a.StopRun? || a.Join? || a.Scan? || a.Report? || a.Signal?
    ensures Inv(Next(s, a).value)
  {
  }

  lemma {:induction false} RunInv(s: State, actions: seq<Action>)
    requires Init(s) && Run(s, actions).Some?
    ensures Inv(Run(s, actions).value)
  {
    if actions == [] {
      InitInv(s);
    } else {
      RunInv(s, actions[..|actions| - 1]);
      StepInv(Run(s, actions[..|actions| - 1]).value, actions[|actions| - 1]);
    }
  }

  lemma RunAppend(s: State, actions: seq<Action>, a: Action)
    requires Run(s, actions).Some?
    ensures Run(s, actions + [a]) == Next(Run(s, actions).value, a)
  {
    assert (actions + [a])[..|actions + [a]| - 1] == actions;
  }

  // ---------------------------------------------------------------------------
  // What every run guarantees

  /** No request is submitted before every worker has reached the barrier. */
  lemma SubmitsWaitForTheBarrier(s: State, actions: seq<Action>, i: nat)
    requires Init(s) && Run(s, actions).Some? && i < |s.workers|
    requires i < |Run(s, actions).value.workers| && Run(s, actions).value.workers[i].submits > 0
    ensures AllArrived(Run(s, actions).value)
  {
    RunInv(s, actions);
    var t := Run(s, actions).value;
    assert WorkerOk(t.workers[i], t.running);
  }

  /** The flag is never set again, and what a worker has suffered is never forgotten. */
  lemma {:induction false} RunsAreMonotone(s: State, actions: seq<Action>)
    requires Run(s, actions).Some?
    ensures FurtherOn(s, Run(s, actions).value)
  {
    if actions != [] {
      RunsAreMonotone(s, actions[..|actions| - 1]);
      StepIsMonotone(Run(s, actions[..|actions| - 1]).value, actions[|actions| - 1]);
    }
  }

  lemma StepIsMonotone(s: State, a: Action)
    requires Next(s, a).Some?
    ensures FurtherOn(s, Next(s, a).value)
  {
    match a {
      case Launch | StopRun | Join | Scan | Report | Signal =>
      case Work(i, e) => OneFurtherOn(s, a, i);
      case Arrive(i) => OneFurtherOn(s, a, i);
      case Leave(i) => OneFurtherOn(s, a, i);
      case Throw(i) => OneFurtherOn(s, a, i);
      case Hang(i) => OneFurtherOn(s, a, i);
      case StoreFailed(i) => OneFurtherOn(s, a, i);
      case ClearFlag(i) => OneFurtherOn(s, a, i);
    }
  }

  lemma OneFurtherOn(s: State, a: Action, i: nat)
    requires Next(s, a).Some? && i < |s.workers|
    requires Next(s, a).value.workers == s.workers[i := Next(s, a).value.workers[i]]
    ensures FurtherOn(s, Next(s, a).value)
  {
    var t := Next(s, a).value;
    assert t.running ==> s.running;
    assert Progressed(s.workers[i], t.workers[i]);
    hide Next;
    forall j | 0 <= j < |s.workers| ensures Progressed(s.workers[j], t.workers[j]) {
    }
  }

  /** What a worker never takes back. */
  ghost predicate Progressed(w: WorkerState, w': WorkerState) {
    && w'.depth == w.depth && w'.uring == w.uring && w.submits <= w'.submits
    && (w.threw ==> w'.threw) && (w.failed ==> w'.failed)
    && (w.phase.Hung? ==> w'.phase.Hung?)
  }

  ghost predicate FurtherOn(s: State, t: State) {
    && |t.workers| == |s.workers| && (t.running ==> s.running)
    && forall i :: 0 <= i < |s.workers| ==> Progressed(s.workers[i], t.workers[i])
  }

  /** A finished run: every thread has ended, the reported flags are exactly the workers
      that threw, and the run succeeds exactly when none did. */
  lemma FinishedRunReportsFailures(s: State, actions: seq<Action>)
    requires Init(s) && Run(s, actions).Some? && Run(s, actions).value.main.Finished?
    ensures var t := Run(s, actions).value;
      && AllGone(t)
      && (forall i :: 0 <= i < |t.workers| ==> (t.workers[i].failed <==> t.workers[i].threw))
      && (t.main.success <==> forall i :: 0 <= i < |t.workers| ==> !t.workers[i].threw)
  {
    RunInv(s, actions);
    var t := Run(s, actions).value;
    forall i | 0 <= i < |t.workers| ensures t.workers[i].failed <==> t.workers[i].threw {
      assert WorkerOk(t.workers[i], t.running);
    }
  }

  /** A worker that threw has cleared the flag, or it is one of its own next two steps
      away from that, which nothing can disable. */
  lemma FailureClearsTheFlag(s: State, actions: seq<Action>, i: nat)
    requires Init(s) && Run(s, actions).Some?
    requires i < |Run(s, actions).value.workers| && Run(s, actions).value.workers[i].threw
    ensures var t := Run(s, actions).value;
      || (t.workers[i].phase.Gone? && !t.running)
      || (t.workers[i].phase.Marked? && Next(t, ClearFlag(i)).Some? && !Next(t, ClearFlag(i)).value.running)
      || (t.workers[i].phase.Caught?
            && Run(t, [StoreFailed(i), ClearFlag(i)]).Some? && !Run(t, [StoreFailed(i), ClearFlag(i)]).value.running)
  {
    RunInv(s, actions);
    var t := Run(s, actions).value;
    assert WorkerOk(t.workers[i], t.running);
    if t.workers[i].phase.Caught? {
      hide Inv;
      CaughtClears(t, i);
    }
  }

  lemma CaughtClears(t: State, i: nat)
    requires i < |t.workers| && t.workers[i].phase.Caught?
    ensures Run(t, [StoreFailed(i), ClearFlag(i)]).Some? && !Run(t, [StoreFailed(i), ClearFlag(i)]).value.running
  {
    var marked := Next(t, StoreFailed(i)).value;
    assert Run(t, []) == Some(t);
    RunAppend(t, [], StoreFailed(i));
    RunAppend(t, [StoreFailed(i)], ClearFlag(i));
    assert [StoreFailed(i)] + [ClearFlag(i)] == [StoreFailed(i), ClearFlag(i)]
      && [] + [StoreFailed(i)] == [StoreFailed(i)];
    hide Run;
    assert Run(t, [StoreFailed(i)]) == Some(marked) && marked.workers[i].phase.Marked?;
  }

  /** Between its two steps no other thread can move the failing worker. */
  lemma OthersLeaveItAlone(s: State, a: Action, i: nat)
    requires i < |s.workers| && Next(s, a).Some?
    requires s.workers[i].phase.Caught? || s.workers[i].phase.Marked?
    ensures a == StoreFailed(i) || a == ClearFlag(i) || Next(s, a).value.workers[i] == s.workers[i]
  {
  }

  // ---------------------------------------------------------------------------
  // Once the flag is false, hardly anything is submitted

  /** The worker has read the flag as true and is about to submit because of it. */
  ghost predicate Committed(w: WorkerState) {
    w.phase.Looping? && LP.Committed(w.phase.loop.pc)
  }

  lemma StoppedStepSubmits(s: State, a: Action)
    requires !s.running && Next(s, a).Some?
    ensures var t := Next(s, a).value; !t.running && |t.workers| == |s.workers|
    ensures var t := Next(s, a).value;
      forall i :: 0 <= i < |s.workers| ==>
        t.workers[i].submits + LP.One(Committed(t.workers[i])) <= s.workers[i].submits + LP.One(Committed(s.workers[i]))
  {
  }

  /** Whatever the interleaving: after the flag is cleared each worker starts at most one more
      submission, and none unless it had already read the flag as true. */
  lemma {:induction false} StoppedWorkersSubmitOnce(s: State, actions: seq<Action>)
    requires !s.running && Run(s, actions).Some?
    ensures var t := Run(s, actions).value; !t.running && |t.workers| == |s.workers|
    ensures var t := Run(s, actions).value;
      forall i :: 0 <= i < |s.workers| ==>
        t.workers[i].submits + LP.One(Committed(t.workers[i])) <= s.workers[i].submits + LP.One(Committed(s.workers[i]))
  {
    if actions != [] {
      StoppedWorkersSubmitOnce(s, actions[..|actions| - 1]);
      hide Next, Committed;
      StoppedStepSubmits(Run(s, actions[..|actions| - 1]).value, actions[|actions| - 1]);
    }
  }

  // ---------------------------------------------------------------------------
  // Once the flag is false, the run ends

  /** How many more steps of its own a thread can take once the flag is false. */
  function WorkerRank(w: WorkerState): nat {
    match w.phase
    case NotStarted => 14
    case Starting => 13
    case AtBarrier => 12
    case Looping(loop) => LP.Rank(loop) + 3
    case Caught => 2
    case Marked => 1
    case Gone | Hung => 0
  }

  function Ranks(ws: seq<WorkerState>): nat {
    if ws == [] then 0 else WorkerRank(ws[0]) + Ranks(ws[1..])
  }

  lemma {:induction false} RanksUpdate(ws: seq<WorkerState>, i: nat, w: WorkerState)
    requires i < |ws|
    ensures Ranks(ws[i := w]) == Ranks(ws) - WorkerRank(ws[i]) + WorkerRank(w)
  {
    if i == 0 {
      assert ws[i := w][1..] == ws[1..];
    } else {
      assert ws[i := w][1..] == ws[1..][i - 1 := w];
      RanksUpdate(ws[1..], i - 1, w);
    }
  }

  function MainRank(n: nat, m: Main): int {
    match m
    case Launching(k) => 3 * n + 5 - k
    case Watching => 2 * n + 4
    case Joining(k) => 2 * n + 3 - k
    case Scanning(k) => n + 2 - k
    case Finished(_) => 0
  }

  function Measure(s: State): int {
    Ranks(s.workers) + MainRank(|s.workers|, s.main)
  }

  lemma MeasureIsNatural(s: State)
    requires Inv(s)
    ensures 0 <= Measure(s)
  {
  }

  /** A step of one worker changes the measure by the change of its own rank. */
  lemma OneWorkerSteps(s: State, i: nat, t: State)
    requires i < |s.workers| == |t.workers|
    requires t.workers == s.workers[i := t.workers[i]] && t.main == s.main
    ensures Measure(t) == Measure(s) - WorkerRank(s.workers[i]) + WorkerRank(t.workers[i])
  {
    RanksUpdate(s.workers, i, t.workers[i]);
  }

  lemma StepDecreases(s: State, a: Action)
    requires Inv(s) && !s.running && Next(s, a).Some?
    ensures 0 <= Measure(Next(s, a).value)
    ensures if a.Signal? then Measure(Next(s, a).value) == Measure(s) else Measure(Next(s, a).value) < Measure(s)
  {
    StepInv(s, a);
    MeasureIsNatural(Next(s, a).value);
    hide Inv, Measure;
    match a {
      case Launch | StopRun | Join | Scan | Report | Signal => MainStepDecreases(s, a);
      case Work(i, e) => WorkDecreases(s, i, e);
      case Arrive(i) => OneWorkerSteps(s, i, Next(s, a).value);
      case Leave(i) => OneWorkerSteps(s, i, Next(s, a).value);
      case Throw(i) => OneWorkerSteps(s, i, Next(s, a).value);
      case Hang(i) => OneWorkerSteps(s, i, Next(s, a).value);
      case StoreFailed(i) => OneWorkerSteps(s, i, Next(s, a).value);
      case ClearFlag(i) => OneWorkerSteps(s, i, Next(s, a).value);
    }
  }

  lemma WorkDecreases(s: State, i: nat, e: LP.Event)
    requires Inv(s) && !s.running && Next(s, Work(i, e)).Some?
    ensures Measure(Next(s, Work(i, e)).value) < Measure(s)
  {
    assert WorkerOk(s.workers[i], s.running);
    hide Inv;
    LP.RankDecreases(s.workers[i].depth, s.workers[i].phase.loop, e);
    OneWorkerSteps(s, i, Next(s, Work(i, e)).value);
  }

  lemma MainStepDecreases(s: State, a: Action)
    requires Inv(s) && Next(s, a).Some?
    requires a.Launch? || a.StopRun? || a.Join? || a.Scan? || a.Report? || a.Signal?
    ensures if a.Signal? then Measure(Next(s, a).value) == Measure(s) else Measure(Next(s, a).value) < Measure(s)
  {
    if a.Launch? && s.main.next < |s.workers| {
      RanksUpdate(s.workers, s.main.next, Next(s, a).value.workers[s.main.next]);
    }
  }

  function ThreadSteps(actions: seq<Action>): nat {
    if actions == [] then 0
    else ThreadSteps(actions[..|actions| - 1]) + if actions[|actions| - 1].Signal? then 0 else 1
  }

  /** Once the flag is false the threads together take at most Measure steps: every
      worker leaves its loop, whatever the interleaving. */
  lemma {:induction false} StoppedRunsAreBounded(s: State, actions: seq<Action>)
    requires Inv(s) && !s.running && Run(s, actions).Some?
    ensures var t := Run(s, actions).value;
      Inv(t) && !t.running && ThreadSteps(actions) + Measure(t) <= Measure(s)
  {
    if actions != [] {
      StoppedRunsAreBounded(s, actions[..|actions| - 1]);
      var t := Run(s, actions[..|actions| - 1]).value;
      StepInv(t, actions[|actions| - 1]);
      StepDecreases(t, actions[|actions| - 1]);
      StepIsMonotone(t, actions[|actions| - 1]);
    }
  }

  ghost predicate NoneHung(s: State) {
    forall i :: 0 <= i < |s.workers| ==> !s.workers[i].phase.Hung?
  }

  /** Main joins a worker that is hung, and all other threads have ended or hang too. */
  ghost predicate Blocked(s: State) {
    && s.main.Joining? && s.main.next < |s.workers| && s.workers[s.main.next].phase.Hung?
    && forall i :: 0 <= i < |s.workers| ==> s.workers[i].phase.Gone? || s.workers[i].phase.Hung?
  }

  /** ... and a run is stuck exactly when it is finished or every remaining thread is hung:
      there is no other deadlock at the barrier, at a join or inside a loop. */
  lemma StuckExactly(s: State)
    requires Inv(s) && !s.running
    ensures (forall a :: Next(s, a).Some? ==> a.Signal?) <==> s.main.Finished? || Blocked(s)
  {
    if !s.main.Finished? && !Blocked(s) {
      var a := NextThreadStep(s);
      assert Next(s, a).Some?;
    }
    if s.main.Finished? || Blocked(s) {
      forall a | Next(s, a).Some? ensures a.Signal? {
      }
    }
  }

  /** A step of some thread that is neither a signal nor a thread getting hung. */
  lemma NextThreadStep(s: State) returns (a: Action)
    requires Inv(s) && !s.running && !s.main.Finished? && (!Blocked(s) || NoneHung(s))
    ensures !a.Signal? && !a.Hang? && Next(s, a).Some?
  {
    match s.main {
      case Launching(_) => a := Launch;
      case Watching => a := StopRun;
      case Joining(n) =>
        if n < |s.workers| && s.workers[n].phase.Hung? {
          var i :| 0 <= i < |s.workers| && !s.workers[i].phase.Gone? && !s.workers[i].phase.Hung?;
          a := Unblock(s, i);
        } else {
          a := if n < |s.workers| && !s.workers[n].phase.Gone? then Unblock(s, n) else Join;
        }
      case Scanning(n) => a := if n < |s.workers| then Scan else Report;
    }
  }

  /** A step of worker i, or of one it waits for at the barrier. */
  ghost function Unblock(s: State, i: nat): (a: Action)
    requires Inv(s) && !s.running && NoneUnstarted(s) && i < |s.workers|
    requires !s.workers[i].phase.Gone? && !s.workers[i].phase.Hung?
    ensures !a.Signal? && !a.Hang? && Next(s, a).Some?
  {
    assert WorkerOk(s.workers[i], s.running);
    match s.workers[i].phase
    case Starting => Arrive(i)
    case AtBarrier =>
      if AllArrived(s) then Leave(i)
      else var j :| 0 <= j < |s.workers| && !Arrived(s.workers[j]); Arrive(j)
    case Looping(loop) => Work(i, LP.Continue(s.workers[i].depth, loop.pc))
    case Caught => StoreFailed(i)
    case Marked => ClearFlag(i)
  }

  lemma OnlyHangHangs(s: State, a: Action)
    requires Next(s, a).Some? && !a.Hang? && NoneHung(s)
    ensures NoneHung(Next(s, a).value)
  {
  }

  /** From every state whose flag is false in which no worker is hung, some continuation
      finishes the run. */
  lemma {:induction false} StoppedRunsFinish(s: State) returns (actions: seq<Action>)
    requires Inv(s) && !s.running && NoneHung(s)
    ensures Run(s, actions).Some? && Run(s, actions).value.main.Finished?
    decreases Measure(s)
  {
    MeasureIsNatural(s);
    if s.main.Finished? {
      actions := [];
    } else {
      hide Next, Inv, Measure, NoneHung;
      var a := NextThreadStep(s);
      StepInv(s, a);
      StepDecreases(s, a);
      StepIsMonotone(s, a);
      OnlyHangHangs(s, a);
      var rest := StoppedRunsFinish(Next(s, a).value);
      RunPrepend(s, a, rest);
      actions := [a] + rest;
    }
  }

  /** A stopped run, and so any run after a failure, can be finished if and only if no
      worker is hung in a poll of io_uring. */
  lemma StoppedRunsFinishExactly(s: State)
    requires Inv(s) && !s.running
    ensures (exists actions :: Run(s, actions).Some? && Run(s, actions).value.main.Finished?) <==> NoneHung(s)
  {
    if NoneHung(s) {
      var actions := StoppedRunsFinish(s);
    }
    if actions :| Run(s, actions).Some? && Run(s, actions).value.main.Finished? {
      StoppedRunsAreBounded(s, actions);
      RunsAreMonotone(s, actions);
      forall i | 0 <= i < |s.workers| ensures !s.workers[i].phase.Hung? {
        assert Run(s, actions).value.workers[i].phase.Gone?;
      }
    }
  }

  /** Without a job on io_uring no worker is ever hung. */
  lemma OnlyUringHangs(s: State, actions: seq<Action>)
    requires Init(s) && Run(s, actions).Some?
    requires forall i :: 0 <= i < |s.workers| ==> !s.workers[i].uring
    ensures NoneHung(Run(s, actions).value)
  {
    RunInv(s, actions);
    RunsAreMonotone(s, actions);
    var t := Run(s, actions).value;
    forall i | 0 <= i < |t.workers| ensures !t.workers[i].phase.Hung? {
      assert WorkerOk(t.workers[i], t.running);
    }
  }

  lemma {:induction false} RunPrepend(s: State, a: Action, rest: seq<Action>)
    requires Next(s, a).Some? && Run(Next(s, a).value, rest).Some?
    ensures Run(s, [a] + rest) == Run(Next(s, a).value, rest)
  {
    hide Next;
    var n := |rest|;
    if n == 0 {
      assert [a] + rest == [] + [a] && Run(s, []) == Some(s);
      RunAppend(s, [], a);
    } else {
      assert ([a] + rest)[..n] == [a] + rest[..n - 1];
      RunPrepend(s, a, rest[..n - 1]);
    }
  }

  // ---------------------------------------------------------------------------
  // A run that is stuck

  function OneWorker(phase: Phase, submits: nat): seq<WorkerState> {
    [WorkerState(1, true, phase, false, false, submits)]
  }

  function With(phase: Phase, submits: nat, main: Main): State {
    State(OneWorker(phase, submits), true, main, false)
  }

  function At(pc: LP.Pc, inFlight: nat): Phase {
    Looping(LP.Loop(pc, inFlight, false))
  }

  /** One job on io_uring whose only submission stays buffered: its worker is hung, and the
      stop of the run ends in a join that never returns. */
  lemma BlockedCanBeReached() returns (s: State, actions: seq<Action>)
    ensures Init(s) && Run(s, actions).Some? && Blocked(Run(s, actions).value) && !Run(s, actions).value.running
  {
    s := With(NotStarted, 0, Launching(0));
    var launched := With(Starting, 0, Watching);
    assert Run(s, []) == Some(s);
    hide Run;
    assert Next(s, Launch) == Some(With(Starting, 0, Launching(1))) by { Moved(NotStarted, 0, Starting, 0); }
    actions := Then(s, [], Launch, With(Starting, 0, Launching(1)));
    actions := Then(s, actions, Launch, launched);
    actions := UntilHung(s, actions);
    actions := Then(s, actions, StopRun, With(Hung, 1, Joining(0)).(running := false));
  }

  lemma UntilHung(s: State, launched: seq<Action>) returns (actions: seq<Action>)
    requires Run(s, launched) == Some(With(Starting, 0, Watching))
    ensures Run(s, actions) == Some(With(Hung, 1, Watching))
  {
    hide Run, Next, With;
    BarrierSteps();
    LoadStep();
    SubmitStep();
    HangStep();
    actions := Then(s, launched, Arrive(0), With(AtBarrier, 0, Watching));
    actions := Then(s, actions, Leave(0), With(At(LP.SyncHead, 0), 0, Watching));
    actions := Then(s, actions, Work(0, LP.Load(true)), With(At(LP.SyncSubmit, 0), 0, Watching));
    actions := Then(s, actions, Work(0, LP.Submit), With(At(LP.SyncPoll, 1), 1, Watching));
    actions := Then(s, actions, Hang(0), With(Hung, 1, Watching));
  }

  lemma BarrierSteps()
    ensures Next(With(Starting, 0, Watching), Arrive(0)) == Some(With(AtBarrier, 0, Watching))
    ensures Next(With(AtBarrier, 0, Watching), Leave(0)) == Some(With(At(LP.SyncHead, 0), 0, Watching))
  {
    Moved(Starting, 0, AtBarrier, 0);
    Moved(AtBarrier, 0, At(LP.SyncHead, 0), 0);
  }

  lemma LoadStep()
    ensures Next(With(At(LP.SyncHead, 0), 0, Watching), Work(0, LP.Load(true)))
            == Some(With(At(LP.SyncSubmit, 0), 0, Watching))
  {
    Moved(At(LP.SyncHead, 0), 0, At(LP.SyncSubmit, 0), 0);
  }

  lemma SubmitStep()
    ensures Next(With(At(LP.SyncSubmit, 0), 0, Watching), Work(0, LP.Submit))
            == Some(With(At(LP.SyncPoll, 1), 1, Watching))
  {
    Moved(At(LP.SyncSubmit, 0), 0, At(LP.SyncPoll, 1), 1);
  }

  lemma HangStep()
    ensures Next(With(At(LP.SyncPoll, 1), 1, Watching), Hang(0)) == Some(With(Hung, 1, Watching))
  {
    Moved(At(LP.SyncPoll, 1), 1, Hung, 1);
  }

  lemma Moved(from: Phase, m: nat, to: Phase, n: nat)
    ensures OneWorker(from, m)[0 := OneWorker(to, n)[0]] == OneWorker(to, n)
  {
  }

  ghost function Then(s: State, actions: seq<Action>, a: Action, t: State): (r: seq<Action>)
    requires Run(s, actions).Some? && Next(Run(s, actions).value, a) == Some(t)
    ensures Run(s, r) == Some(t)
  {
    RunAppend(s, actions, a);
    actions + [a]
  }
}
