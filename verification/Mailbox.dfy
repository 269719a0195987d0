/** src/display/qt/run_mailbox.cpp and its consumer in src/display/qt/qt_main_window.cpp:
    how a run thread hands its context, snapshots and results to the GUI.

    Every mailbox operation is one atomic step (a mutex or an atomic variable); the two
    threads interleave between steps. Snapshots are numbered in the order in which they are
    published, and 0 is the empty snapshot a mailbox starts with. */
module Mailbox {
  import opened Types

  datatype Phase = Idle | Running | Finished

  /** The final results, with the rows of their time series. */
  datatype Report = Report(id: nat, series: seq<nat>)

  /** The fields of the mailbox. */
  datatype Box = Box(
    latest: nat, context: Option<nat>, results: Option<Report>, phase: Phase,
    runtime: int, sequence: nat, stopRequested: bool)

  const EMPTY_BOX := Box(0, None, None, Idle, 0, 0, false)

  class RunMailbox {
    var latest: nat
    var context: Option<nat>
    var results: Option<Report>
    var phase: Phase
    var runtime: int
    var sequence: nat
    var stopRequested: bool

    ghost function View(): Box
      reads this
    {
      Box(latest, context, results, phase, runtime, sequence, stopRequested)
    }

    constructor ()
      ensures View() == EMPTY_BOX
    {
      latest, context, results, phase := 0, None, None, Idle;
      runtime, sequence, stopRequested := 0, 0, false;
    }

    method SetRuntime(seconds: int)
      modifies this`runtime, this`phase
      ensures View() == old(View()).(runtime := seconds, phase := Running)
    {
      runtime := seconds;
      phase := Running;
    }

    method PublishContext(c: nat)
      modifies this`context
      ensures View() == old(View()).(context := Some(c))
    {
      context := Some(c);
    }

    method PublishSnapshot(snapshot: nat)
      modifies this`latest, this`sequence
      ensures View() == old(View()).(latest := snapshot, sequence := old(sequence) + 1)
    {
      latest := snapshot;
      sequence := sequence + 1;
    }

    method PublishResults(r: Report)
      modifies this`results, this`phase, this`sequence
      ensures View() == old(View()).(results := Some(r), phase := Finished, sequence := old(sequence) + 1)
    {
      results := Some(r);
      phase := Finished;
      sequence := sequence + 1;
    }

    method MarkShutdown()
      modifies this`phase
      ensures View() == old(View()).(phase := Finished)
    {
      phase := Finished;
    }

    method TakeContext() returns (taken: Option<nat>)
      modifies this`context
      ensures taken == old(context) && View() == old(View()).(context := None)
    {
      if context.None? {
        return None;
      }
      taken := context;
      context := None;
    }

    method TakeResults() returns (taken: Option<Report>)
      modifies this`results
      ensures taken == old(results) && View() == old(View()).(results := None)
    {
      if results.None? {
        return None;
      }
      taken := results;
      results := None;
    }

    method RequestStop()
      modifies this`stopRequested
      ensures View() == old(View()).(stopRequested := true)
    {
      stopRequested := true;
    }
  }

  // ---------------------------------------------------------------------------
  // The two threads

  /** Where the run thread stands. An exception leads to Unwinding, where the display
      scope marks the shutdown, or to Last when there is no display yet. */
  datatype RunPc = Before | Entered | ContextSent | Live | Unwinding | Last | Over

  /** Where OnTick stands; the phase is the one read at its first step. */
  datatype GuiPc =
    | Waiting
    | PhaseRead(phase: Phase)
    | ContextTaken(phase: Phase)
    | Behind(phase: Phase)      // saw a new sequence, has not yet copied the snapshot
    | Ending                    // a finishing tick, before the results are taken
    | ResultsTaken
    | Stopped                   // the timer is stopped

  datatype Gui = Gui(pc: GuiPc, lastSequence: nat, history: seq<nat>, contexts: seq<nat>, results: seq<Report>)

  /** `published` counts snapshots; `context` and `results` are what was ever published. */
  datatype State = State(box: Box, run: RunPc, published: nat, context: Option<nat>, results: Option<Report>, gui: Gui)

  const START := State(EMPTY_BOX, Before, 0, None, None, Gui(Waiting, 0, [], [], []))

  datatype Action =
    | Enter | SendContext(c: nat) | SendRuntime(seconds: int) | SendSnapshot | SendResults(r: Report)
    | Fail | ScopeShutdown | FinalShutdown
    | ReadPhase | TakeContext | ReadSequence | CopySnapshot | TakeResults | MarkFinished | ClickStop

  function Next(s: State, a: Action): Option<State> {
    if IsRunAction(a) then NextOfRun(s, a) else NextOfGui(s, a)
  }

  predicate IsRunAction(a: Action) {
    a.Enter? || a.SendContext? || a.SendRuntime? || a.SendSnapshot? || a.SendResults? || a.Fail?
    || a.ScopeShutdown? || a.FinalShutdown?
  }

  function NextOfRun(s: State, a: Action): Option<State> {
    var b := s.box;
    match (a, s.run)
    case (Enter, Before) => Some(s.(run := Entered))
    case (SendContext(c), Entered) => Some(s.(run := ContextSent, context := Some(c), box := b.(context := Some(c))))
    case (SendRuntime(t), ContextSent) => Some(s.(run := Live, box := b.(runtime := t, phase := Running)))
    case (SendSnapshot, Live) =>
      Some(s.(published := s.published + 1, box := b.(latest := s.published + 1, sequence := b.sequence + 1)))
    case (SendResults(r), Live) =>
      Some(s.(run := Unwinding, results := Some(r),
              box := b.(results := Some(r), phase := Finished, sequence := b.sequence + 1)))
    case (Fail, Before) => Some(s.(run := Last))
    case (Fail, Entered) => Some(s.(run := Unwinding))
    case (Fail, ContextSent) => Some(s.(run := Unwinding))
    case (Fail, Live) => Some(s.(run := Unwinding))
    case (ScopeShutdown, Unwinding) => Some(s.(run := Last, box := b.(phase := Finished)))
    case (FinalShutdown, Last) => Some(s.(run := Over, box := b.(phase := Finished)))
    case _ => None
  }

  function AfterSnapshot(phase: Phase): GuiPc {
    if phase == Finished then Ending else Waiting
  }

  function NextOfGui(s: State, a: Action): Option<State> {
    var g, b := s.gui, s.box;
    match (a, g.pc)
    case (ReadPhase, Waiting) => Some(s.(gui := g.(pc := PhaseRead(b.phase))))
    case (TakeContext, PhaseRead(p)) =>
      Some(s.(box := b.(context := None),
              gui := g.(pc := ContextTaken(p), contexts := g.contexts + AsSeq(b.context))))
    case (ReadSequence, ContextTaken(p)) =>
      Some(s.(gui := if b.sequence != g.lastSequence then g.(pc := Behind(p), lastSequence := b.sequence)
                     else g.(pc := AfterSnapshot(p))))
    case (CopySnapshot, Behind(p)) =>
      Some(s.(gui := g.(pc := AfterSnapshot(p), history := g.history + [b.latest])))
    case (TakeResults, Ending) =>
      Some(s.(box := b.(results := None),
              gui := g.(pc := ResultsTaken, results := g.results + if b.results.Some? then [b.results.value] else [])))
    case (MarkFinished, ResultsTaken) => Some(s.(gui := g.(pc := Stopped)))
    case (ClickStop, Waiting) => Some(s.(box := b.(stopRequested := true)))
    case (ClickStop, Stopped) => Some(s.(box := b.(stopRequested := true)))
    case _ => None
  }

  function Run(actions: seq<Action>): Option<State> {
    if actions == [] then Some(START) else
      match Run(actions[..|actions| - 1])
      case None => None
      case Some(s) => Next(s, actions[|actions| - 1])
  }

  lemma RunAppend(actions: seq<Action>, a: Action)
    requires Run(actions).Some?
    ensures Run(actions + [a]) == Next(Run(actions).value, a)
  {
    assert (actions + [a])[..|actions + [a]| - 1] == actions;
  }

  // ---------------------------------------------------------------------------
  // The invariant

  /** The run thread publishes nothing any more. */
  predicate Silent(run: RunPc) {
    run.Unwinding? || run.Last? || run.Over?
  }

  function Newest(history: seq<nat>): nat {
    if history == [] then 0 else history[|history| - 1]
  }

  function AsSeq<T>(o: Option<T>): seq<T> {
    if o.Some? then [o.value] else []
  }

  /** The GUI acts on a phase Finished it has read. */
  predicate Finishing(pc: GuiPc) {
    pc.Ending? || pc.ResultsTaken? || pc.Stopped?
    || ((pc.PhaseRead? || pc.ContextTaken? || pc.Behind?) && pc.phase == Finished)
  }

  predicate ResultsHandled(pc: GuiPc) {
    pc.ResultsTaken? || pc.Stopped?
  }

  predicate CaughtUp(pc: GuiPc) {
    pc.Ending? || pc.ResultsTaken? || pc.Stopped?
  }

  /** Rows in the order of publication; a snapshot may be copied more than once. */
  ghost predicate Ordered(history: seq<nat>) {
    forall i, j :: 0 <= i < j < |history| ==> history[i] <= history[j]
  }

  /** No row is the empty snapshot. */
  ghost predicate NoBlanks(history: seq<nat>) {
    forall i :: 0 <= i < |history| ==> history[i] >= 1
  }

  ghost predicate RunInv(s: State) {
    && s.box.latest == s.published
    && s.box.sequence == s.published + (if s.results.Some? then 1 else 0)
    && (s.run.Before? || s.run.Entered? ==> s.context.None?)
    && (s.run.Before? || s.run.Entered? || s.run.ContextSent? ==> s.published == 0)
    && (s.results.Some? ==> Silent(s.run) && s.box.phase == Finished)
    && (s.run.Before? || s.run.Entered? || s.run.ContextSent? ==> s.box.phase == Idle)
    && (s.run.ContextSent? || s.run.Live? ==> s.context.Some?)
    && (s.run.Live? ==> s.box.phase == Running)
    && (s.run.Over? ==> s.box.phase == Finished)
    && (s.published > 0 || s.results.Some? ==> s.context.Some?)
  }

  ghost predicate GuiInv(s: State) {
    var g := s.gui;
    && (Finishing(g.pc) ==> Silent(s.run) && s.box.phase == Finished)
    && g.contexts + AsSeq(s.box.context) == AsSeq(s.context)
    && g.results + AsSeq(s.box.results) == AsSeq(s.results)
    && ((g.pc.ContextTaken? || g.pc.Behind?) && g.pc.phase == Finished ==> s.box.context.None?)
    && (CaughtUp(g.pc) ==> s.box.context.None?)
    && (ResultsHandled(g.pc) ==> s.box.results.None?)
    && (!ResultsHandled(g.pc) ==> g.results == [])
  }

  /** How far the GUI is behind: what it copied is at least as new as the sequence it saw. */
  ghost predicate HistoryInv(s: State) {
    var g := s.gui;
    && g.lastSequence <= s.box.sequence
    && Newest(g.history) <= s.published
    && (!g.pc.Behind? ==> Newest(g.history) >= g.lastSequence || Newest(g.history) == s.published)
    && (g.pc.Behind? ==> g.lastSequence >= 1)
    && (CaughtUp(g.pc) ==> g.lastSequence == s.box.sequence)
    && (g.pc.Behind? && g.pc.phase == Finished ==> g.lastSequence == s.box.sequence)
    && Ordered(g.history)
    && (s.results.None? || s.published > 0 ==> NoBlanks(g.history))
    && (!g.pc.Behind? && g.lastSequence > 0 ==> g.history != [])
  }

  lemma StepInv(s: State, a: Action)
    requires RunInv(s) && GuiInv(s) && HistoryInv(s) && Next(s, a).Some?
    ensures var t := Next(s, a).value; RunInv(t) && GuiInv(t) && HistoryInv(t)
  {
    StepRunInv(s, a);
    if IsRunAction(a) {
      RunStepKeepsGui(s, a);
      RunStepKeepsHistory(s, a);
    } else {
      GuiStepKeepsGui(s, a);
      GuiStepKeepsHistory(s, a);
    }
  }

  lemma StepRunInv(s: State, a: Action)
    requires RunInv(s) && Next(s, a).Some?
    ensures RunInv(Next(s, a).value)
  {
  }

  lemma RunStepKeepsGui(s: State, a: Action)
    requires RunInv(s) && GuiInv(s) && NextOfRun(s, a).Some?
    ensures GuiInv(NextOfRun(s, a).value)
  {
  }

  lemma GuiStepKeepsGui(s: State, a: Action)
    requires RunInv(s) && GuiInv(s) && NextOfGui(s, a).Some?
    ensures GuiInv(NextOfGui(s, a).value)
  {
  }

  lemma RunStepKeepsHistory(s: State, a: Action)
    requires RunInv(s) && GuiInv(s) && HistoryInv(s) && NextOfRun(s, a).Some?
    ensures HistoryInv(NextOfRun(s, a).value)
  {
    hide Ordered, NoBlanks;
  }

  lemma GuiStepKeepsHistory(s: State, a: Action)
    requires RunInv(s) && GuiInv(s) && HistoryInv(s) && NextOfGui(s, a).Some?
    ensures HistoryInv(NextOfGui(s, a).value)
  {
    hide Ordered, NoBlanks;
    CopyKeepsOrder(s.gui.history, s.box.latest);
  }

  lemma CopyKeepsOrder(history: seq<nat>, latest: nat)
    requires Ordered(history) && Newest(history) <= latest
    ensures Ordered(history + [latest]) && Newest(history + [latest]) == latest
    ensures NoBlanks(history) && latest >= 1 ==> NoBlanks(history + [latest])
  {
  }

  lemma {:induction false} Always(actions: seq<Action>)
    requires Run(actions).Some?
    ensures var s := Run(actions).value; RunInv(s) && GuiInv(s) && HistoryInv(s)
  {
    if actions != [] {
      Always(actions[..|actions| - 1]);
      StepInv(Run(actions[..|actions| - 1]).value, actions[|actions| - 1]);
    }
  }

  // ---------------------------------------------------------------------------
  // What every interleaving guarantees

  /** In any state, context and results have been taken at most once, in the form they
      were published. */
  lemma TakenAtMostOnce(actions: seq<Action>)
    requires Run(actions).Some?
    ensures var s := Run(actions).value;
      && |s.gui.contexts| <= 1 && (forall c :: c in s.gui.contexts ==> s.context == Some(c))
      && |s.gui.results| <= 1 && (forall r :: r in s.gui.results ==> s.results == Some(r))
  {
    Always(actions);
    var s := Run(actions).value;
    TakenIsPublished(s.gui.contexts, s.box.context, s.context);
    TakenIsPublished(s.gui.results, s.box.results, s.results);
  }

  lemma SameOption<T>(a: Option<T>, b: Option<T>)
    requires AsSeq(a) == AsSeq(b)
    ensures a == b
  {
    assert |AsSeq(a)| == |AsSeq(b)|;
    if a.Some? {
      assert AsSeq(a)[0] == AsSeq(b)[0];
    }
  }

  lemma TakenIsPublished<T>(taken: seq<T>, left: Option<T>, published: Option<T>)
    requires taken + AsSeq(left) == AsSeq(published)
    ensures |taken| <= 1 && forall x :: x in taken ==> published == Some(x)
    ensures left.None? ==> taken == AsSeq(published)
  {
    assert |taken| + |AsSeq(left)| == |AsSeq(published)|;
    assert forall i :: 0 <= i < |taken| ==> taken[i] == (taken + AsSeq(left))[i];
  }

  /** The copied rows never go back to an older snapshot, and a row is the empty snapshot
      only in a run that published results without ever publishing a snapshot. */
  lemma HistoryFollowsPublication(actions: seq<Action>)
    requires Run(actions).Some?
    ensures var s := Run(actions).value;
      && Ordered(s.gui.history)
      && (forall k :: k in s.gui.history ==> k <= s.published)
      && (0 in s.gui.history ==> s.published == 0 && s.results.Some?)
      && (s.gui.pc.Stopped? ==> (0 in s.gui.history <==> s.published == 0 && s.results.Some?))
  {
    Always(actions);
    var s := Run(actions).value;
    forall k | k in s.gui.history ensures k <= s.published {
      assert k <= Newest(s.gui.history);
    }
  }

  // ---------------------------------------------------------------------------
  // Repeated rows

  /** How one row came about: how many snapshots, and whether the results, had been published
      when its tick read the sequence, and the snapshot it copied, which is how many had been
      published by then. */
  datatype Row = Row(seen: nat, late: bool, value: nat)

  function SequenceOf(seen: nat, late: bool): nat {
    seen + if late then 1 else 0
  }

  /** What had been published at the latest ReadSequence. */
  ghost function SeenAt(actions: seq<Action>): (r: (nat, bool))
    requires Run(actions).Some?
  {
    if actions == [] then (0, false) else
      var k := |actions| - 1;
      var s := Run(actions[..k]).value;
      if actions[k].ReadSequence? then (s.published, s.results.Some?) else SeenAt(actions[..k])
  }

  /** The rows of a run, in the order in which they were copied. */
  ghost function Rows(actions: seq<Action>): seq<Row>
    requires Run(actions).Some?
  {
    if actions == [] then [] else
      var k := |actions| - 1;
      Rows(actions[..k]) +
      if actions[k].CopySnapshot?
      then [Row(SeenAt(actions[..k]).0, SeenAt(actions[..k]).1, Run(actions[..k]).value.published)] else []
  }

  ghost predicate RowOk(s: State, seen: nat, late: bool, value: nat) {
    && seen <= value <= s.published
    && (late ==> s.results.Some? && seen == s.published)
  }

  /** The rows explain the history: later rows saw newer sequences, and at least what the
      earlier ones had copied. */
  ghost predicate RowsInv(s: State, rows: seq<Row>, seen: nat, late: bool) {
    && |rows| == |s.gui.history|
    && (forall i :: 0 <= i < |rows| ==>
          rows[i].value == s.gui.history[i] && RowOk(s, rows[i].seen, rows[i].late, rows[i].value))
    && (forall i, j :: 0 <= i < j < |rows| ==> Follows(rows[i], rows[j].seen, rows[j].late))
    && (forall i :: 0 <= i < |rows| ==> SequenceOf(rows[i].seen, rows[i].late) <= s.gui.lastSequence)
    && (!s.gui.pc.Behind? && rows != [] ==>
          SequenceOf(rows[|rows| - 1].seen, rows[|rows| - 1].late) == s.gui.lastSequence)
    && (s.gui.pc.Behind? ==>
          && RowOk(s, seen, late, s.published) && SequenceOf(seen, late) == s.gui.lastSequence
          && forall i :: 0 <= i < |rows| ==> Follows(rows[i], seen, late))
  }

  /** A later ReadSequence that found something new. */
  ghost predicate Follows(a: Row, seen: nat, late: bool) {
    && a.value <= seen && (a.late ==> late)
    && SequenceOf(a.seen, a.late) < SequenceOf(seen, late)
  }

  lemma {:induction false} RowsAlways(actions: seq<Action>)
    requires Run(actions).Some?
    ensures RowsInv(Run(actions).value, Rows(actions), SeenAt(actions).0, SeenAt(actions).1)
  {
    if actions != [] {
      var k := |actions| - 1;
      RowsAlways(actions[..k]);
      Always(actions[..k]);
      hide RowsInv, RunInv, GuiInv;
      RowsStep(Run(actions[..k]).value, actions[k], Rows(actions[..k]), SeenAt(actions[..k]).0, SeenAt(actions[..k]).1);
      assert Rows(actions[..k]) + [] == Rows(actions[..k]);
    }
  }

  lemma RowsStep(s: State, a: Action, rows: seq<Row>, seen: nat, late: bool)
    requires RunInv(s) && Next(s, a).Some? && RowsInv(s, rows, seen, late)
    requires s.gui.lastSequence <= s.box.sequence
    ensures
      RowsInv(Next(s, a).value,
              rows + if a.CopySnapshot? then [Row(seen, late, s.published)] else [],
              if a.ReadSequence? then s.published else seen,
              if a.ReadSequence? then s.results.Some? else late)
  {
    assert rows + [] == rows;
    if a.CopySnapshot? {
      RowCopied(s, rows, seen, late);
    } else if a.ReadSequence? {
      SequenceRead(s, rows, seen, late);
    } else {
      RowsKept(s, Next(s, a).value, rows, seen, late);
    }
  }

  lemma RowCopied(s: State, rows: seq<Row>, seen: nat, late: bool)
    requires RunInv(s) && RowsInv(s, rows, seen, late) && s.gui.pc.Behind?
    ensures RowsInv(Next(s, CopySnapshot).value, rows + [Row(seen, late, s.published)], seen, late)
  {
    hide Follows, RowOk, SequenceOf;
    var t, more := Next(s, CopySnapshot).value, rows + [Row(seen, late, s.published)];
    forall i | 0 <= i < |more|
      ensures more[i].value == t.gui.history[i] && RowOk(t, more[i].seen, more[i].late, more[i].value)
    {
      RowStaysOk(s, t, more[i].seen, more[i].late, more[i].value);
    }
  }

  lemma RowStaysOk(s: State, t: State, seen: nat, late: bool, value: nat)
    requires RowOk(s, seen, late, value) && s.published <= t.published
    requires s.results.Some? ==> t.results.Some? && t.published == s.published
    ensures RowOk(t, seen, late, value)
  {
  }

  lemma SequenceRead(s: State, rows: seq<Row>, seen: nat, late: bool)
    requires RunInv(s) && RowsInv(s, rows, seen, late) && Next(s, ReadSequence).Some?
    requires s.gui.lastSequence <= s.box.sequence
    ensures RowsInv(Next(s, ReadSequence).value, rows, s.published, s.results.Some?)
  {
  }

  lemma RowsKept(s: State, t: State, rows: seq<Row>, seen: nat, late: bool)
    requires RowsInv(s, rows, seen, late)
    requires t.gui.history == s.gui.history && t.gui.lastSequence == s.gui.lastSequence
    requires t.gui.pc.Behind? <==> s.gui.pc.Behind?
    requires s.published <= t.published && (s.results.Some? ==> t.results.Some? && t.published == s.published)
    ensures RowsInv(t, rows, seen, late)
  {
    hide Follows, SequenceOf;
  }

  /** The state after the tick's copy, if it makes one. */
  function AfterCopy(s: State): State {
    if s.gui.pc.Behind? then Next(s, CopySnapshot).value else s
  }

  lemma {:induction false} RunThreadOnly(actions: seq<Action>, more: seq<Action>)
    requires Run(actions).Some? && Run(actions + more).Some? && forall k :: 0 <= k < |more| ==> IsRunAction(more[k])
    ensures var s, t := Run(actions).value, Run(actions + more).value;
      t.gui == s.gui && s.published <= t.published
    decreases |more|
  {
    if more == [] {
      assert actions + more == actions;
    } else {
      var k := |more| - 1;
      assert (actions + more)[..|actions + more| - 1] == actions + more[..k];
      RunThreadOnly(actions, more[..k]);
    }
  }

  /** A tick about to read the sequence, and any steps of the run thread before its copy: the
      tick adds a second row for the last snapshot shown if and only if the sequence has moved,
      the mailbox still holds that snapshot, and the run thread publishes no other one before
      the copy. */
  lemma TickRepeatsExactly(actions: seq<Action>, more: seq<Action>)
    requires Run(actions).Some? && Run(actions).value.gui.pc.ContextTaken? && Run(actions).value.gui.history != []
    requires forall k :: 0 <= k < |more| ==> IsRunAction(more[k])
    requires Run(actions + [ReadSequence] + more).Some?
    ensures var s, u := Run(actions).value, Run(actions + [ReadSequence] + more).value;
      var last := s.gui.history[|s.gui.history| - 1];
      AfterCopy(u).gui.history == s.gui.history + [last] <==>
        s.box.sequence != s.gui.lastSequence && s.box.latest == last && u.published == s.published
  {
    Always(actions);
    RunAppend(actions, ReadSequence);
    RunThreadOnly(actions + [ReadSequence], more);
    Always(actions + [ReadSequence] + more);
    var s, u := Run(actions).value, Run(actions + [ReadSequence] + more).value;
    assert u.box.latest == u.published && s.box.latest == s.published;
    assert (s.gui.history + [u.box.latest])[|s.gui.history|] == u.box.latest;
  }

  /** When the mailbox still holds the last snapshot shown, its sequence has moved if and only
      if that row was overtaken (the snapshot was published after its tick had read the
      sequence) or the results were published after that reading. */
  lemma SequenceMovedExactly(actions: seq<Action>)
    requires Run(actions).Some? && Run(actions).value.gui.pc.ContextTaken? && Run(actions).value.gui.history != []
    requires var s := Run(actions).value; s.box.latest == s.gui.history[|s.gui.history| - 1]
    ensures |Rows(actions)| == |Run(actions).value.gui.history|
    ensures var s, row := Run(actions).value, Rows(actions)[|Rows(actions)| - 1];
      s.box.sequence != s.gui.lastSequence <==> row.seen < row.value || (!row.late && s.results.Some?)
  {
    Always(actions);
    RowsAlways(actions);
  }

  /** Why a row repeats the one before it: that one was overtaken, or the results were
      published between the two ticks' readings of the sequence. */
  lemma RepeatHasACause(actions: seq<Action>, i: nat)
    requires Run(actions).Some? && i + 1 < |Run(actions).value.gui.history|
    ensures |Rows(actions)| == |Run(actions).value.gui.history|
    ensures var h := Run(actions).value.gui.history;
      var before, row := Rows(actions)[i], Rows(actions)[i + 1];
      h[i + 1] == h[i] ==> before.seen < before.value || (!before.late && row.late)
  {
    RowsAlways(actions);
    assert Follows(Rows(actions)[i], Rows(actions)[i + 1].seen, Rows(actions)[i + 1].late);
  }

  /** No snapshot is copied more than twice, except the last one ever published when the
      results follow it: that one at most three times. */
  lemma RepeatsAreBounded(actions: seq<Action>, i: nat)
    requires Run(actions).Some? && i + 2 < |Run(actions).value.gui.history|
    requires Run(actions).value.gui.history[i] == Run(actions).value.gui.history[i + 2]
    ensures var s := Run(actions).value;
      s.results.Some? && s.gui.history[i] == s.published && i + 3 == |s.gui.history|
  {
    RowsAlways(actions);
    Always(actions);
    var s, rows := Run(actions).value, Rows(actions);
    assert Follows(rows[i], rows[i + 1].seen, rows[i + 1].late);
    assert Follows(rows[i + 1], rows[i + 2].seen, rows[i + 2].late);
    assert s.gui.history[i] <= s.gui.history[i + 1] <= s.gui.history[i + 2];
    assert i + 3 < |rows| ==> Follows(rows[i + 2], rows[i + 3].seen, rows[i + 3].late);
  }

  /** A snapshot published while a tick is between its two reads is copied now and again by
      the next tick, and a third time once the results are there. */
  lemma RowCanRepeat() returns (twice: seq<Action>, thrice: seq<Action>)
    ensures Run(twice).Some? && Run(twice).value.gui.history == [2, 2] && Run(twice).value.results.None?
    ensures Run(thrice).Some? && Run(thrice).value.gui.history == [2, 2, 2]
  {
    hide Run, Next;
    twice := OvertakenTick();
    twice := CopyingTick(twice);
    thrice := CopyingTick(SendingResults(twice));
  }

  ghost function SendingResults(actions: seq<Action>): (r: seq<Action>)
    requires Run(actions).Some? && Run(actions).value.run == Live
    ensures Run(r).Some?
    ensures var s, t := Run(actions).value, Run(r).value;
      t == s.(run := Unwinding, results := Some(Report(0, [])),
              box := s.box.(results := Some(Report(0, [])), phase := Finished, sequence := s.box.sequence + 1))
  {
    Then(actions, SendResults(Report(0, [])))
  }

  ghost predicate Overtaken(s: State) {
    && s.run == Live && s.published == s.box.latest == s.box.sequence == 2 && s.box.phase == Running
    && s.gui.pc == Waiting && s.gui.history == [2] && s.gui.lastSequence == 1 && s.results == None
  }

  /** The first tick, overtaken by a second snapshot between its two reads. */
  lemma OvertakenTick() returns (r: seq<Action>)
    ensures Run(r).Some? && Overtaken(Run(r).value)
  {
    hide Run, Next;
    r := FirstSnapshot();
    r := ReadingTick(r);
    r := Sending(r);
    r := Copying(r);
  }

  ghost function Sending(actions: seq<Action>): (r: seq<Action>)
    requires Run(actions).Some? && Run(actions).value.run == Live
    ensures Run(r).Some?
    ensures var s, t := Run(actions).value, Run(r).value;
      && t.gui == s.gui && t.run == Live && t.published == s.published + 1 && t.results == s.results
      && t.box == s.box.(latest := t.published, sequence := s.box.sequence + 1)
  {
    Then(actions, SendSnapshot)
  }

  ghost function Copying(actions: seq<Action>): (r: seq<Action>)
    requires Run(actions).Some? && Run(actions).value.gui.pc.Behind?
    ensures Run(r).Some?
    ensures var s, t := Run(actions).value, Run(r).value;
      t == s.(gui := s.gui.(pc := AfterSnapshot(s.gui.pc.phase), history := s.gui.history + [s.box.latest]))
  {
    Then(actions, CopySnapshot)
  }

  /** Publishing the results before the first tick repeats nothing. */
  lemma ResultsNeedNotRepeat() returns (actions: seq<Action>)
    ensures Run(actions).Some? && Run(actions).value.results.Some? && Run(actions).value.gui.pc == Stopped
    ensures Run(actions).value.gui.history == [1]
  {
    hide Run, Next;
    actions := FirstSnapshot();
    actions := SendingResults(actions);
    actions := CopyingTick(actions);
    actions := FinishingTick(actions);
  }

  ghost function FinishingTick(actions: seq<Action>): (r: seq<Action>)
    requires Run(actions).Some? && Run(actions).value.gui.pc == Ending
    ensures Run(r).Some? && Run(r).value.gui.pc == Stopped
    ensures Run(r).value.gui.history == Run(actions).value.gui.history
    ensures Run(r).value.results == Run(actions).value.results
  {
    Then(Then(actions, TakeResults), MarkFinished)
  }

  ghost function Then(actions: seq<Action>, a: Action): (r: seq<Action>)
    requires Run(actions).Some? && Next(Run(actions).value, a).Some?
    ensures Run(r) == Next(Run(actions).value, a)
  {
    RunAppend(actions, a);
    actions + [a]
  }

  ghost function FirstSnapshot(): (r: seq<Action>)
    ensures Run(r).Some?
    ensures var s := Run(r).value; s.run == Live && s.published == s.box.latest == s.box.sequence == 1
    ensures Run(r).value.box.phase == Running && Run(r).value.gui == START.gui && Run(r).value.results == None
  {
    assert Run([]) == Some(START);
    Then(Then(Then(Then([], Enter), SendContext(0)), SendRuntime(1)), SendSnapshot)
  }

  /** A tick up to its reading of a new sequence, with the run thread at rest. */
  ghost function ReadingTick(actions: seq<Action>): (r: seq<Action>)
    requires Run(actions).Some? && Run(actions).value.gui.pc == Waiting
    requires Run(actions).value.box.sequence != Run(actions).value.gui.lastSequence
    ensures Run(r).Some?
    ensures var s, t := Run(actions).value, Run(r).value;
      && t.gui.pc == Behind(s.box.phase)
      && t.gui.history == s.gui.history && t.gui.lastSequence == s.box.sequence
      && t.run == s.run && t.published == s.published && t.results == s.results
      && t.box == s.box.(context := None)
  {
    Then(Then(Then(actions, ReadPhase), TakeContext), ReadSequence)
  }

  ghost function CopyingTick(actions: seq<Action>): (r: seq<Action>)
    requires Run(actions).Some? && Run(actions).value.gui.pc == Waiting
    requires Run(actions).value.box.sequence != Run(actions).value.gui.lastSequence
    ensures Run(r).Some?
    ensures var s, t := Run(actions).value, Run(r).value;
      && t.gui.history == s.gui.history + [s.box.latest] && t.gui.lastSequence == s.box.sequence
      && t.gui.pc == AfterSnapshot(s.box.phase)
      && t.run == s.run && t.published == s.published && t.results == s.results
      && t.box == s.box.(context := None)
  {
    Copying(ReadingTick(actions))
  }

  lemma SilentStep(s: State, a: Action)
    requires s.gui.pc.Stopped? && Silent(s.run) && Next(s, a).Some?
    ensures var t := Next(s, a).value;
      Silent(t.run) && t.gui == s.gui && t.published == s.published && t.context == s.context && t.results == s.results
  {
  }

  /** Whatever happens after the timer is stopped: nothing is published any more. */
  lemma {:induction false} NothingAfterStop(actions: seq<Action>, more: seq<Action>)
    requires Run(actions).Some? && Run(actions).value.gui.pc.Stopped? && Run(actions + more).Some?
    ensures var s, t := Run(actions).value, Run(actions + more).value;
      Silent(t.run) && t.gui == s.gui && t.published == s.published && t.context == s.context && t.results == s.results
    decreases |more|
  {
    if more == [] {
      Always(actions);
      assert actions + more == actions;
    } else {
      var k := |more| - 1;
      assert (actions + more)[..|actions + more| - 1] == actions + more[..k];
      NothingAfterStop(actions, more[..k]);
      SilentStep(Run(actions + more[..k]).value, more[k]);
    }
  }

  lemma StoppedMeans(s: State)
    requires RunInv(s) && GuiInv(s) && HistoryInv(s) && s.gui.pc.Stopped?
    ensures s.gui.results == AsSeq(s.results) && s.gui.contexts == AsSeq(s.context)
    ensures Newest(s.gui.history) == s.published && Silent(s.run)
  {
  }

  /** The finish protocol. Once a tick has stopped the timer, then in every continuation:
      the GUI holds results exactly when the run ever publishes them, and those; the same
      for the context; and the last row it copied is the last snapshot ever published. */
  lemma FinishProtocol(actions: seq<Action>, more: seq<Action>)
    requires Run(actions).Some? && Run(actions).value.gui.pc.Stopped? && Run(actions + more).Some?
    ensures var gui, end := Run(actions).value.gui, Run(actions + more).value;
      && gui.results == AsSeq(end.results)
      && gui.contexts == AsSeq(end.context)
      && Newest(gui.history) == end.published
  {
    NothingAfterStop(actions, more);
    Always(actions);
    StoppedMeans(Run(actions).value);
  }

  /** When the run thread is over, the next whole tick stops the timer. */
  lemma FinalTick(actions: seq<Action>) returns (tick: seq<Action>)
    requires Run(actions).Some? && Run(actions).value.run.Over? && Run(actions).value.gui.pc.Waiting?
    ensures |tick| <= 6 && Run(actions + tick).Some? && Run(actions + tick).value.gui.pc.Stopped?
  {
    var s := Run(actions).value;
    assert s.box.phase == Finished by { Always(actions); }
    hide Run, Next;
    var a4 := TickReads(actions);
    var t := Run(a4).value;
    var g5 := t.gui.(pc := ResultsTaken, results := t.gui.results + AsSeq(t.box.results));
    var a5 := Extend(a4, TakeResults, t.(box := t.box.(results := None), gui := g5));
    var a6 := Extend(a5, MarkFinished, t.(box := t.box.(results := None), gui := g5.(pc := Stopped)));
    tick := a6[|actions|..];
    assert a6 == actions + tick;
  }

  lemma TickReads(actions: seq<Action>) returns (a: seq<Action>)
    requires Run(actions).Some? && Run(actions).value.gui.pc.Waiting? && Run(actions).value.box.phase == Finished
    ensures actions <= a && |a| <= |actions| + 4 && Run(a).Some? && Run(a).value.gui.pc.Ending?
  {
    hide Run, Next;
    var s := Run(actions).value;
    var g1 := s.gui.(pc := PhaseRead(Finished));
    var a1 := Extend(actions, ReadPhase, s.(gui := g1));
    var g2 := g1.(pc := ContextTaken(Finished), contexts := g1.contexts + AsSeq(s.box.context));
    var t := s.(box := s.box.(context := None), gui := g2);
    var a2 := Extend(a1, TakeContext, t);
    a := TickCopies(a2);
  }

  lemma TickCopies(actions: seq<Action>) returns (a: seq<Action>)
    requires Run(actions).Some? && Run(actions).value.gui.pc == ContextTaken(Finished)
    ensures actions <= a && |a| <= |actions| + 2 && Run(a).Some? && Run(a).value.gui.pc.Ending?
  {
    hide Run, Next;
    var s := Run(actions).value;
    if s.box.sequence != s.gui.lastSequence {
      var g := s.gui.(pc := Behind(Finished), lastSequence := s.box.sequence);
      a := Extend(actions, ReadSequence, s.(gui := g));
      a := Extend(a, CopySnapshot, s.(gui := g.(pc := Ending, history := g.history + [s.box.latest])));
    } else {
      a := Extend(actions, ReadSequence, s.(gui := s.gui.(pc := Ending)));
    }
  }

  ghost function Extend(actions: seq<Action>, a: Action, t: State): (r: seq<Action>)
    requires Run(actions).Some? && !IsRunAction(a) && NextOfGui(Run(actions).value, a) == Some(t)
    ensures r == actions + [a] && Run(r) == Some(t)
  {
    RunAppend(actions, a);
    actions + [a]
  }

  // ---------------------------------------------------------------------------
  // The threads as code

  /** The run thread's side: Init, Update, ShowSummary and Shutdown of the display, and
      the last MarkShutdown of the GUI runner. */
  class RunThread {
    const mailbox: RunMailbox
    var pc: RunPc
    var published: nat
    ghost var context: Option<nat>
    ghost var results: Option<Report>

    constructor (mailbox: RunMailbox)
      ensures this.mailbox == mailbox && pc == Before && published == 0 && context == None && results == None
    {
      this.mailbox := mailbox;
      pc, published, context, results := Before, 0, None, None;
    }

    ghost function With(gui: Gui): State
      reads this, mailbox
    {
      State(mailbox.View(), pc, published, context, results, gui)
    }

    /** One step of the thread; which one, and whether something throws, is not known. */
    method Step(ghost gui: Gui) returns (ghost a: Action)
      requires !pc.Over?
      modifies this`pc, this`published, this`context, this`results, mailbox
      ensures IsRunAction(a) && Next(old(With(gui)), a) == Some(With(gui))
    {
      var throws: bool := *;
      match pc {
        case Before =>
          a := if throws then Fail else Enter;
          pc := if throws then Last else Entered;
        case Entered =>
          if throws {
            a, pc := Fail, Unwinding;
          } else {
            var c: nat := *;
            a, context := SendContext(c), Some(c);
            mailbox.PublishContext(c);
            pc := ContextSent;
          }
        case ContextSent =>
          if throws {
            a, pc := Fail, Unwinding;
          } else {
            var seconds: int := *;
            a := SendRuntime(seconds);
            mailbox.SetRuntime(seconds);
            pc := Live;
          }
        case Live =>
          a := StepLive(gui, throws);
        case Unwinding =>
          a := ScopeShutdown;
          mailbox.MarkShutdown();
          pc := Last;
        case Last =>
          a := FinalShutdown;
          mailbox.MarkShutdown();
          pc := Over;
      }
    }

    method StepLive(ghost gui: Gui, throws: bool) returns (ghost a: Action)
      requires pc.Live?
      modifies this`pc, this`published, this`results, mailbox
      ensures IsRunAction(a) && Next(old(With(gui)), a) == Some(With(gui))
    {
      var done: bool := *;
      if throws {
        a, pc := Fail, Unwinding;
      } else if done {
        var id: nat := *;
        var series: seq<nat> := *;
        var r := Report(id, series);
        a, results := SendResults(r), Some(r);
        mailbox.PublishResults(r);
        pc := Unwinding;
      } else {
        a := SendSnapshot;
        published := published + 1;
        mailbox.PublishSnapshot(published);
      }
    }
  }

  /** The steps of an interleaving that are the GUI's own. */
  ghost function OwnSteps(actions: seq<Action>): seq<Action> {
    if actions == [] then [] else
      var a := actions[|actions| - 1];
      OwnSteps(actions[..|actions| - 1]) + if IsRunAction(a) then [] else [a]
  }

  lemma OwnStepsAppend(actions: seq<Action>, a: Action)
    ensures OwnSteps(actions + [a]) == OwnSteps(actions) + if IsRunAction(a) then [] else [a]
  {
    assert (actions + [a])[..|actions|] == actions;
  }

  /** What one tick does, in order: whether it copies a snapshot depends on the sequence,
      whether it finishes on the phase it read. */
  ghost function TickSteps(behind: bool, finishes: bool): seq<Action> {
    [ReadPhase, TakeContext, ReadSequence]
    + (if behind then [CopySnapshot] else [])
    + (if finishes then [TakeResults, MarkFinished] else [])
  }

  /** The phase Finished is final. */
  lemma FinishedStays(s: State, a: Action)
    requires RunInv(s) && Next(s, a).Some? && s.box.phase == Finished
    ensures Next(s, a).value.box.phase == Finished
  {
  }

  /** The rows on display: those copied, until the time series of the results replaces them. */
  function Shown(copied: seq<nat>, results: Option<Report>): seq<nat> {
    if results.Some? && results.value.series != [] then results.value.series else copied
  }

  /** OnTick against a run thread that may take any number of steps between two of its
      own; `actions` is the interleaving so far. */
  class QtMainWindow {
    const mailbox: RunMailbox
    const run: RunThread
    var lastSequence: nat
    var history: seq<nat>
    var context: Option<nat>
    var results: Option<Report>
    var finished: bool
    ghost var gui: Gui
    ghost var actions: seq<Action>

    ghost predicate Valid()
      reads this, mailbox, run
    {
      && run.mailbox == mailbox
      && Run(actions) == Some(run.With(gui))
      && gui.lastSequence == lastSequence && history == Shown(gui.history, results)
      && (finished <==> gui.pc.Stopped?)
      && AsSeq(context) == gui.contexts && AsSeq(results) == gui.results
    }

    constructor ()
      ensures Valid() && fresh(mailbox) && fresh(run) && !finished && gui.pc == Waiting
    {
      var box := new RunMailbox();
      mailbox := box;
      run := new RunThread(box);
      lastSequence, history, context, results, finished := 0, [], None, None, false;
      gui, actions := Gui(Waiting, 0, [], [], []), [];
    }

    /** The run thread goes on for a while. */
    method Others()
      requires Valid()
      modifies run, mailbox, this`actions
      ensures Valid() && old(actions) <= actions && gui == old(gui)
      ensures OwnSteps(actions) == OwnSteps(old(actions))
      ensures old(mailbox.phase) == Finished ==> mailbox.phase == Finished
    {
      hide Next, RunInv, GuiInv, HistoryInv, IsRunAction;
      var steps: int := *;
      while steps > 0 && !run.pc.Over?
        invariant Valid() && old(actions) <= actions
        invariant OwnSteps(actions) == OwnSteps(old(actions))
        invariant old(mailbox.phase) == Finished ==> mailbox.phase == Finished
      {
        Always(actions);
        ghost var before := run.With(gui);
        ghost var a := run.Step(gui);
        if before.box.phase == Finished {
          FinishedStays(before, a);
        }
        RunAppend(actions, a);
        OwnStepsAppend(actions, a);
        actions := actions + [a];
        steps := steps - 1;
      }
    }

    /** The window's own step. */
    ghost method Did(a: Action, next: Gui)
      requires Run(actions).Some? && Next(Run(actions).value, a) == Some(run.With(next))
      modifies this`gui, this`actions
      ensures gui == next && actions == old(actions) + [a] && Run(actions) == Some(run.With(gui))
      ensures !IsRunAction(a) ==> OwnSteps(actions) == OwnSteps(old(actions)) + [a]
    {
      RunAppend(actions, a);
      OwnStepsAppend(actions, a);
      gui, actions := next, actions + [a];
    }

    /** One timer tick; the run thread may act before each of its mailbox calls. */
    method OnTick()
      requires Valid() && gui.pc == Waiting
      modifies this, run, mailbox
      ensures Valid() && old(actions) <= actions && (gui.pc == Waiting || gui.pc == Stopped)
      ensures finished ==> results == run.results && context == run.context && Silent(run.pc)
      ensures finished ==> Newest(gui.history) == run.published
      ensures finished ==>
        history == match run.results
                   case None => gui.history
                   case Some(report) => if |report.series| == 0 then gui.history else report.series
      ensures exists behind :: OwnSteps(actions) == OwnSteps(old(actions)) + TickSteps(behind, finished)
      ensures old(mailbox.phase) == Finished ==> finished
    {
      hide Valid, Newest, Silent, OwnSteps;
      ghost var own := OwnSteps(actions);
      var phase;
      ghost var behind;
      phase, behind := Refresh();
      if phase != Finished {
        StillRunning();
        return;
      }
      Others();
      ApplyResults();
      FinishedTick();
      assert OwnSteps(actions) == own + TickSteps(behind, true);
    }

    /** The part of a tick that every tick goes through. */
    method Refresh() returns (phase: Phase, ghost behind: bool)
      requires Valid() && gui.pc == Waiting
      modifies this, run, mailbox
      ensures Valid() && old(actions) <= actions && gui.pc == AfterSnapshot(phase)
      ensures OwnSteps(actions) == OwnSteps(old(actions)) + TickSteps(behind, false)
      ensures old(mailbox.phase) == Finished ==> phase == Finished
    {
      hide Valid, OwnSteps, AfterSnapshot;
      Others();
      phase := LoadPhase();
      Others();
      LoadContext();
      Others();
      var changed := LoadSequence();
      behind := changed;
      if changed {
        Others();
        ApplySnapshot();
      }
    }

    method LoadPhase() returns (phase: Phase)
      requires Valid() && gui.pc == Waiting
      modifies this`gui, this`actions
      ensures Valid() && OwnSteps(actions) == OwnSteps(old(actions)) + [ReadPhase]
      ensures gui.pc == PhaseRead(phase) && phase == mailbox.phase && old(actions) <= actions
    {
      phase := mailbox.phase;
      Did(ReadPhase, gui.(pc := PhaseRead(phase)));
    }

    method LoadContext()
      requires Valid() && gui.pc.PhaseRead?
      modifies this`context, this`gui, this`actions, mailbox
      ensures Valid() && old(actions) <= actions
        && OwnSteps(actions) == OwnSteps(old(actions)) + [TakeContext] && gui.pc == ContextTaken(old(gui).pc.phase)
    {
      Always(actions);
      var taken := mailbox.TakeContext();
      Did(TakeContext, gui.(pc := ContextTaken(gui.pc.phase), contexts := gui.contexts + AsSeq(taken)));
      if taken.Some? {
        context := taken;
      }
    }

    method LoadSequence() returns (behind: bool)
      requires Valid() && gui.pc.ContextTaken?
      modifies this`lastSequence, this`gui, this`actions
      ensures Valid() && old(actions) <= actions && OwnSteps(actions) == OwnSteps(old(actions)) + [ReadSequence]
      ensures gui.pc == if behind then Behind(old(gui).pc.phase) else AfterSnapshot(old(gui).pc.phase)
    {
      var sequence := mailbox.sequence;
      behind := sequence != lastSequence;
      if behind {
        lastSequence := sequence;
        Did(ReadSequence, gui.(pc := Behind(gui.pc.phase), lastSequence := sequence));
      } else {
        Did(ReadSequence, gui.(pc := AfterSnapshot(gui.pc.phase)));
      }
    }

    method ApplySnapshot()
      requires Valid() && gui.pc.Behind?
      modifies this`history, this`gui, this`actions
      ensures Valid() && old(actions) <= actions
        && OwnSteps(actions) == OwnSteps(old(actions)) + [CopySnapshot] && gui.pc == AfterSnapshot(old(gui).pc.phase)
    {
      NoResultsYet();
      var snapshot := mailbox.latest;
      history := history + [snapshot];
      Did(CopySnapshot, gui.(pc := AfterSnapshot(gui.pc.phase), history := history));
    }

    method ApplyResults()
      requires Valid() && gui.pc.Ending?
      modifies this`results, this`history, this`gui, this`actions, mailbox
      ensures Valid() && old(actions) <= actions
        && OwnSteps(actions) == OwnSteps(old(actions)) + [TakeResults] && gui.pc == ResultsTaken
    {
      NoResultsYet();
      hide Run;
      var taken := mailbox.TakeResults();
      Did(TakeResults, gui.(pc := ResultsTaken, results := gui.results + AsSeq(taken)));
      if taken.Some? {
        results := taken;
        if taken.value.series != [] {
          history := taken.value.series;
        }
      }
    }

    /** MarkFinished stops the timer. */
    method FinishedTick()
      requires Valid() && gui.pc.ResultsTaken?
      modifies this`finished, this`gui, this`actions
      ensures Valid() && old(actions) <= actions
        && OwnSteps(actions) == OwnSteps(old(actions)) + [MarkFinished] && finished && gui.pc == Stopped
      ensures results == run.results && context == run.context && Silent(run.pc)
      ensures Newest(gui.history) == run.published
      ensures history == match run.results
                         case None => gui.history
                         case Some(report) => if |report.series| == 0 then gui.history else report.series
    {
      hide Run, RunInv, GuiInv, HistoryInv, AsSeq, Newest, Silent;
      finished := true;
      Did(MarkFinished, gui.(pc := Stopped));
      Always(actions);
      StoppedMeans(Run(actions).value);
      SameOption(results, run.results);
      SameOption(context, run.context);
    }

    /** A click on the stop button before the run is finished, or closing the window at any time. */
    method RequestStop()
      requires Valid() && (gui.pc == Waiting || gui.pc == Stopped)
      modifies mailbox, this`gui, this`actions
      ensures Valid() && mailbox.stopRequested && gui == old(gui)
      ensures OwnSteps(actions) == OwnSteps(old(actions)) + [ClickStop]
    {
      hide Run;
      mailbox.RequestStop();
      Did(ClickStop, gui);
    }

    lemma NoResultsYet()
      requires Valid() && !ResultsHandled(gui.pc)
      ensures results == None && gui.results == []
    {
      Always(actions);
    }

    lemma StillRunning()
      requires Valid() && gui.pc != Stopped
      ensures !finished
    {
    }
  }
}
