/** The I/O loops of src/telemetry/worker_thread.cpp:92-139 as an automaton over
    what a worker does: load the run flag, submit, poll, record.

    The flag goes from true to false once and never back. A log of events is a
    finite run, or a prefix of a run, exactly when the automaton accepts it; the
    worker's methods keep such a log and prove that it is accepted. */
module LoopProtocol {
  import opened Types

  datatype Event = Load(on: bool) | Submit | Poll(n: nat, most: nat) | Record

  /** Where the loop stands. In Drain, `left` completions of the batch are still to be
      recorded; in Decide and Refill, one has just been recorded and `left` remain. */
  datatype Pc =
    | Fill(i: nat) | FillSubmit(i: nat)
    | Head | Polling | Drain(left: nat) | Decide(left: nat) | Refill(left: nat)
    | SyncHead | SyncSubmit | SyncPoll | SyncDrain(left: nat)
    | Done

  /** `stopped` says that a load returned false. */
  datatype Loop = Loop(pc: Pc, inFlight: nat, stopped: bool)

  function Start(depth: nat): Loop {
    Loop(if depth == 1 then SyncHead else Fill(0), 0, false)
  }

  function NextInBatch(left: nat): Pc {
    if left == 0 then Head else Drain(left)
  }

  function Step(depth: nat, s: Loop, e: Event): Option<Loop> {
    match e {
      case Load(on) =>
        if on && s.stopped then None else
          match NextAfterLoad(s.pc, on, s.inFlight) {
            case None => None
            case Some(pc) => Some(Loop(pc, s.inFlight, s.stopped || !on))
          }
      case Submit =>
        match NextAfterSubmit(depth, s.pc) {
          case None => None
          case Some(pc) => Some(Loop(pc, s.inFlight + 1, s.stopped))
        }
      case Poll(n, most) =>
        // asked for at most `depth`, an engine completes at least one and at most all of them
        if n < 1 || n > s.inFlight || most != depth then None else
          match s.pc {
            case Polling => Some(Loop(Drain(n), s.inFlight, s.stopped))
            case SyncPoll => Some(Loop(SyncDrain(n), s.inFlight, s.stopped))
            case _ => None
          }
      case Record =>
        if s.inFlight == 0 then None else
          match s.pc {
            case Drain(k) => if k == 0 then None else Some(Loop(Decide(k - 1), s.inFlight - 1, s.stopped))
            case SyncDrain(k) =>
              if k == 0 then None
              else Some(Loop(if k == 1 then SyncHead else SyncDrain(k - 1), s.inFlight - 1, s.stopped))
            case _ => None
          }
    }
  }

  /** Where an engine call may throw: at a submission or a poll. */
  predicate MayThrow(pc: Pc) {
    pc.FillSubmit? || pc.Refill? || pc.SyncSubmit? || MayHang(pc)
  }

  /** Where an engine call may wait for ever: at a poll. */
  predicate MayHang(pc: Pc) {
    pc.Polling? || pc.SyncPoll?
  }

  function NextAfterSubmit(depth: nat, pc: Pc): Option<Pc> {
    match pc
    case FillSubmit(i) => Some(if i + 1 < depth then Fill(i + 1) else Head)
    case Refill(k) => Some(NextInBatch(k))
    case SyncSubmit => Some(SyncPoll)
    case _ => None
  }

  function NextAfterLoad(pc: Pc, on: bool, inFlight: nat): Option<Pc> {
    match pc
    case Fill(i) => Some(if on then FillSubmit(i) else Head)
    case Head => Some(if on || inFlight > 0 then Polling else Done)
    case Decide(k) => Some(if on then Refill(k) else NextInBatch(k))
    case SyncHead => Some(if on then SyncSubmit else Done)
    case _ => None
  }

  function Replay(depth: nat, log: seq<Event>): Option<Loop> {
    if log == [] then Some(Start(depth)) else
      match Replay(depth, log[..|log| - 1])
      case None => None
      case Some(s) => Step(depth, s, log[|log| - 1])
  }

  lemma EmptyLog(depth: nat)
    ensures Replay(depth, []) == Some(Start(depth))
  {
  }

  /** Extending a log by one event is one step. */
  lemma ReplayAppend(depth: nat, log: seq<Event>, e: Event)
    requires Replay(depth, log).Some?
    ensures Replay(depth, log + [e]) == Step(depth, Replay(depth, log).value, e)
  {
    assert (log + [e])[..|log + [e]| - 1] == log;
  }

  // ---------------------------------------------------------------------------
  // The queue-full invariant

  /** While no load has returned false, the number of outstanding requests is known
      at every point of the loop. Afterwards it is at most the depth. */
  ghost predicate QueueInvariant(depth: nat, s: Loop) {
    && depth >= 1
    && s.inFlight <= depth
    && (match s.pc
        case Fill(i) => depth >= 2 && i < depth && s.inFlight == i && !s.stopped
        case FillSubmit(i) => depth >= 2 && i < depth && s.inFlight == i && !s.stopped
        case Head => depth >= 2 && (!s.stopped ==> s.inFlight == depth)
        case Polling => depth >= 2 && s.inFlight >= 1 && (!s.stopped ==> s.inFlight == depth)
        case Drain(k) => depth >= 2 && 1 <= k <= s.inFlight && (!s.stopped ==> s.inFlight == depth)
        case Decide(k) => depth >= 2 && k <= s.inFlight < depth && (!s.stopped ==> s.inFlight == depth - 1)
        case Refill(k) => depth >= 2 && k <= s.inFlight && !s.stopped && s.inFlight == depth - 1
        case SyncHead => depth == 1 && s.inFlight == 0
        case SyncSubmit => depth == 1 && s.inFlight == 0 && !s.stopped
        case SyncPoll => depth == 1 && s.inFlight == 1 && !s.stopped
        case SyncDrain(k) => depth == 1 && s.inFlight == 1 && k == 1 && !s.stopped
        case Done => s.inFlight == 0 && s.stopped)
  }

  lemma QueueStep(depth: nat, s: Loop, e: Event)
    requires QueueInvariant(depth, s) && Step(depth, s, e).Some?
    ensures QueueInvariant(depth, Step(depth, s, e).value)
  {
  }

  lemma {:induction false} QueueAlways(depth: nat, log: seq<Event>)
    requires depth >= 1 && Replay(depth, log).Some?
    ensures QueueInvariant(depth, Replay(depth, log).value)
  {
    if log != [] {
      QueueAlways(depth, log[..|log| - 1]);
      QueueStep(depth, Replay(depth, log[..|log| - 1]).value, log[|log| - 1]);
    }
  }

  /** In every run: whenever the head of the asynchronous loop reads the flag as true,
      exactly `depth` requests are outstanding. */
  lemma HeadReadsTrueQueueFull(depth: nat, log: seq<Event>)
    requires depth >= 1 && Replay(depth, log).Some? && Replay(depth, log).value.pc == Head
    requires Replay(depth, log + [Load(true)]).Some?
    ensures Replay(depth, log).value.inFlight == depth
  {
    ReplayAppend(depth, log, Load(true));
    QueueAlways(depth, log);
  }

  /** No run polls with nothing outstanding, and no run submits beyond the depth. */
  lemma PollsAndSubmitsAreLegal(depth: nat, log: seq<Event>, e: Event)
    requires depth >= 1 && Replay(depth, log).Some? && Replay(depth, log + [e]).Some?
    ensures e.Poll? ==> 1 <= Replay(depth, log).value.inFlight
    ensures e.Submit? ==> Replay(depth, log).value.inFlight < depth
    ensures e.Submit? ==> !Replay(depth, log).value.stopped
  {
    ReplayAppend(depth, log, e);
    QueueAlways(depth, log);
  }

  // ---------------------------------------------------------------------------
  // Stopping and draining

  ghost predicate IsSubmit(e: Event) { e.Submit? }
  ghost predicate IsPoll(e: Event) { e.Poll? }
  ghost predicate IsRecord(e: Event) { e.Record? }

  ghost function Count(log: seq<Event>, p: Event -> bool): nat {
    if log == [] then 0 else Count(log[..|log| - 1], p) + if p(log[|log| - 1]) then 1 else 0
  }

  /** The flag was cleared at position `c`: no later load returns true. */
  ghost predicate ClearedAt(log: seq<Event>, c: nat) {
    c <= |log| && forall i :: c <= i < |log| ==> log[i] != Load(true)
  }

  /** The loop has read the flag as true and is about to submit because of it. */
  ghost predicate Committed(pc: Pc) {
    pc.FillSubmit? || pc.Refill? || pc.SyncSubmit?
  }

  /** A poll whose first completion is not yet recorded. */
  ghost predicate FreshBatch(pc: Pc) {
    pc.Drain? || pc.SyncDrain?
  }

  function One(b: bool): nat { if b then 1 else 0 }

  /** From `before` to `after` the run submitted, recorded and polled so often: it
      submits only what it was committed to, and every poll is covered by a record. */
  ghost predicate Accounted(before: Loop, after: Loop, submits: nat, records: nat, polls: nat) {
    && submits + One(Committed(after.pc)) <= One(Committed(before.pc))
    && records + after.inFlight == before.inFlight + submits
    && polls + One(FreshBatch(before.pc)) <= records + One(FreshBatch(after.pc))
  }

  lemma AccountedStep(depth: nat, before: Loop, s: Loop, e: Event, submits: nat, records: nat, polls: nat)
    requires QueueInvariant(depth, s) && Step(depth, s, e).Some? && e != Load(true)
    requires Accounted(before, s, submits, records, polls)
    ensures Accounted(before, Step(depth, s, e).value,
                      submits + One(e.Submit?), records + One(e.Record?), polls + One(e.Poll?))
  {
  }

  lemma CountAppend(log: seq<Event>, e: Event, p: Event -> bool)
    ensures Count(log + [e], p) == Count(log, p) + One(p(e))
  {
    assert (log + [e])[..|log|] == log;
  }

  ghost predicate AccountedLog(depth: nat, log: seq<Event>, c: nat)
    requires c <= |log|
  {
    && Replay(depth, log).Some? && Replay(depth, log[..c]).Some?
    && Accounted(Replay(depth, log[..c]).value, Replay(depth, log).value,
                 Count(log[c..], IsSubmit), Count(log[c..], IsRecord), Count(log[c..], IsPoll))
  }

  lemma AccountedAppend(depth: nat, log: seq<Event>, c: nat, e: Event)
    requires depth >= 1 && c <= |log| && AccountedLog(depth, log, c)
    requires Replay(depth, log + [e]).Some? && e != Load(true)
    ensures AccountedLog(depth, log + [e], c)
  {
    var longer := log + [e];
    assert longer[..c] == log[..c] && longer[c..] == log[c..] + [e];
    QueueAlways(depth, log);
    ReplayAppend(depth, log, e);
    AccountedStep(depth, Replay(depth, log[..c]).value, Replay(depth, log).value, e,
                  Count(log[c..], IsSubmit), Count(log[c..], IsRecord), Count(log[c..], IsPoll));
    CountAppend(log[c..], e, IsSubmit);
    CountAppend(log[c..], e, IsPoll);
    CountAppend(log[c..], e, IsRecord);
  }

  /** After the flag is cleared a run submits at most once more, and only if it had
      already read the flag as true; its polls are covered by the completions it records. */
  lemma {:induction false} StopAndDrain(depth: nat, log: seq<Event>, c: nat)
    requires depth >= 1 && Replay(depth, log).Some? && ClearedAt(log, c)
    requires Replay(depth, log[..c]).Some?
    ensures AccountedLog(depth, log, c)
    decreases |log|
  {
    if |log| == c {
      assert log[c..] == [] && log[..c] == log;
    } else {
      var n := |log| - 1;
      assert log[..n][..c] == log[..c] && log == log[..n] + [log[n]];
      StopAndDrain(depth, log[..n], c);
      AccountedAppend(depth, log[..n], c, log[n]);
    }
  }

  /** A finished run: at most one submission and at most inFlight + 1 polls after the flag is cleared. */
  lemma DrainIsBounded(depth: nat, log: seq<Event>, c: nat)
    requires depth >= 1 && Replay(depth, log).Some? && ClearedAt(log, c)
    requires Replay(depth, log[..c]).Some? && Replay(depth, log).value.pc.Done?
    ensures var before := Replay(depth, log[..c]).value;
      && Count(log[c..], IsSubmit) <= One(Committed(before.pc))
      && Count(log[c..], IsPoll) <= before.inFlight + One(Committed(before.pc))
      && Count(log[c..], IsRecord) == before.inFlight + Count(log[c..], IsSubmit)
  {
    StopAndDrain(depth, log, c);
    QueueAlways(depth, log);
  }

  /** The event that takes the loop on when the flag reads false; a poll returns one completion. */
  function Continue(depth: nat, pc: Pc): Event {
    match pc
    case Fill(_) | Head | Decide(_) | SyncHead => Load(false)
    case FillSubmit(_) | Refill(_) | SyncSubmit => Submit
    case Polling | SyncPoll => Poll(1, depth)
    case Drain(_) | SyncDrain(_) | Done => Record
  }

  /** The automaton never gets stuck: once the flag reads false, an event that needs
      nothing but the engine's answer continues the run until it is Done. */
  lemma StoppedRunsContinue(depth: nat, s: Loop)
    requires QueueInvariant(depth, s) && !s.pc.Done?
    ensures Continue(depth, s.pc) != Load(true) && Step(depth, s, Continue(depth, s.pc)).Some?
    ensures Rank(Step(depth, s, Continue(depth, s.pc)).value) < Rank(s)
  {
    RankDecreases(depth, s, Continue(depth, s.pc));
  }

  /** How many more events a run can take once the flag stays false. */
  function Rank(s: Loop): nat {
    4 * s.inFlight +
    match s.pc
    case Fill(_) => 8
    case FillSubmit(_) => 13
    case Head => 7
    case Polling => 6
    case Drain(_) => 5
    case Decide(_) => 8
    case Refill(_) => 12
    case SyncHead => 7
    case SyncSubmit => 11
    case SyncPoll => 6
    case SyncDrain(_) => 5
    case Done => 0
  }

  lemma RankDecreases(depth: nat, s: Loop, e: Event)
    requires QueueInvariant(depth, s) && Step(depth, s, e).Some? && e != Load(true)
    ensures Rank(Step(depth, s, e).value) < Rank(s)
  {
  }
}
