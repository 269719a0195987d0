/** The engine a worker owns: one of the four, called through the common interface
    of src/engine/i_engine_io.h. The contracts here are the specification of
    outstanding requests; each body shows that the engine at hand meets it. */
module Engines {
  import opened Types
  import opened EngineSpec
  import opened Kernel
  import opened Libaio
  import opened IoUring
  import opened Blocking

  datatype Engine =
    | Aio(aio: LibaioEngine)
    | Uring(uring: IoUringEngine)
    | Psync(psync: PsyncEngine)
    | Sync(sync: SyncEngine)
  {
    ghost function Repr(): object {
      match this
      case Aio(e) => e
      case Uring(e) => e
      case Psync(e) => e
      case Sync(e) => e
    }

    function Os(): System {
      match this
      case Aio(e) => e.os
      case Uring(e) => e.os
      case Psync(e) => e.os
      case Sync(e) => e.os
    }

    /** The system calls of a submission: they carry the request, and their answer decides
        its outcome. A length that io_uring cannot express is refused without a call. */
    ghost predicate SubmitCalls(before: seq<Call>, after: seq<Call>, request: Request, r: Outcome) {
      var n := |before|;
      && before <= after
      && match this
         case Aio(_) =>
           && |after| == n + 1 && after[n].AioSubmit? && after[n].request == request
           && r == (if after[n].ret == 1 then Ok else Threw(System(if after[n].ret < 0 then -after[n].ret else EIO)))
         case Uring(_) =>
           if request.length > U32_MAX then |after| == n && r == Threw(LengthTooLarge) else
             && |after| == n + 1 && after[n].RingSubmit? && after[n].entries != []
             && after[n].entries[|after[n].entries| - 1].request == request
             && r == (if after[n].ret < 0 then Threw(System(-after[n].ret)) else Ok)
         case Psync(_) =>
           r.Ok? && |after| == n + 1 && after[n].Positioned? && after[n].request == request
         case Sync(_) =>
           && r.Ok? && n < |after| && after[n].Sought? && after[n].offset == request.offset
           && if after[n].result == -1 then |after| == n + 1
              else |after| == n + 2 && after[n + 1].Streamed? && after[n + 1].request == request
    }

    /** The system calls of a poll with `outstanding` requests, for between `least` and `most`
        completions, if it returns: a failing one is thrown. */
    ghost predicate PollCalls(before: seq<Call>, after: seq<Call>, least: int, most: int,
                              outstanding: nat, depth: nat, r: Outcome)
    {
      before <= after &&
      match this
      case Aio(_) =>
        if outstanding == 0 then r.Ok? && after == before
        else exists answers :: EventsAsked(before, after, least, most, outstanding, depth, r, answers)
      case Uring(_) => exists answers :: PollAsked(before, after, least, Least(most, depth), r, answers)
      case _ => r.Ok? && after == before
    }

    /** The requests that were accepted and not yet completed. */
    ghost function Pending(): Outstanding
      reads Repr()
    {
      match this
      case Aio(e) => e.inFlight
      case Uring(e) => e.inFlight
      case Psync(e) => e.pending
      case Sync(e) => e.pending
    }

    /** Open, in good order, and with room for `depth` requests. */
    ghost predicate Ready(depth: nat)
      reads Repr()
    {
      match this
      case Aio(e) => e.Valid() && e.isOpen && e.iodepth == depth
      case Uring(e) => e.Clean() && e.isOpen && e.iodepth == depth
      case Psync(e) => e.Valid() && e.isOpen && depth == 1
      case Sync(e) => e.Valid() && e.isOpen && depth == 1
    }

    /** A wait for `events` completions would never end: the kernel of an io_uring holds
        fewer requests than that, whatever is still in the submission ring. */
    ghost predicate Starves(events: int)
      reads Repr()
    {
      Uring? && events > |uring.ctx|
    }

    /** Every outstanding request still sits in the submission ring, because
        io_uring_submit returned without consuming it. */
    ghost predicate AllBuffered()
      reads Repr()
    {
      Uring? && uring.ctx == [] && uring.sq != [] && uring.zeroSubmits
    }
  }

  /** A client that keeps the contract -- a fresh id, and at most `depth` requests
      outstanding -- never sees a contract error. */
  method SubmitIO(e: Engine, request: Request, ghost depth: nat) returns (r: Outcome)
    requires e.Ready(depth)
    requires request.id !in e.Pending() && |e.Pending()| < depth
    requires request.offset >= 0 && e.Os() as object != e.Repr()
    modifies e.Repr(), e.Os()
    ensures e.SubmitCalls(old(e.Os().journal), e.Os().journal, request, r)
    ensures !r.Hangs? && CallerKept(r)
    ensures r.Ok? ==> e.Ready(depth) && e.Pending() == old(e.Pending())[request.id := InfoOf(request)]
    ensures r.Threw? ==> e.Pending() == old(e.Pending())
    ensures r == Threw(LengthTooLarge) ==> e.Uring? && request.length > U32_MAX
  {
    match e {
      case Aio(a) =>
        r := a.SubmitIO(request);
      case Uring(u) =>
        r := u.SubmitIO(request);
      case Psync(p) =>
        OneEntry(p.pending);
        r := p.SubmitIO(request);
      case Sync(s) =>
        OneEntry(s.pending);
        r := s.SubmitIO(request);
    }
  }

  lemma OneEntry(o: Outstanding)
    ensures o != map[] ==> |o| >= 1
  {
    if o != map[] {
      var id :| id in o;
      assert |o.Keys| >= 1;
    }
  }

  /** A poll waits for `minEvents` completions, or for all of the at most `depth` that are
      outstanding if those are fewer; io_uring alone may have to wait forever. A code that contradicts its
      success flag comes only from libaio, for a full transfer reported as failed. */
  method PollCompletions(e: Engine, minEvents: int, maxEvents: int, out: seq<Completion>, ghost depth: nat)
    returns (r: Outcome, out': seq<Completion>)
    requires e.Ready(depth)
    requires 1 <= minEvents <= maxEvents && e.Os() as object != e.Repr()
    modifies e.Repr(), e.Os()
    ensures old(e.Os().journal) <= e.Os().journal
    ensures r.Hangs? ==> e.Os().journal == old(e.Os().journal)
    ensures !r.Hangs? ==>
      e.PollCalls(old(e.Os().journal), e.Os().journal, minEvents, maxEvents, |old(e.Pending())|, depth, r)
    ensures e.Ready(depth) && CallerKept(r)
    ensures |out'| >= |out| && out'[..|out|] == out
    ensures Delivers(old(e.Pending()), out'[|out|..], e.Pending())
    ensures !e.Aio? ==> AllCodesMatch(out'[|out|..])
    ensures forall i :: |out| <= i < |out'| && !CodeMatches(out'[i]) ==>
      && !out'[i].success && out'[i].id in old(e.Pending())
      && out'[i].bytes == old(e.Pending())[out'[i].id].length
    ensures |out'| - |out| <= maxEvents
    ensures r.Ok? ==> |out'| - |out| >= Min(minEvents, Min(depth, |old(e.Pending())|))
    ensures !r.Ok? ==> out' == out && e.Pending() == old(e.Pending())
    ensures r.Hangs? <==> old(e.Starves(minEvents))
    ensures r.Hangs? ==> e.Starves(minEvents)
  {
    match e {
      case Aio(a) => r, out' := PollAio(a, minEvents, maxEvents, out);
      case Uring(u) => r, out' := PollUring(u, minEvents, maxEvents, out);
      case Psync(p) =>
        OneEntryAtMost(p.hasCompletion, p.lastCompletion, p.pending);
        out' := p.PollCompletions(maxEvents, out);
        assert forall i :: |out| <= i < |out'| ==> out'[i] == out'[|out|..][i - |out|];
        r := Ok;
      case Sync(s) =>
        OneEntryAtMost(s.hasCompletion, s.lastCompletion, s.pending);
        out' := s.PollCompletions(maxEvents, out);
        assert forall i :: |out| <= i < |out'| ==> out'[i] == out'[|out|..][i - |out|];
        r := Ok;
    }
  }

  method PollAio(a: LibaioEngine, minEvents: int, maxEvents: int, out: seq<Completion>)
    returns (r: Outcome, out': seq<Completion>)
    requires a.Valid() && a.isOpen && 1 <= minEvents <= maxEvents
    modifies a, a.os
    ensures a.Valid() && a.isOpen && a.iodepth == old(a.iodepth) && CallerKept(r) && !r.Hangs?
    ensures |out'| >= |out| && out'[..|out|] == out && |out'| - |out| <= maxEvents
    ensures Delivers(old(a.inFlight), out'[|out|..], a.inFlight)
    ensures forall i :: |out| <= i < |out'| && !CodeMatches(out'[i]) ==>
      && !out'[i].success && out'[i].id in old(a.inFlight)
      && out'[i].bytes == old(a.inFlight)[out'[i].id].length
    ensures r.Ok? ==> |out'| - |out| >= Min(minEvents, |old(a.inFlight)|)
    ensures r.Threw? ==> out' == out && a.inFlight == old(a.inFlight)
    ensures Aio(a).PollCalls(old(a.os.journal), a.os.journal, minEvents, maxEvents, |old(a.inFlight)|, a.iodepth, r)
  {
    hide Books, Delivers;
    ghost var answers;
    r, out', answers := a.PollCompletions(minEvents, maxEvents, out);
    ReportedCodes(old(a.inFlight), answers, out'[|out|..]);
    assert forall i :: |out| <= i < |out'| ==> out'[i] == out'[|out|..][i - |out|];
    assert old(a.inFlight) == map[] <==> |old(a.inFlight)| == 0;
  }

  method PollUring(u: IoUringEngine, minEvents: int, maxEvents: int, out: seq<Completion>)
    returns (r: Outcome, out': seq<Completion>)
    requires u.Clean() && u.isOpen && 1 <= minEvents <= maxEvents
    modifies u, u.os
    ensures u.Clean() && u.isOpen && u.iodepth == old(u.iodepth) && CallerKept(r)
    ensures |out'| >= |out| && out'[..|out|] == out && |out'| - |out| <= maxEvents
    ensures Delivers(old(u.inFlight), out'[|out|..], u.inFlight) && AllCodesMatch(out'[|out|..])
    ensures r.Ok? ==> |out'| - |out| >= Min(minEvents, Min(u.iodepth, |old(u.inFlight)|))
    ensures !r.Ok? ==> out' == out && u.inFlight == old(u.inFlight) && u.ctx == old(u.ctx)
    ensures r.Hangs? <==> minEvents > |old(u.ctx)|
    ensures r.Hangs? ==> u.os.journal == old(u.os.journal)
    ensures !r.Hangs? ==>
      Uring(u).PollCalls(old(u.os.journal), u.os.journal, minEvents, maxEvents, |old(u.inFlight)|, u.iodepth, r)
  {
    assert |u.ctx + u.sq| == |u.inFlight|;
    RingBooksCover(u.ctx, u.sq, u.inFlight);
    hide RingBooks, Covered, Delivers, DistinctEntries, OneEntryEach, AllCodesMatch;
    ghost var answers;
    r, out', answers := u.PollCompletions(minEvents, maxEvents, out);
  }

  lemma OneEntryAtMost(hasCompletion: bool, c: Completion, pending: Outstanding)
    requires OneSlot(hasCompletion, c, pending)
    ensures |pending| == if pending == map[] then 0 else 1
  {
    if hasCompletion {
      assert |pending.Keys| == |{c.id}| == 1;
    }
  }

  /** When something is outstanding, waiting for one completion starves only if everything
      is still in the ring. */
  lemma StarvesOnlyWhenBuffered(e: Engine, depth: nat)
    requires e.Ready(depth) && e.Pending() != map[]
    ensures e.Starves(1) <==> e.AllBuffered()
  {
    if e.Uring? {
      OneEntry(e.uring.inFlight);
      assert |e.uring.ctx + e.uring.sq| == |e.uring.inFlight|;
    }
  }

  /** An endless wait: an engine whose first io_uring_submit returned 0 has the request in its
      table, in good order, and its kernel holds nothing for a poll to return. */
  lemma BufferedRequestStarves(e: Engine, r: Request)
    requires e.Uring? && (e.uring.ctx, e.uring.sq, e.uring.inFlight) == AfterSubmit([], [], map[], r, 0)
    ensures r.id in e.Pending() && RingBooks(e.uring.ctx + e.uring.sq, e.Pending()) && e.Starves(1)
  {
    assert [] + [Accepted(r, 0)] == [Accepted(r, 0)];
    assert [Accepted(r, 0)][..0] == [] && [Accepted(r, 0)][0..] == [Accepted(r, 0)];
  }

  lemma ReadyHasRoom(e: Engine, depth: nat)
    requires e.Ready(depth)
    ensures depth >= 1
  {
  }

  /** The poll of the worker: with something outstanding, wait for one completion. */
  method PollSome(e: Engine, maxEvents: int, ghost depth: nat) returns (r: Outcome, batch: seq<Completion>)
    requires e.Ready(depth) && e.Pending() != map[] && maxEvents >= 1 && e.Os() as object != e.Repr()
    modifies e.Repr(), e.Os()
    ensures old(e.Os().journal) <= e.Os().journal
    ensures r.Hangs? ==> e.Os().journal == old(e.Os().journal)
    ensures !r.Hangs? ==>
      e.PollCalls(old(e.Os().journal), e.Os().journal, 1, maxEvents, |old(e.Pending())|, depth, r)
    ensures e.Ready(depth) && CallerKept(r)
    ensures Delivers(old(e.Pending()), batch, e.Pending())
    ensures !e.Aio? ==> AllCodesMatch(batch)
    ensures |batch| <= maxEvents
    ensures r.Ok? ==> batch != []
    ensures !r.Ok? ==> batch == [] && e.Pending() == old(e.Pending())
    ensures r.Hangs? <==> old(e.AllBuffered())
    ensures r.Hangs? ==> e.AllBuffered()
  {
    hide Engine.Ready, Engine.Starves, Engine.AllBuffered, AllCodesMatch, CodeMatches, Delivers;
    StarvesOnlyWhenBuffered(e, depth);
    ReadyHasRoom(e, depth);
    OneEntry(e.Pending());
    r, batch := PollCompletions(e, 1, maxEvents, [], depth);
    assert batch[0..] == batch;
    if r.Hangs? {
      StarvesOnlyWhenBuffered(e, depth);
    }
  }
}
