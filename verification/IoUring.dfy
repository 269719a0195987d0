/** src/engine/io_uring_engine.cpp: a submission ring in front of the kernel. */
module IoUring {
  import opened Types
  import opened Sequences
  import opened Kernel
  import opened EngineSpec

  function CompletionOf(id: nat, info: SubmitInfo, res: int): Completion {
    if res < 0 then Completion(id, 0, info.direction, false, -res, info.submitTime)
    else if res == info.length then Completion(id, res, info.direction, true, 0, info.submitTime)
    else Completion(id, res, info.direction, false, EIO, info.submitTime)
  }

  lemma CompletionAnswers(id: nat, info: SubmitInfo, res: int)
    requires LegalResult(res, info.length)
    ensures var c := CompletionOf(id, info, res);
      Answers(c, info) && Reports(c, info, if res < 0 then -res else 0, if res < 0 then 0 else res)
  {
  }

  /** What one pass over a batch of queue entries does to the table: entries with an
      unknown id are logged and skipped. */
  function Reaped(table: Outstanding, events: seq<Event>): (r: (seq<Completion>, Outstanding))
    decreases |events|
  {
    if events == [] then ([], table) else
      var e := events[0];
      if e.data !in table then Reaped(table, events[1..]) else
        var rest := Reaped(table - {e.data}, events[1..]);
        ([CompletionOf(e.data, table[e.data], e.res)] + rest.0, rest.1)
  }

  lemma {:induction false} ReapedCodes(table: Outstanding, events: seq<Event>)
    ensures AllCodesMatch(Reaped(table, events).0)
    decreases |events|
  {
    if events != [] {
      var e := events[0];
      ReapedCodes(if e.data in table then table - {e.data} else table, events[1..]);
    }
  }

  /** The table describes exactly the entries that are in the ring or in the kernel. */
  ghost predicate RingBooks(entries: seq<Accepted>, table: Outstanding) {
    && |table| == |entries|
    && (forall i :: 0 <= i < |entries| ==>
          entries[i].request.id in table && table[entries[i].request.id] == InfoOf(entries[i].request))
    && (forall i, j :: 0 <= i < j < |entries| ==> entries[i].request.id != entries[j].request.id)
  }

  lemma RingBooksAccept(entries: seq<Accepted>, table: Outstanding, a: Accepted)
    requires RingBooks(entries, table) && a.request.id !in table
    ensures RingBooks(entries + [a], table[a.request.id := InfoOf(a.request)])
  {
  }

  lemma RingBooksAnswer(entries: seq<Accepted>, table: Outstanding, at: nat)
    requires RingBooks(entries, table) && at < |entries|
    ensures RingBooks(RemoveAt(entries, at), table - {entries[at].request.id})
  {
    var id := entries[at].request.id;
    assert table.Keys == (table - {id}).Keys + {id};
  }

  /** Entries that the table describes are covered by it. */
  lemma RingBooksCover(held: seq<Accepted>, sq: seq<Accepted>, table: Outstanding)
    requires RingBooks(held + sq, table)
    ensures Covered(held, table) && Covered(sq, table)
  {
    CoveredUnion(held, sq, table);
  }

  lemma {:induction false} ReapedDelivers(held: seq<Accepted>, sq: seq<Accepted>, table: Outstanding,
      events: seq<Event>)
    requires RingBooks(held + sq, table) && LegalEvents(held, events)
    ensures var (batch, table') := Reaped(table, events);
      && |batch| == |events|
      && Delivers(table, batch, table')
      && RingBooks(After(held, events) + sq, table')
    decreases |events|
  {
    if events != [] {
      var e := events[0];
      var held' := RemoveAt(held, e.at);
      assert (held + sq)[e.at] == held[e.at];
      RingBooksAnswer(held + sq, table, e.at);
      assert RemoveAt(held + sq, e.at) == held' + sq;
      CompletionAnswers(e.data, table[e.data], e.res);
      ReapedDelivers(held', sq, table - {e.data}, events[1..]);
    }
  }

  class IoUringEngine {
    const os: System
    var isOpen: bool              // fd_ >= 0 and ring_initialized_
    var iodepth: nat
    var sqEntries: nat            // capacity of the submission ring
    var cqeBatch: nat             // cqe_batch_.size()
    var inFlight: Outstanding
    var sq: seq<Accepted>         // prepared, not yet consumed by io_uring_submit
    var ctx: seq<Accepted>        // what the kernel holds
    ghost var zeroSubmits: bool   // some io_uring_submit left entries in the ring

    ghost predicate Valid()
      reads this
    {
      && (isOpen ==> iodepth >= 1 && cqeBatch == iodepth && iodepth <= sqEntries && |sq| <= sqEntries)
      && (!isOpen ==> iodepth == 0 && inFlight == map[] && sq == [] && ctx == [] && !zeroSubmits)
    }

    /** No io_uring_submit failed since Open. */
    ghost predicate Clean()
      reads this
    {
      && Valid()
      && RingBooks(ctx + sq, inFlight)
      && (!zeroSubmits ==> sq == [])
    }

    constructor (os: System)
      ensures Clean() && !isOpen && this.os == os
    {
      this.os := os;
      isOpen, iodepth, sqEntries, cqeBatch := false, 0, 0, 0;
      inFlight, sq, ctx, zeroSubmits := map[], [], [], false;
    }

    /** `file` and `init` are the results of opening the file and of io_uring_queue_init,
        which rounds the ring size `entries` up to a power of two. */
    method Open(depth: int, file: Outcome, init: int, entries: nat) returns (r: Outcome)
      requires Valid() && !file.Hangs? && entries >= depth
      modifies this
      ensures r.Ok? <==> !old(isOpen) && depth >= 1 && file.Ok? && init >= 0
      ensures r == OpenOutcome(old(isOpen), depth, file, init)
      ensures r.Ok? ==> Clean() && isOpen && iodepth == depth && inFlight == map[]
      ensures !r.Ok? ==> Valid() && isOpen == old(isOpen) && inFlight == old(inFlight)
    {
      if isOpen {
        return Threw(AlreadyOpen);
      }
      if depth < 1 {
        return Threw(BadDepth);
      }
      if !file.Ok? {
        return file;
      }
      if init < 0 {
        return Threw(System(-init));
      }
      isOpen, iodepth, sqEntries, cqeBatch := true, depth, entries, depth;
      r := Ok;
    }

    /** Every entry with an outstanding id is at most as long as the request of that id. */
    ghost predicate IsCovered()
      reads this
    {
      Covered(ctx, inFlight) && Covered(sq, inFlight)
    }

    /** Unlike libaio, a failed io_uring_submit is not rolled back: the prepared entry
        stays in the ring although its id has left the table. What io_uring_submit
        answered decides, when it was reached. */
    method SubmitIO(request: Request) returns (r: Outcome)
      requires Valid()
      modifies this, os
      ensures Valid() && isOpen == old(isOpen) && iodepth == old(iodepth)
      ensures !r.Hangs?
      ensures Submitted(r) ==> SubmitAsked(old(os.journal), os.journal, old(sq) + [Accepted(request, 0)])
      ensures Submitted(r) ==> var ret := os.journal[|old(os.journal)|].ret;
        && -MAX_ERRNO <= ret <= |old(sq)| + 1
        && r == (if ret < 0 then Threw(System(-ret)) else Ok)
        && (ctx, sq, inFlight) == AfterSubmit(old(ctx), old(sq), old(inFlight), request, ret)
      ensures !Submitted(r) ==> os.journal == old(os.journal)
      ensures Submitted(r) ==> request.id !in old(inFlight) && request.length <= U32_MAX
      ensures !Submitted(r) ==> inFlight == old(inFlight) && ctx == old(ctx) && sq == old(sq)
      // when the books survive
      ensures old(Clean()) ==> (Clean() <==> !(r.Threw? && r.error.System?))
      ensures Submitted(r) && old(DistinctEntries(ctx + sq)) ==>
        (DistinctEntries(ctx + sq) <==> !old(HeldIn(ctx + sq, request.id)))
      ensures Submitted(r) && old(OneEntryEach(ctx + sq, [], inFlight)) ==>
        (OneEntryEach(ctx + sq, [], inFlight) <==> r.Threw? || !old(HeldIn(ctx + sq, request.id)))
      ensures old(IsCovered()) && r.Ok? ==> (IsCovered() <==> old(AtMostAsLong(ctx + sq, request)))
      ensures old(IsCovered()) && !r.Ok? ==> IsCovered()
      // the contract errors
      ensures r == Threw(NotOpen) <==> !old(isOpen)
      ensures r == Threw(LengthTooLarge) <==> old(isOpen) && request.length > U32_MAX
      ensures r == Threw(DuplicateId) <==>
        old(isOpen) && request.length <= U32_MAX && request.id in old(inFlight)
      ensures r == Threw(QueueFull) <==>
        && old(isOpen) && request.length <= U32_MAX && request.id !in old(inFlight)
        && |old(sq)| == old(sqEntries)
      ensures r.Threw? ==> r.error in {NotOpen, DuplicateId, QueueFull, LengthTooLarge} || r.error.System?
    {
      if !isOpen {
        return Threw(NotOpen);
      }
      if request.length > U32_MAX {
        return Threw(LengthTooLarge);
      }
      if request.id in inFlight {
        return Threw(DuplicateId);
      }
      if |sq| >= sqEntries {
        return Threw(QueueFull);
      }
      hide RingBooks, DistinctEntries, OneEntryEach, Covered, AtMostAsLong, HeldIn, AfterSubmit;
      ghost var ret;
      r, ret := Enqueue(request);
    }

    /** Prepare an entry, note the request, and submit. */
    method Enqueue(request: Request) returns (r: Outcome, ghost ret: int)
      requires Valid() && isOpen && |sq| < sqEntries && request.id !in inFlight
      modifies this`sq, this`ctx, this`inFlight, this`zeroSubmits, os
      ensures Valid() && Submitted(r) && -MAX_ERRNO <= ret <= |old(sq)| + 1
      ensures r == if ret < 0 then Threw(System(-ret)) else Ok
      ensures os.journal == old(os.journal) + [RingSubmit(old(sq) + [Accepted(request, 0)], ret)]
      ensures (ctx, sq, inFlight) == AfterSubmit(old(ctx), old(sq), old(inFlight), request, ret)
      ensures old(Clean()) ==> (Clean() <==> ret >= 0)
      ensures old(DistinctEntries(ctx + sq)) ==>
        (DistinctEntries(ctx + sq) <==> !old(HeldIn(ctx + sq, request.id)))
      ensures old(OneEntryEach(ctx + sq, [], inFlight)) ==>
        (OneEntryEach(ctx + sq, [], inFlight) <==> ret < 0 || !old(HeldIn(ctx + sq, request.id)))
      ensures old(IsCovered()) ==> (IsCovered() <==> ret < 0 || old(AtMostAsLong(ctx + sq, request)))
    {
      hide RingBooks, DistinctEntries, OneEntryEach, Covered, AtMostAsLong, HeldIn;
      ghost var held, prepared, table := ctx, sq, inFlight;
      var entry := Accepted(request, 0);
      sq := sq + [entry];
      inFlight := inFlight[request.id := InfoOf(request)];
      var result, consumed, left := os.UringSubmit(ctx, sq);
      ret := result;
      SubmittedEntries(held, prepared, table, request, ret);
      ctx, sq := consumed, left;
      if result < 0 {
        inFlight := inFlight - {request.id};
        assert inFlight == table;
        return Threw(System(-result)), ret;
      }
      if sq != [] {
        zeroSubmits := true;
      }
      r := Ok;
    }

    /** io_uring_wait_cqe_nr never returns when the kernel holds fewer requests than
        are waited for, whatever still sits in the ring. `answers` are the queue entries
        that were read; they determine the whole batch, also after a failed submit. */
    method PollCompletions(minEvents: int, maxEvents: int, out: seq<Completion>)
      returns (r: Outcome, out': seq<Completion>, ghost answers: seq<Event>)
      requires Valid()
      modifies this, os
      ensures Valid() && isOpen == old(isOpen) && iodepth == old(iodepth) && sq == old(sq)
      ensures zeroSubmits == old(zeroSubmits)
      ensures LegalEvents(old(ctx), answers) && ctx == After(old(ctx), answers)
      ensures out' == out + Reaped(old(inFlight), answers).0 && inFlight == Reaped(old(inFlight), answers).1
      ensures AllCodesMatch(out'[|out|..])
      ensures old(Clean()) ==> Clean() && |answers| == |out'| - |out|
      ensures old(IsCovered()) ==> IsCovered() && Delivers(old(inFlight), out'[|out|..], inFlight)
      ensures old(DistinctEntries(ctx + sq)) ==> DistinctEntries(ctx + sq)
      ensures old(OneEntryEach(ctx, sq, inFlight)) ==>
        OneEntryEach(ctx, sq, inFlight) && forall i :: |out| <= i < |out'| ==> !HeldIn(ctx + sq, out'[i].id)
      ensures maxEvents >= 0 ==> |out'| - |out| <= maxEvents
      ensures r.Hangs? <==> old(isOpen) && maxEvents >= 1 && minEvents > |old(ctx)|
      ensures r.Threw? ==> r.error.System?
      ensures !r.Ok? ==> answers == []
      ensures r.Ok? && old(isOpen) && 1 <= minEvents <= maxEvents ==> |answers| >= Least(minEvents, iodepth)
      // what the system answered decides, when it was asked and did answer
      ensures old(isOpen) && maxEvents >= 1 && !r.Hangs? ==>
        PollAsked(old(os.journal), os.journal, minEvents, Least(maxEvents, iodepth), r, answers)
      ensures !old(isOpen) || maxEvents < 1 ==> r.Ok? && os.journal == old(os.journal)
      ensures r.Hangs? ==> os.journal == old(os.journal)
    {
      out', answers := out, [];
      if !isOpen || maxEvents < 1 {
        return Ok, out, [];
      }
      var least := if minEvents < 0 then 0 else minEvents;
      if least > 0 {
        if least > |ctx| {
          return Hangs, out, [];
        }
        var ret := os.UringWait(least);
        if ret < 0 {
          return Threw(System(-ret)), out, [];
        }
      }
      var limit := if maxEvents > cqeBatch then cqeBatch else maxEvents;
      hide RingBooks, DistinctEntries, OneEntryEach, Covered, HeldIn, CompletionOf, AllCodesMatch;
      out', answers := PeekAndReap(if least > limit then limit else least, limit, out);
      r := Ok;
    }

    /** One look at the queue, for at least `least` and at most `limit` entries. */
    method PeekAndReap(least: nat, limit: nat, out: seq<Completion>)
      returns (out': seq<Completion>, ghost answers: seq<Event>)
      requires least <= limit && least <= |ctx|
      modifies this`inFlight, this`ctx, os
      ensures LegalEvents(old(ctx), answers) && ctx == After(old(ctx), answers)
      ensures least <= |answers| <= limit && os.journal == old(os.journal) + [RingPeek(limit, answers)]
      ensures out' == out + Reaped(old(inFlight), answers).0 && inFlight == Reaped(old(inFlight), answers).1
      ensures AllCodesMatch(out'[|out|..]) && |out'| - |out| <= |answers|
      ensures RingBooks(old(ctx) + sq, old(inFlight)) ==> RingBooks(ctx + sq, inFlight) && |answers| == |out'| - |out|
      ensures old(IsCovered()) ==> IsCovered() && Delivers(old(inFlight), out'[|out|..], inFlight)
      ensures DistinctEntries(old(ctx) + sq) ==> DistinctEntries(ctx + sq)
      ensures OneEntryEach(old(ctx), sq, old(inFlight)) ==>
        OneEntryEach(ctx, sq, inFlight) && forall i :: |out| <= i < |out'| ==> !HeldIn(ctx + sq, out'[i].id)
    {
      hide RingBooks, DistinctEntries, OneEntryEach, Covered, HeldIn, CompletionOf, AllCodesMatch;
      var batch, rest := os.UringPeek(ctx, least, limit);
      PolledEntries(ctx, sq, inFlight, batch);
      out' := Reap(batch, out);
      assert out'[|out|..] == Reaped(old(inFlight), batch).0;
      ctx, answers := rest, batch;
    }

    /** The loop over the queue entries. */
    method Reap(batch: seq<Event>, out: seq<Completion>) returns (out': seq<Completion>)
      modifies this`inFlight
      ensures out' == out + Reaped(old(inFlight), batch).0
      ensures |out'| <= |out| + |batch|
      ensures inFlight == Reaped(old(inFlight), batch).1
    {
      out' := out;
      var i := 0;
      while i < |batch|
        invariant 0 <= i <= |batch|
        invariant |out'| <= |out| + i
        invariant out' + Reaped(inFlight, batch[i..]).0 == out + Reaped(old(inFlight), batch).0
        invariant Reaped(inFlight, batch[i..]).1 == Reaped(old(inFlight), batch).1
      {
        var e := batch[i];
        assert batch[i..][0] == e && batch[i..][1..] == batch[i + 1..];
        if e.data in inFlight {
          var c := CompletionOf(e.data, inFlight[e.data], e.res);
          inFlight := inFlight - {e.data};
          out' := out' + [c];
        }
        i := i + 1;
      }
    }

    /** The drain loop of Close. A wait that reports an error ends it. When none does, it
        ends exactly if the kernel holds an entry for every id in the table, and otherwise
        waits forever. */
    method Drain() returns (r: Outcome, waitFailed: bool)
      requires Valid()
      modifies this`inFlight, this`ctx, os
      ensures waitFailed <==> old(os.journal) < os.journal && FailedWait(os.journal[|os.journal| - 1])
      ensures !waitFailed ==> (r.Ok? <==> forall id :: id in old(inFlight) ==> HeldIn(old(ctx), id))
      ensures !waitFailed && r.Ok? ==> inFlight == map[]
      ensures waitFailed ==> r.Ok? && old(inFlight) != map[]
      ensures inFlight.Keys <= old(inFlight).Keys
      ensures r.Ok? || r.Hangs?
    {
      r, waitFailed := Ok, false;
      while inFlight != map[]
        invariant r.Ok? && !waitFailed && inFlight.Keys <= old(inFlight).Keys
        invariant old(os.journal) <= os.journal
        invariant old(os.journal) < os.journal ==> !FailedWait(os.journal[|os.journal| - 1])
        invariant (forall id :: id in old(inFlight) ==> HeldIn(old(ctx), id)) <==>
          (forall id :: id in inFlight ==> HeldIn(ctx, id))
        decreases |ctx|
      {
        var ret := os.UringWait(1);
        if ret < 0 {
          return Ok, true;
        }
        if ctx == [] {  // nothing can arrive: this wait does not return
          var id :| id in inFlight;
          assert !HeldIn(ctx, id);
          return Hangs, false;
        }
        var batch, rest := os.UringPeek(ctx, 1, 1);
        var e := batch[0];
        DrainStep(ctx, inFlight, e);
        assert After(ctx, batch) == RemoveAt(ctx, e.at);
        ctx := rest;
        inFlight := inFlight - {e.data};
      }
    }

    /** Close drains, then drops whatever is left. */
    method Close() returns (r: Outcome)
      requires Valid()
      modifies this, os
      ensures r.Ok? || r.Hangs?
      ensures r.Ok? ==> Clean() && !isOpen
      ensures r.Hangs? ==> exists id :: id in old(inFlight) && !HeldIn(old(ctx), id)
    {
      r := Ok;
      if isOpen {
        var waitFailed;
        r, waitFailed := Drain();
        if r.Hangs? {
          return;
        }
      }
      isOpen, iodepth, sqEntries, cqeBatch := false, 0, 0, 0;
      inFlight, sq, ctx, zeroSubmits := map[], [], [], false;
    }
  }

  /** One io_uring_submit, of these prepared entries. */
  ghost predicate SubmitAsked(before: seq<Call>, after: seq<Call>, entries: seq<Accepted>) {
    && |after| == |before| + 1 && before <= after
    && after[|before|].RingSubmit? && after[|before|].entries == entries
  }

  ghost predicate FailedWait(call: Call) {
    call.RingWait? && call.ret < 0
  }

  /** A wait for min_events entries, if any are asked for, whose failure is thrown; otherwise
      one look at no more than `most` entries, which are the answers. */
  ghost predicate PollAsked(before: seq<Call>, after: seq<Call>, minEvents: int, most: int,
                            r: Outcome, answers: seq<Event>)
  {
    var n := |before|;
    && before <= after
    && (r.Threw? ==>
          && minEvents >= 1 && |after| == n + 1 && FailedWait(after[n])
          && after[n].least == minEvents && r == Threw(System(-after[n].ret)))
    && (r.Ok? && minEvents >= 1 ==>
          |after| == n + 2 && after[n] == RingWait(minEvents, 0) && Peeked(after[n + 1], most, answers))
    && (r.Ok? && minEvents < 1 ==> |after| == n + 1 && Peeked(after[n], most, answers))
  }

  ghost predicate Peeked(call: Call, most: int, answers: seq<Event>) {
    call.RingPeek? && call.most == most && call.events == answers
  }

  /** The submit call was reached: nothing before it threw. */
  predicate Submitted(r: Outcome) {
    r.Ok? || (r.Threw? && r.error.System?)
  }

  function Least(a: int, b: int): int {
    if a <= b then a else b
  }

  /** Kernel, ring and table after a submission whose io_uring_submit returned `ret`. */
  function AfterSubmit(held: seq<Accepted>, sq: seq<Accepted>, table: Outstanding, request: Request, ret: int)
    : (r: (seq<Accepted>, seq<Accepted>, Outstanding))
    requires ret <= |sq| + 1
  {
    var full := sq + [Accepted(request, 0)];
    if ret < 0 then (held, full, table)
    else (held + full[..ret], full[ret..], table[request.id := InfoOf(request)])
  }

  ghost predicate DistinctEntries(entries: seq<Accepted>) {
    forall i, j :: 0 <= i < j < |entries| ==> entries[i].request.id != entries[j].request.id
  }

  ghost predicate Covered(entries: seq<Accepted>, table: Outstanding) {
    forall i :: 0 <= i < |entries| && entries[i].request.id in table ==>
      entries[i].request.length <= table[entries[i].request.id].length
  }

  /** No other entry has the id of an outstanding request that the kernel may answer. */
  ghost predicate OneEntryEach(held: seq<Accepted>, sq: seq<Accepted>, table: Outstanding) {
    forall i, j :: 0 <= i < |held| && 0 <= j < |held + sq| && i != j && held[i].request.id in table ==>
      (held + sq)[j].request.id != held[i].request.id
  }

  /** Every entry that already carries the id of the request is at most as long as it. */
  ghost predicate AtMostAsLong(entries: seq<Accepted>, request: Request) {
    forall i :: 0 <= i < |entries| && entries[i].request.id == request.id ==>
        entries[i].request.length <= request.length
  }

  /** Whatever the outcome, one entry is added to those in the kernel or the ring. */
  lemma SubmittedEntries(held: seq<Accepted>, sq: seq<Accepted>, table: Outstanding, request: Request, ret: int)
    requires ret <= |sq| + 1 && request.id !in table
    ensures var (held', sq', table') := AfterSubmit(held, sq, table, request, ret);
      && held' + sq' == held + sq + [Accepted(request, 0)]
      && (RingBooks(held + sq, table) ==> (RingBooks(held' + sq', table') <==> ret >= 0))
      && (DistinctEntries(held + sq) ==> (DistinctEntries(held' + sq') <==> !HeldIn(held + sq, request.id)))
      && (OneEntryEach(held + sq, [], table) ==>
            (OneEntryEach(held' + sq', [], table') <==> ret < 0 || !HeldIn(held + sq, request.id)))
      && (Covered(held, table) && Covered(sq, table) ==>
            (Covered(held', table') && Covered(sq', table') <==> ret < 0 || AtMostAsLong(held + sq, request)))
  {
    hide DistinctEntries, OneEntryEach, HeldIn;
    var (held', sq', table') := AfterSubmit(held, sq, table, request, ret);
    var full := sq + [Accepted(request, 0)];
    assert full[..if ret < 0 then 0 else ret] + full[if ret < 0 then 0 else ret..] == full;
    assert held' + sq' == held + sq + [Accepted(request, 0)];
    if RingBooks(held + sq, table) && ret >= 0 {
      RingBooksAccept(held + sq, table, Accepted(request, 0));
    }
    if DistinctEntries(held + sq) {
      DistinctSubmitted(held + sq, request);
    }
    if OneEntryEach(held + sq, [], table) {
      OneEntrySubmitted(held + sq, table, request);
    }
    CoveredUnion(held, sq, table);
    CoveredUnion(held', sq', table');
    if Covered(held + sq, table) {
      CoveredSubmitted(held + sq, table, request);
    }
  }

  /** A rejected entry adds no second one to an outstanding id; an accepted request does so
      exactly if its id is still on a stale entry. */
  lemma OneEntrySubmitted(entries: seq<Accepted>, table: Outstanding, request: Request)
    requires OneEntryEach(entries, [], table) && request.id !in table
    ensures var longer := entries + [Accepted(request, 0)];
      && OneEntryEach(longer, [], table)
      && (OneEntryEach(longer, [], table[request.id := InfoOf(request)]) <==> !HeldIn(entries, request.id))
  {
    var longer := entries + [Accepted(request, 0)];
    assert longer + [] == longer && entries + [] == entries;
    if HeldIn(entries, request.id) {
      var i :| 0 <= i < |entries| && entries[i].request.id == request.id;
      assert longer[i].request.id == longer[|entries|].request.id;
    }
  }

  lemma CoveredUnion(a: seq<Accepted>, b: seq<Accepted>, table: Outstanding)
    ensures Covered(a + b, table) <==> Covered(a, table) && Covered(b, table)
  {
    if Covered(a + b, table) {
      assert forall i :: 0 <= i < |a| ==> (a + b)[i] == a[i];
      assert forall i :: 0 <= i < |b| ==> (a + b)[|a| + i] == b[i];
    }
  }

  lemma DistinctSubmitted(entries: seq<Accepted>, request: Request)
    requires DistinctEntries(entries)
    ensures DistinctEntries(entries + [Accepted(request, 0)]) <==> !HeldIn(entries, request.id)
  {
    var longer := entries + [Accepted(request, 0)];
    if HeldIn(entries, request.id) {
      var i :| 0 <= i < |entries| && entries[i].request.id == request.id;
      assert longer[i].request.id == longer[|entries|].request.id;
    }
  }

  /** A rejected entry stays covered; an accepted one covers the earlier entries of its id or not. */
  lemma CoveredSubmitted(entries: seq<Accepted>, table: Outstanding, request: Request)
    requires Covered(entries, table) && request.id !in table
    ensures Covered(entries + [Accepted(request, 0)], table)
    ensures Covered(entries + [Accepted(request, 0)], table[request.id := InfoOf(request)]) <==>
      AtMostAsLong(entries, request)
  {
    var longer, table' := entries + [Accepted(request, 0)], table[request.id := InfoOf(request)];
    if Covered(longer, table') {
      forall i | 0 <= i < |entries| && entries[i].request.id == request.id
        ensures entries[i].request.length <= request.length
      {
        assert longer[i] == entries[i];
      }
    }
  }

  ghost predicate HeldIn(held: seq<Accepted>, id: nat) {
    exists i :: 0 <= i < |held| && held[i].request.id == id
  }

  /** What one poll does to kernel, ring and table. */
  lemma PolledEntries(held: seq<Accepted>, sq: seq<Accepted>, table: Outstanding, events: seq<Event>)
    requires LegalEvents(held, events)
    ensures var (batch, table') := Reaped(table, events);
      && |batch| <= |events| && AllCodesMatch(batch)
      && (RingBooks(held + sq, table) ==> |batch| == |events| && RingBooks(After(held, events) + sq, table'))
      && (Covered(held, table) && Covered(sq, table) ==>
            Delivers(table, batch, table') && Covered(After(held, events), table') && Covered(sq, table'))
      && (DistinctEntries(held + sq) ==>
            DistinctEntries(After(held, events) + sq))
      && (OneEntryEach(held, sq, table) ==>
            && OneEntryEach(After(held, events), sq, table')
            && forall i :: 0 <= i < |batch| ==> !HeldIn(After(held, events) + sq, batch[i].id))
  {
    hide RingBooks, DistinctEntries, OneEntryEach, HeldIn, CompletionOf;
    ReapedCodes(table, events);
    ReapedSize(table, events);
    if RingBooks(held + sq, table) {
      ReapedDelivers(held, sq, table, events);
    }
    if Covered(held, table) && Covered(sq, table) {
      ReapedWhenCovered(held, table, events);
      ReapedShrinks(table, events);
    }
    if DistinctEntries(held + sq) {
      StillDistinct(held, sq, events);
    }
    if OneEntryEach(held, sq, table) {
      ReapedLeavesNone(held, sq, table, events);
    }
  }

  lemma {:induction false} ReapedSize(table: Outstanding, events: seq<Event>)
    ensures |Reaped(table, events).0| <= |events|
    decreases |events|
  {
    if events != [] {
      ReapedSize(if events[0].data in table then table - {events[0].data} else table, events[1..]);
    }
  }

  lemma {:induction false} ReapedShrinks(table: Outstanding, events: seq<Event>)
    ensures forall id :: id in Reaped(table, events).1 ==> id in table && Reaped(table, events).1[id] == table[id]
    decreases |events|
  {
    if events != [] {
      ReapedShrinks(if events[0].data in table then table - {events[0].data} else table, events[1..]);
    }
  }

  lemma {:induction false} ReapedWhenCovered(held: seq<Accepted>, table: Outstanding, events: seq<Event>)
    requires Covered(held, table) && LegalEvents(held, events)
    ensures var (batch, table') := Reaped(table, events);
      Delivers(table, batch, table') && Covered(After(held, events), table')
    decreases |events|
  {
    if events != [] {
      var e := events[0];
      var next := if e.data in table then table - {e.data} else table;
      if e.data in table {
        assert LegalResult(e.res, table[e.data].length);
        CompletionAnswers(e.data, table[e.data], e.res);
      }
      ReapedWhenCovered(RemoveAt(held, e.at), next, events[1..]);
    }
  }

  /** The exact condition under which polls meet the specification of outstanding requests,
      whatever legal answers the kernel gives: no entry it holds is longer than the
      outstanding request with the same id. A failed submit alone never breaks it;
      a later request with the same id breaks it exactly if it is shorter. */
  lemma PollsDeliverExactly(held: seq<Accepted>, table: Outstanding)
    ensures Covered(held, table) <==>
      forall events :: LegalEvents(held, events) ==> Delivers(table, Reaped(table, events).0, Reaped(table, events).1)
  {
    if Covered(held, table) {
      forall events | LegalEvents(held, events)
        ensures Delivers(table, Reaped(table, events).0, Reaped(table, events).1)
      {
        ReapedWhenCovered(held, table, events);
      }
    } else {
      var i :| 0 <= i < |held| && held[i].request.id in table
               && held[i].request.length > table[held[i].request.id].length;
      var e := Event(i, held[i].request.id, held[i].iocb, held[i].request.length, 0);
      assert [e][1..] == [] && LegalEvents(held, [e]);
      assert Reaped(table, [e]).0 == [CompletionOf(e.data, table[e.data], e.res)];
      assert !Delivers(table, Reaped(table, [e]).0, Reaped(table, [e]).1);
    }
  }

  lemma {:induction false} AfterOnlyRemoves(held: seq<Accepted>, sq: seq<Accepted>, events: seq<Event>, id: nat)
    requires LegalEvents(held, events) && HeldIn(After(held, events) + sq, id)
    ensures HeldIn(held + sq, id)
    decreases |events|
  {
    if events != [] {
      var held' := RemoveAt(held, events[0].at);
      AfterOnlyRemoves(held', sq, events[1..], id);
      var i :| 0 <= i < |held' + sq| && (held' + sq)[i].request.id == id;
      assert (held + sq)[if i < events[0].at then i else i + 1] == (held' + sq)[i];
    }
  }

  lemma {:induction false} StillDistinct(held: seq<Accepted>, sq: seq<Accepted>, events: seq<Event>)
    requires DistinctEntries(held + sq) && LegalEvents(held, events)
    ensures DistinctEntries(After(held, events) + sq)
    decreases |events|
  {
    if events != [] {
      WithoutOne(held, sq, events[0].at);
      StillDistinct(RemoveAt(held, events[0].at), sq, events[1..]);
    }
  }

  lemma WithoutOne(held: seq<Accepted>, sq: seq<Accepted>, at: nat)
    requires at < |held|
    ensures var rest := RemoveAt(held, at) + sq;
      forall k :: 0 <= k < |rest| ==> rest[k] == (held + sq)[if k < at then k else k + 1]
  {
  }

  /** While no other entry has the id of a request that the kernel may answer, a completed
      id has left kernel and ring: its buffer is free. */
  lemma {:induction false} ReapedLeavesNone(held: seq<Accepted>, sq: seq<Accepted>, table: Outstanding,
      events: seq<Event>)
    requires OneEntryEach(held, sq, table) && LegalEvents(held, events)
    ensures OneEntryEach(After(held, events), sq, Reaped(table, events).1)
    ensures forall i :: 0 <= i < |Reaped(table, events).0| ==>
      !HeldIn(After(held, events) + sq, Reaped(table, events).0[i].id)
    decreases |events|
  {
    if events != [] {
      var e := events[0];
      var held' := RemoveAt(held, e.at);
      var next := if e.data in table then table - {e.data} else table;
      OneEntryWithout(held, sq, table, e.at);
      ReapedLeavesNone(held', sq, next, events[1..]);
      if e.data in table && HeldIn(After(held, events) + sq, e.data) {
        AfterOnlyRemoves(held', sq, events[1..], e.data);
        assert false;
      }
    }
  }

  lemma OneEntryWithout(held: seq<Accepted>, sq: seq<Accepted>, table: Outstanding, at: nat)
    requires OneEntryEach(held, sq, table) && at < |held|
    ensures OneEntryEach(RemoveAt(held, at), sq, table)
      && OneEntryEach(RemoveAt(held, at), sq, table - {held[at].request.id})
    ensures held[at].request.id in table ==> !HeldIn(RemoveAt(held, at) + sq, held[at].request.id)
  {
    WithoutOne(held, sq, at);
    assert (held + sq)[at] == held[at];
  }

  /** The exact condition under which a completed request has left the kernel and the ring,
      whatever legal answers the kernel gives. After a failed submit and a retry it fails:
      a request is reported done while the kernel still holds an entry for its buffer. */
  lemma CompletedIdsLeaveExactly(held: seq<Accepted>, sq: seq<Accepted>, table: Outstanding)
    ensures OneEntryEach(held, sq, table) <==>
      forall events :: LegalEvents(held, events) ==>
        forall i :: 0 <= i < |Reaped(table, events).0| ==>
          !HeldIn(After(held, events) + sq, Reaped(table, events).0[i].id)
  {
    if OneEntryEach(held, sq, table) {
      forall events | LegalEvents(held, events)
        ensures forall i :: 0 <= i < |Reaped(table, events).0| ==>
          !HeldIn(After(held, events) + sq, Reaped(table, events).0[i].id)
      {
        ReapedLeavesNone(held, sq, table, events);
      }
    } else {
      var i, j :| 0 <= i < |held| && 0 <= j < |held + sq| && i != j && held[i].request.id in table
                  && (held + sq)[j].request.id == held[i].request.id;
      StaleEntryRemains(held, sq, table, i, j);
    }
  }

  lemma StaleEntryRemains(held: seq<Accepted>, sq: seq<Accepted>, table: Outstanding, i: nat, j: nat)
    requires i < |held| && j < |held + sq| && i != j && held[i].request.id in table
    requires (held + sq)[j].request.id == held[i].request.id
    ensures var e := Event(i, held[i].request.id, held[i].iocb, 0, 0);
      && LegalEvents(held, [e]) && |Reaped(table, [e]).0| == 1 && Reaped(table, [e]).0[0].id == e.data
      && HeldIn(After(held, [e]) + sq, e.data)
  {
    var e := Event(i, held[i].request.id, held[i].iocb, 0, 0);
    assert [e][1..] == [] && LegalEvents(held, [e]);
    assert After(held, [e]) == RemoveAt(held, i);
    WithoutOne(held, sq, i);
    assert (RemoveAt(held, i) + sq)[if j < i then j else j - 1] == (held + sq)[j];
  }

  /** Entries that the table describes one by one are single. */
  lemma RingBooksSingle(held: seq<Accepted>, sq: seq<Accepted>, table: Outstanding)
    requires RingBooks(held + sq, table)
    ensures OneEntryEach(held, sq, table) && OneEntryEach(held + sq, [], table)
  {
    assert (held + sq) + [] == held + sq;
    assert forall i :: 0 <= i < |held| ==> held[i] == (held + sq)[i];
  }

  /** So are entries that are single wherever they stand. */
  lemma OneEntryAnywhere(held: seq<Accepted>, sq: seq<Accepted>, table: Outstanding)
    requires OneEntryEach(held + sq, [], table)
    ensures OneEntryEach(held, sq, table)
  {
    assert (held + sq) + [] == held + sq;
    assert forall i :: 0 <= i < |held| ==> held[i] == (held + sq)[i];
  }

  lemma DrainStep(held: seq<Accepted>, table: Outstanding, e: Event)
    requires LegalEvent(held, e)
    ensures (forall id :: id in table ==> HeldIn(held, id))
       <==> (forall id :: id in table - {e.data} ==> HeldIn(RemoveAt(held, e.at), id))
  {
    var rest := RemoveAt(held, e.at);
    assert HeldIn(held, e.data);
    forall id | id != e.data ensures HeldIn(held, id) <==> HeldIn(rest, id) {
      if HeldIn(held, id) {
        var i :| 0 <= i < |held| && held[i].request.id == id;
        assert rest[if i < e.at then i else i - 1].request.id == id;
      }
      if HeldIn(rest, id) {
        var i :| 0 <= i < |rest| && rest[i].request.id == id;
        assert held[if i < e.at then i else i + 1].request.id == id;
      }
    }
  }

  /** Why Clean matters. In an empty engine the submission of id 3 fails in
      io_uring_submit, and the retry's submit call consumes both entries: the kernel
      holds id 3 twice. It answers both; the first answer completes the retry and
      the second finds no table entry: two accepted entries, one completion. */
  lemma FailedSubmitDoublesTheRequest(info: SubmitInfo)
    ensures var r := Request(0, 0, info.length, info.direction, info.submitTime, 3);
      var (held1, sq1, table1) := AfterSubmit([], [], map[], r, -EIO);
      var (held2, sq2, table2) := AfterSubmit(held1, sq1, table1, r, 2);
      var e := Event(0, 3, 0, info.length, 0);
      && RingBooks([], map[]) && !RingBooks(held1 + sq1, table1) && !RingBooks(held2 + sq2, table2)
      && sq2 == [] && |held2| == 2 && table2 == map[3 := info]
      && LegalEvents(held2, [e, e]) && After(held2, [e, e]) == []
      && |Reaped(table2, [e, e]).0| == 1
      && Reaped(table2, [e]).1 == map[] && HeldIn(After(held2, [e]), 3)  // done, while the kernel still holds one
  {
    var r := Request(0, 0, info.length, info.direction, info.submitTime, 3);
    RetryAddsASecondEntry(r);
    TwoAnswersOneCompletion(r);
  }

  lemma RetryAddsASecondEntry(r: Request)
    ensures var (held1, sq1, table1) := AfterSubmit([], [], map[], r, -EIO);
      var a := Accepted(r, 0);
      && held1 == [] && sq1 == [a] && table1 == map[]
      && AfterSubmit(held1, sq1, table1, r, 2) == ([a, a], [], map[r.id := InfoOf(r)])
      && !RingBooks(held1 + sq1, table1) && !RingBooks([a, a], map[r.id := InfoOf(r)])
  {
    var a := Accepted(r, 0);
    assert [] + [a] == [a] && [a] + [a] == [a, a];
    assert [a, a][..2] == [a, a] && [a, a][2..] == [] && [] + [a, a] == [a, a];
  }

  lemma TwoAnswersOneCompletion(r: Request)
    ensures var a, e := Accepted(r, 0), Event(0, r.id, 0, r.length, 0);
      var table: Outstanding := map[r.id := InfoOf(r)];
      && LegalEvents([a, a], [e, e]) && After([a, a], [e, e]) == []
      && LegalEvents([a, a], [e]) && After([a, a], [e]) == [a]
      && |Reaped(table, [e, e]).0| == 1 && Reaped(table, [e]).1 == map[] && HeldIn([a], r.id)
  {
    var a, e := Accepted(r, 0), Event(0, r.id, 0, r.length, 0);
    var table: Outstanding := map[r.id := InfoOf(r)];
    assert [e, e][1..] == [e] && [e][1..] == [];
    assert RemoveAt([a, a], 0) == [a] && RemoveAt([a], 0) == [];
    assert LegalEvents([a], [e]);
    assert table - {r.id} == map[];
    assert Reaped(map[], [e]) == Reaped(map[], []);
    assert [a][0].request.id == r.id;
  }
}
