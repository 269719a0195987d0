/** src/engine/libaio_engine.cpp: Linux AIO with a fixed pool of control blocks. */
module Libaio {
  import opened Types
  import opened Sequences
  import opened Kernel
  import opened EngineSpec

  /** static_cast<int> of a 64-bit value. */
  function ToInt32(x: int): int {
    var m := x % 0x1_0000_0000;
    if m >= 0x8000_0000 then m - 0x1_0000_0000 else m
  }

  /** How an event becomes a completion. */
  function CompletionOf(id: nat, info: SubmitInfo, res: int, res2: int): (c: Completion) {
    var full := res >= 0 && res == info.length;
    var bytes := if res < 0 then 0 else res;
    var code := if res < 0 then -res else if full then 0 else EIO;
    if res2 == 0 then Completion(id, bytes, info.direction, full, code, info.submitTime)
    else Completion(id, bytes, info.direction, false, if code == 0 then ToInt32(res2) else code, info.submitTime)
  }

  lemma CompletionAnswers(id: nat, info: SubmitInfo, res: int, res2: int)
    requires LegalResult(res, info.length)
    ensures Answers(CompletionOf(id, info, res, res2), info)
  {
  }

  /** The first result alone decides the report except when a full transfer comes
      with a second result that is not zero. */
  lemma ReportsUnlessSecondResult(id: nat, info: SubmitInfo, res: int, res2: int)
    requires LegalResult(res, info.length)
    ensures Reports(CompletionOf(id, info, res, res2), info, if res < 0 then -res else 0, if res < 0 then 0 else res)
       <==> !(res == info.length && res2 != 0)
  {
  }

  /** A full transfer with a second result that is not zero but whose low 32 bits are. */
  predicate Truncated(info: SubmitInfo, res: int, res2: int) {
    res == info.length && res2 != 0 && res2 % 0x1_0000_0000 == 0
  }

  /** "errno on failure, zero on success" holds except of a truncated second result:
      then the cast reports a failure with code zero. */
  lemma CodeMatchesUnlessTruncated(id: nat, info: SubmitInfo, res: int, res2: int)
    requires LegalResult(res, info.length)
    ensures CodeMatches(CompletionOf(id, info, res, res2)) <==> !Truncated(info, res, res2)
  {
  }

  lemma TruncatedSecondResult()
    ensures var c := CompletionOf(7, SubmitInfo(0, Read, 4096), 4096, 0x1_0000_0000);
      !c.success && c.errorCode == 0
  {
  }

  /** The control blocks are numbered 0..depth. Those on the free stack and those of
      the requests the kernel holds never overlap, and the in-flight table describes
      exactly the requests the kernel holds. */
  ghost predicate Books(depth: nat, free: seq<nat>, held: seq<Accepted>, inFlight: Outstanding) {
    && NoDup(free)
    && |free| + |held| == depth
    && |inFlight| == |held|
    && (forall b :: b in free ==> b < depth)
    && (forall i :: 0 <= i < |held| ==>
          && held[i].iocb < depth && held[i].iocb !in free
          && held[i].request.id in inFlight && inFlight[held[i].request.id] == InfoOf(held[i].request))
    && (forall i, j :: 0 <= i < j < |held| ==>
          held[i].iocb != held[j].iocb && held[i].request.id != held[j].request.id)
  }

  lemma BooksAccept(depth: nat, free: seq<nat>, held: seq<Accepted>, inFlight: Outstanding, a: Accepted)
    requires Books(depth, free + [a.iocb], held, inFlight)
    requires a.request.id !in inFlight
    ensures Books(depth, free, held + [a], inFlight[a.request.id := InfoOf(a.request)])
    ensures forall h :: h in held ==> h.iocb != a.iocb
  {
    var free' := free + [a.iocb];
    assert free'[|free|] == a.iocb;
    assert a.iocb in free';
    forall i, j | 0 <= i < j < |free| ensures free[i] != free[j] {
      assert free'[i] != free'[j];
    }
    forall b | b in free ensures b < depth && b != a.iocb {
      var i :| 0 <= i < |free| && free[i] == b;
      assert free'[i] == b && b in free';
    }
    forall i | 0 <= i < |held| ensures held[i].iocb != a.iocb && held[i].iocb !in free {
      assert held[i].iocb !in free';
    }
  }

  lemma BooksAnswer(depth: nat, free: seq<nat>, held: seq<Accepted>, inFlight: Outstanding, at: nat)
    requires Books(depth, free, held, inFlight) && at < |held|
    ensures Books(depth, free + [held[at].iocb], RemoveAt(held, at), inFlight - {held[at].request.id})
  {
    var id := held[at].request.id;
    assert inFlight.Keys == (inFlight - {id}).Keys + {id};
  }

  /** What one pass over a batch of events does to the table: an event with an
      unknown id is logged and yields no completion. */
  function Reaped(table: Outstanding, events: seq<Event>): (r: (seq<Completion>, Outstanding))
    decreases |events|
  {
    if events == [] then ([], table) else
      var e := events[0];
      if e.data !in table then Reaped(table, events[1..]) else
        var rest := Reaped(table - {e.data}, events[1..]);
        ([CompletionOf(e.data, table[e.data], e.res, e.res2)] + rest.0, rest.1)
  }

  /** The control blocks a batch of events gives back, in order. */
  function Objects(events: seq<Event>): seq<nat> {
    if events == [] then [] else [events[0].obj] + Objects(events[1..])
  }

  /** The first of some legal events finds its request in the table. */
  lemma BooksEvent(depth: nat, free: seq<nat>, held: seq<Accepted>, table: Outstanding, e: Event)
    requires Books(depth, free, held, table) && LegalEvent(held, e)
    ensures e.data in table
    ensures Answers(CompletionOf(e.data, table[e.data], e.res, e.res2), table[e.data])
    ensures Books(depth, free + [e.obj], RemoveAt(held, e.at), table - {e.data})
  {
    BooksAnswer(depth, free, held, table, e.at);
    CompletionAnswers(e.data, table[e.data], e.res, e.res2);
  }

  /** Under the books no event is unexpected: each one completes its request. */
  lemma {:induction false} ReapedDelivers(
      depth: nat, free: seq<nat>, held: seq<Accepted>, table: Outstanding, events: seq<Event>)
    requires Books(depth, free, held, table) && LegalEvents(held, events)
    ensures |Reaped(table, events).0| == |events|
    ensures Delivers(table, Reaped(table, events).0, Reaped(table, events).1)
    decreases |events|
  {
    if events != [] {
      var e := events[0];
      BooksEvent(depth, free, held, table, e);
      ReapedDelivers(depth, free + [e.obj], RemoveAt(held, e.at), table - {e.data}, events[1..]);
    }
  }

  /** The batch reports the events in order, each with the data of its own request. */
  ghost predicate Reported(table: Outstanding, events: seq<Event>, batch: seq<Completion>) {
    && |batch| == |events|
    && forall k :: 0 <= k < |events| ==>
         var e := events[k];
         && e.data in table
         && batch[k] == CompletionOf(e.data, table[e.data], e.res, e.res2)
         && LegalResult(e.res, table[e.data].length)
  }

  lemma {:induction false} ReapedReports(
      depth: nat, free: seq<nat>, held: seq<Accepted>, table: Outstanding, events: seq<Event>)
    requires Books(depth, free, held, table) && LegalEvents(held, events)
    ensures Reported(table, events, Reaped(table, events).0)
    decreases |events|
  {
    if events != [] {
      var e := events[0];
      BooksEvent(depth, free, held, table, e);
      assert LegalResult(e.res, table[e.data].length);
      hide Books, CompletionOf;
      ReapedReports(depth, free + [e.obj], RemoveAt(held, e.at), table - {e.data}, events[1..]);
      forall k | 0 < k < |events| ensures events[k].data in table && events[k].data != e.data {
        assert events[k] == events[1..][k - 1];
      }
    }
  }

  /** In every batch, a code contradicts its success flag exactly where the event was truncated. */
  lemma ReportedCodes(table: Outstanding, events: seq<Event>, batch: seq<Completion>)
    requires Reported(table, events, batch)
    ensures forall k :: 0 <= k < |batch| ==>
      (CodeMatches(batch[k]) <==> !Truncated(table[events[k].data], events[k].res, events[k].res2))
  {
    forall k | 0 <= k < |batch|
      ensures CodeMatches(batch[k]) <==> !Truncated(table[events[k].data], events[k].res, events[k].res2)
    {
      var e := events[k];
      CodeMatchesUnlessTruncated(e.data, table[e.data], e.res, e.res2);
    }
  }

  /** The books hold again when the blocks of the batch are back on the stack. */
  lemma {:induction false} ReapedKeepsBooks(
      depth: nat, free: seq<nat>, held: seq<Accepted>, table: Outstanding, events: seq<Event>)
    requires Books(depth, free, held, table) && LegalEvents(held, events)
    ensures Books(depth, free + Objects(events), After(held, events), Reaped(table, events).1)
    decreases |events|
  {
    if events == [] {
      assert free + [] == free;
    } else {
      var e := events[0];
      BooksEvent(depth, free, held, table, e);
      hide Books;
      ReapedKeepsBooks(depth, free + [e.obj], RemoveAt(held, e.at), table - {e.data}, events[1..]);
      assert Objects(events) == [e.obj] + Objects(events[1..]);
      assert free + Objects(events) == (free + [e.obj]) + Objects(events[1..]);
    }
  }

  ghost function Blocks(held: seq<Accepted>): (r: seq<nat>)
    ensures |r| == |held| && forall i :: 0 <= i < |held| ==> r[i] == held[i].iocb
  {
    seq(|held|, i requires 0 <= i < |held| => held[i].iocb)
  }

  ghost function RequestIds(held: seq<Accepted>): (r: seq<nat>)
    ensures |r| == |held| && forall i :: 0 <= i < |held| ==> r[i] == held[i].request.id
  {
    seq(|held|, i requires 0 <= i < |held| => held[i].request.id)
  }

  /** Free blocks and blocks in the kernel are disjoint and together all of the pool. */
  lemma BlocksPartition(depth: nat, free: seq<nat>, held: seq<Accepted>, inFlight: Outstanding)
    requires Books(depth, free, held, inFlight)
    ensures Elems(free) !! Elems(Blocks(held))
    ensures Elems(free) + Elems(Blocks(held)) == Range(depth)
    ensures |free| + |inFlight| == depth
  {
    var all := free + Blocks(held);
    NoDupCovers(all, Range(depth));
    assert Elems(all) == Elems(free) + Elems(Blocks(held));
  }

  /** The in-flight table has exactly the ids the kernel holds. */
  lemma TableMatchesKernel(depth: nat, free: seq<nat>, held: seq<Accepted>, inFlight: Outstanding)
    requires Books(depth, free, held, inFlight)
    ensures inFlight.Keys == Elems(RequestIds(held))
  {
    NoDupCovers(RequestIds(held), inFlight.Keys);
  }

  /** io_submit was reached: nothing before it threw. */
  predicate Called(r: Outcome) {
    r.Ok? || (r.Threw? && r.error.System?)
  }

  /** One io_getevents, for at least min(min_events, outstanding) and at most
      min(max_events, depth) events; a negative answer is thrown. */
  ghost predicate EventsAsked(before: seq<Call>, after: seq<Call>, minEvents: int, maxEvents: int,
                              outstanding: nat, depth: nat, r: Outcome, answers: seq<Event>)
  {
    && |after| == |before| + 1 && before <= after
    && var call := after[|before|];
       && call.AioEvents? && call.events == answers
       && call.least == Min(if minEvents < 0 then 0 else minEvents, outstanding)
       && call.most == Min(maxEvents, depth)
       && r == if call.ret < 0 then Threw(System(-call.ret)) else Ok
  }

  class LibaioEngine {
    const os: System
    var isOpen: bool              // fd_ >= 0 and ctx_ != nullptr
    var iodepth: nat
    var freeIocbs: seq<nat>       // pointers into iocb_pool_, as indices
    var events: nat               // events_.size()
    var inFlight: Outstanding
    var ctx: seq<Accepted>        // what the kernel context holds

    ghost predicate Valid()
      reads this
    {
      && (isOpen ==> iodepth >= 1 && events == iodepth && Books(iodepth, freeIocbs, ctx, inFlight))
      && (!isOpen ==> iodepth == 0 && events == 0 && freeIocbs == [] && inFlight == map[] && ctx == [])
    }

    constructor (os: System)
      ensures Valid() && !isOpen && this.os == os
    {
      this.os := os;
      isOpen, iodepth, freeIocbs, events, inFlight, ctx := false, 0, [], 0, map[], [];
    }

    /** `file` and `setup` are the results of opening the file and of io_setup. */
    method Open(depth: int, file: Outcome, setup: int) returns (r: Outcome)
      requires Valid() && !file.Hangs?
      modifies this
      ensures Valid()
      ensures r.Ok? <==> !old(isOpen) && depth >= 1 && file.Ok? && setup >= 0
      ensures r == OpenOutcome(old(isOpen), depth, file, setup)
      ensures r.Ok? ==> isOpen && iodepth == depth && ctx == [] && |freeIocbs| == depth
      ensures !r.Ok? ==> isOpen == old(isOpen) && ctx == old(ctx) && inFlight == old(inFlight)
    {
      if isOpen {
        return Threw(AlreadyOpen);
      }
      if depth < 1 {
        return Threw(BadDepth);
      }
      if !file.Ok? {
        return file;
      }
      if setup < 0 {
        return Threw(System(-setup));
      }
      iodepth, freeIocbs := depth, [];
      var i := 0;
      while i < depth
        invariant 0 <= i <= depth == iodepth
        invariant |freeIocbs| == i && forall k :: 0 <= k < i ==> freeIocbs[k] == k
        invariant inFlight == map[] && ctx == []
      {
        freeIocbs := freeIocbs + [i];
        i := i + 1;
      }
      events, isOpen := depth, true;
      r := Ok;
    }

    /** A rejected submission is rolled back completely. */
    method SubmitIO(request: Request) returns (r: Outcome)
      requires Valid()
      modifies this, os
      ensures Valid() && isOpen == old(isOpen) && iodepth == old(iodepth)
      ensures !r.Hangs?
      ensures r.Ok? ==>
        && request.id !in old(inFlight)
        && inFlight == old(inFlight)[request.id := InfoOf(request)]
        && old(freeIocbs) != [] && freeIocbs == old(freeIocbs)[..|old(freeIocbs)| - 1]
        && ctx == old(ctx) + [Accepted(request, old(freeIocbs)[|old(freeIocbs)| - 1])]
      ensures r.Threw? ==> inFlight == old(inFlight) && freeIocbs == old(freeIocbs) && ctx == old(ctx)
      ensures r == Threw(NotOpen) <==> !old(isOpen)
      ensures r == Threw(DuplicateId) <==> old(isOpen) && request.id in old(inFlight)
      ensures r == Threw(QueueFull) <==>
        old(isOpen) && request.id !in old(inFlight) && |old(inFlight)| == old(iodepth)
      ensures r.Threw? ==> r.error in {NotOpen, DuplicateId, QueueFull} || r.error.System?
      // what io_submit answered decides, when it was called
      ensures Called(r) ==> |os.journal| == |old(os.journal)| + 1 && old(os.journal) <= os.journal
      ensures Called(r) ==> var call := os.journal[|old(os.journal)|];
        && call.AioSubmit? && call.request == request
        && r == if call.ret == 1 then Ok else Threw(System(if call.ret < 0 then -call.ret else EIO))
      ensures !Called(r) ==> os.journal == old(os.journal)
    {
      if !isOpen {
        return Threw(NotOpen);
      }
      if request.id in inFlight {
        return Threw(DuplicateId);
      }
      if freeIocbs == [] {
        return Threw(QueueFull);
      }
      hide Books;
      r := Enqueue(request);
    }

    /** Take a block, note the request and submit it; undo both if it is refused. */
    method Enqueue(request: Request) returns (r: Outcome)
      requires Valid() && isOpen && request.id !in inFlight && freeIocbs != []
      modifies this`freeIocbs, this`inFlight, this`ctx, os
      ensures Valid() && Called(r)
      ensures r.Ok? ==>
        && inFlight == old(inFlight)[request.id := InfoOf(request)]
        && freeIocbs == old(freeIocbs)[..|old(freeIocbs)| - 1]
        && ctx == old(ctx) + [Accepted(request, old(freeIocbs)[|old(freeIocbs)| - 1])]
      ensures r.Threw? ==> inFlight == old(inFlight) && freeIocbs == old(freeIocbs) && ctx == old(ctx)
      ensures |os.journal| == |old(os.journal)| + 1 && old(os.journal) <= os.journal
      ensures var call := os.journal[|old(os.journal)|];
        && call.AioSubmit? && call.request == request
        && r == if call.ret == 1 then Ok else Threw(System(if call.ret < 0 then -call.ret else EIO))
    {
      hide Books;
      ghost var before := inFlight;
      ghost var stack := freeIocbs;
      var top := |freeIocbs| - 1;
      var iocb := freeIocbs[top];
      freeIocbs := freeIocbs[..top];
      inFlight := inFlight[request.id := InfoOf(request)];
      assert stack == freeIocbs + [iocb];
      BooksAccept(iodepth, freeIocbs, ctx, before, Accepted(request, iocb));
      var ret, held := os.IoSubmit(ctx, Accepted(request, iocb));
      ctx := held;
      if ret != 1 {
        inFlight := inFlight - {request.id};
        freeIocbs := freeIocbs + [iocb];
        assert inFlight == before;
        return Threw(System(if ret < 0 then -ret else EIO));
      }
      r := Ok;
    }

    /** `out` is the caller's vector, returned with this poll's batch appended. */
    method PollCompletions(minEvents: int, maxEvents: int, out: seq<Completion>)
      returns (r: Outcome, out': seq<Completion>, ghost answers: seq<Event>)
      requires Valid()
      modifies this, os
      ensures Valid() && isOpen == old(isOpen) && iodepth == old(iodepth)
      ensures |out'| >= |out| && out'[..|out|] == out
      ensures Delivers(old(inFlight), out'[|out|..], inFlight)
      ensures LegalEvents(old(ctx), answers) && Reported(old(inFlight), answers, out'[|out|..])
      ensures maxEvents >= 0 ==> |out'| - |out| <= maxEvents
      ensures r.Ok? || (r.Threw? && r.error.System?)
      ensures r.Threw? ==> out' == out && inFlight == old(inFlight) && freeIocbs == old(freeIocbs)
      ensures r.Ok? && old(isOpen) && 1 <= minEvents <= maxEvents ==> |out'| - |out| >= Min(minEvents, |old(inFlight)|)
      // what io_getevents answered decides, when it was called
      ensures old(isOpen) && maxEvents >= 1 && old(inFlight) != map[] ==>
        EventsAsked(old(os.journal), os.journal, minEvents, maxEvents, |old(inFlight)|, iodepth, r, answers)
      ensures !old(isOpen) || maxEvents < 1 || old(inFlight) == map[] ==> r.Ok? && os.journal == old(os.journal)
    {
      out', answers := out, [];
      if !isOpen || maxEvents < 1 {
        return Ok, out, [];
      }
      var least := Min(if minEvents < 0 then 0 else minEvents, |inFlight|);
      var most := Min(maxEvents, events);
      if least < 1 && inFlight == map[] {
        return Ok, out, [];
      }
      var ret, batch, rest := os.GetEvents(ctx, least, most);
      if ret < 0 {
        return Threw(System(-ret)), out, [];
      }
      hide Books, CompletionOf;
      ReapedReports(iodepth, freeIocbs, ctx, inFlight, batch);
      ReapedDelivers(iodepth, freeIocbs, ctx, inFlight, batch);
      ReapedKeepsBooks(iodepth, freeIocbs, ctx, inFlight, batch);
      out' := Reap(batch, out);
      assert out'[|out|..] == Reaped(old(inFlight), batch).0;
      ctx, answers := rest, batch;
      r := Ok;
    }

    /** The event loop of PollCompletions. */
    method Reap(batch: seq<Event>, out: seq<Completion>) returns (out': seq<Completion>)
      modifies this`freeIocbs, this`inFlight
      ensures out' == out + Reaped(old(inFlight), batch).0
      ensures inFlight == Reaped(old(inFlight), batch).1
      ensures freeIocbs == old(freeIocbs) + Objects(batch)
    {
      out' := out;
      var i := 0;
      while i < |batch|
        invariant 0 <= i <= |batch|
        invariant out' + Reaped(inFlight, batch[i..]).0 == out + Reaped(old(inFlight), batch).0
        invariant Reaped(inFlight, batch[i..]).1 == Reaped(old(inFlight), batch).1
        invariant freeIocbs + Objects(batch[i..]) == old(freeIocbs) + Objects(batch)
      {
        var e := batch[i];
        assert batch[i..][0] == e && batch[i..][1..] == batch[i + 1..];
        freeIocbs := freeIocbs + [e.obj];
        if e.data in inFlight {
          var completion := CompletionOf(e.data, inFlight[e.data], e.res, e.res2);
          inFlight := inFlight - {e.data};
          out' := out' + [completion];
        }
        i := i + 1;
      }
    }

    /** The bookkeeping part: whatever the drain and io_cancel achieved, everything is dropped. */
    method Close()
      requires Valid()
      modifies this
      ensures Valid() && !isOpen
    {
      isOpen, iodepth, freeIocbs, events, inFlight, ctx := false, 0, [], 0, map[], [];
    }
  }

  function Min(a: int, b: int): int {
    if a <= b then a else b
  }
}
