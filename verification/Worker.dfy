/** src/telemetry/worker_thread.cpp: one worker driving a slot pool and an engine. */
module Worker {
  import opened Types
  import opened Config
  import opened Buffers
  import opened Sequences
  import opened Offsets
  import opened EngineSpec
  import opened History
  import opened Engines
  import opened Histogram
  import opened Pipeline
  import Kernel
  import LP = LoopProtocol
  import Series

  /** The shared run flag as one worker sees it. Other threads clear it at any moment;
      since it never returns to true, all that a worker can observe is how many of its
      loads come before the clearing. That number is arbitrary. */
  class RunFlag {
    var trueLoads: nat

    constructor (trueLoads: nat)
      ensures this.trueLoads == trueLoads
    {
      this.trueLoads := trueLoads;
    }

    method Load() returns (on: bool)
      modifies this
      ensures on <==> old(trueLoads) > 0
      ensures trueLoads == if on then old(trueLoads) - 1 else 0
    {
      on := trueLoads > 0;
      trueLoads := if on then trueLoads - 1 else 0;
    }

    method Clear()
      modifies this
      ensures trueLoads == 0
    {
      trueLoads := 0;
    }
  }

  /** The system calls behind the making of a request: a draw for a random offset, a toss for
      a mixed direction, and the clock. */
  ghost function Making(c: JobConfig, r: Request, draw: nat): seq<Kernel.Call>
    requires c.blockSize <= c.fileSize
  {
    (if c.accessPattern.Random? then [Kernel.Drew(c.fileSize - c.blockSize, draw)] else [])
    + (if c.rwMode.ReadWrite? || c.rwMode.RandRW? then [Kernel.Tossed(c.rwmixread, r.direction.Read?)] else [])
    + [Kernel.Clock(r.submitTime)]
  }

  /** Where the k-th request goes: the walk decides, or the draw. */
  ghost predicate Placed(c: JobConfig, k: nat, r: Request, draw: nat)
    requires c.alignment > 0 && 0 < c.blockSize <= c.fileSize
  {
    r.offset == if c.accessPattern.Random? then AlignDown(draw, c.alignment) else SequentialOffset(c, k)
  }

  /** Nanoseconds from submission to recording, floored at zero. */
  function Latency(c: Completion, now: int): (r: nat)
    ensures if c.submitTime <= now then c.submitTime + r == now else r == 0
  {
    if now > c.submitTime then now - c.submitTime else 0
  }

  ghost function Latencies(batch: seq<Completion>, now: int): (r: seq<nat>)
    ensures |r| == |batch| && forall i :: 0 <= i < |r| ==> r[i] == Latency(batch[i], now)
  {
    seq(|batch|, i requires 0 <= i < |batch| => Latency(batch[i], now))
  }

  lemma OneLatencyMore(batch: seq<Completion>, i: nat, now: int)
    requires i < |batch|
    ensures Latencies([], now) == [] && batch[..0] == [] && batch[..|batch|] == batch
    ensures Latencies(batch[..i + 1], now) == Latencies(batch[..i], now) + [Latency(batch[i], now)]
  {
  }

  lemma TimedStays(before: seq<Kernel.Call>, between: seq<Kernel.Call>, after: seq<Kernel.Call>, time: int)
    requires Timed(before, between, time) && between <= after
    ensures Timed(before, after, time)
  {
  }

  /** The first call since `before` was a reading of the clock. */
  ghost predicate Timed(before: seq<Kernel.Call>, after: seq<Kernel.Call>, time: int) {
    |before| < |after| && before <= after && after[|before|] == Kernel.Clock(time)
  }

  class WorkerThread {
    const config: JobConfig
    const depth: nat
    const pool: BufferPool
    const engine: Engine
    const histogram: Log2Histogram
    const offsets: OffsetGenerator
    const os: Kernel.System
    var iopsCount: nat
    var bytesTransferred: nat
    var readErrorCount: nat
    var writeErrorCount: nat
    var failed: bool
    var error: Option<Error>               // what error_message_ describes
    ghost var accepted: nat                // submissions the engine accepted
    ghost var requests: map<nat, Request>  // the outstanding ones
    ghost var history: seq<Step>           // what the engine accepted and completed
    ghost var log: seq<LP.Event>

    ghost function Parts(): set<object> {
      {pool, engine.Repr(), histogram, histogram.buckets, offsets}
    }

    /** The objects are separate and agree on the configuration. */
    ghost predicate Wired() {
      && depth == EffectiveIODepth(config)
      && pool.capacity == depth && pool.blockSize == config.blockSize
      && offsets.config == config
      && histogram.n == 64
      && engine.Os() == os
      && engine.Repr() !in {this, pool, histogram, histogram.buckets, offsets, os}
    }

    /** The engine is open with room for `depth` requests, and no submission was refused. */
    ghost predicate Ready()
      reads this, engine.Repr(), offsets
    {
      engine.Ready(depth) && offsets.issued == accepted
    }

    ghost function Now(rest: seq<Completion>): View
      reads this, Parts()
    {
      View(pool.freeSlots, requests, engine.Pending(), rest, accepted, iopsCount, bytesTransferred,
           readErrorCount, writeErrorCount, |histogram.values|, history)
    }

    /** What the aggregator can read of this worker; `ended` once its thread is joined. */
    ghost function Meter(ended: bool): Series.MeterState
      reads this, histogram, histogram.buckets
    {
      Series.MeterState(iopsCount, bytesTransferred, readErrorCount, writeErrorCount, histogram.buckets[..], ended)
    }

    /** The invariant of the pipeline at any point where the completions in `rest`
        have left the engine and are not yet recorded. */
    ghost predicate Inv(rest: seq<Completion>)
      reads this, Parts()
    {
      && Wired()
      && pool.Valid() && offsets.Valid() && histogram.Valid()
      && pool.base % config.alignment == 0
      && Pipe(config, pool.base, depth, Now(rest))
    }

    constructor (config: JobConfig, pool: BufferPool, engine: Engine, histogram: Log2Histogram,
        offsets: OffsetGenerator)
      requires pool.Valid() && pool.capacity == EffectiveIODepth(config) && pool.blockSize == config.blockSize
      requires |pool.freeSlots| == pool.capacity && Descending(pool.capacity, pool.freeSlots)
      requires offsets.Valid() && offsets.config == config && pool.base % config.alignment == 0
      requires histogram.Valid() && histogram.n == 64 && histogram.values == []
      requires engine.Ready(EffectiveIODepth(config)) && engine.Pending() == map[]
      requires engine.Repr() !in {pool, histogram, histogram.buckets, offsets, engine.Os()} && offsets.issued == 0
      ensures Inv([]) && Ready() && engine.Pending() == map[] && log == [] && history == [] && !failed
      ensures this.config == config && this.pool == pool && this.engine == engine
      ensures this.histogram == histogram && this.offsets == offsets && depth == EffectiveIODepth(config)
    {
      this.config, this.depth := config, EffectiveIODepth(config);
      this.pool, this.engine, this.histogram, this.offsets := pool, engine, histogram, offsets;
      os := engine.Os();
      iopsCount, bytesTransferred, readErrorCount, writeErrorCount := 0, 0, 0, 0;
      failed, error := false, None;
      accepted, requests, history, log := 0, map[], [], [];
      new;
      hide Pipe, Engine.Ready, Log2Histogram.Valid;
      PipeStart(config, pool.base, depth, pool.freeSlots);
      assert Now([]) == View(pool.freeSlots, map[], map[], [], 0, 0, 0, 0, 0, 0, []);
    }

    /** The request is legal and its slot is taken from the pool; the walk, the draw, the toss
        and the clock decide its offset, direction and time. */
    method GenerateNextIO() returns (r: Request, ghost draw: nat)
      requires Wired() && pool.Valid() && offsets.Valid() && pool.freeSlots != []
      requires pool.base % config.alignment == 0
      modifies os, pool, offsets
      ensures pool.Valid() && offsets.Valid()
      ensures old(pool.freeSlots) == pool.freeSlots + [r.id]
      ensures r.id !in pool.freeSlots && r.id < depth && r.offset >= 0
      ensures LegalRequest(config, pool.base, r)
      ensures Placed(config, old(offsets.issued), r, draw) && offsets.issued == old(offsets.issued) + 1
      ensures os.journal == old(os.journal) + Making(config, r, draw)
    {
      ghost var before := os.journal;
      var slot := pool.Acquire();
      var offset := offsets.Next(os);
      draw := if config.accessPattern.Random? then os.journal[|before|].value else 0;
      ghost var drawn := os.journal;
      var buffer := pool.Data(slot);
      SlotsAreLegal(pool.base, config.alignment, config.blockSize, depth);
      var direction := NextDirection(config.rwMode, config.rwmixread, os);
      var now := os.Now();
      r := Request(offset, buffer.value, config.blockSize, direction, now, slot);
      assert os.journal == before + Making(config, r, draw);
    }

    /** Acquire a slot, build the request, submit it. A submission that throws gives
        the slot back, and the pool is exactly as before. */
    method SubmitOne(ghost rest: seq<Completion>)
      returns (r: Outcome, ghost request: Request, ghost draw: nat, ghost made: seq<Kernel.Call>)
      requires Inv(rest) && Ready() && pool.freeSlots != []
      requires Reuses(history, pool.freeSlots[|pool.freeSlots| - 1])
      modifies os, pool, offsets, engine.Repr(), this`accepted, this`requests, this`history, this`log
      ensures Inv(rest)
      ensures !r.Hangs? && CallerKept(r)
      ensures r.Ok? ==>
        && Ready()
        && |engine.Pending()| == |old(engine.Pending())| + 1
        && accepted == old(accepted) + 1
        && log == old(log) + [LP.Submit]
        && history == old(history) + [Accept(request)]
        && request.id == old(pool.freeSlots)[|old(pool.freeSlots)| - 1]
      ensures r.Threw? ==> Now(rest) == old(Now(rest)) && log == old(log)
      // the request is made as the generators and the clock say, and is what the system is asked for
      ensures LegalRequest(config, pool.base, request) && Placed(config, old(accepted), request, draw)
      ensures made == old(os.journal) + Making(config, request, draw)
      ensures engine.SubmitCalls(made, os.journal, request, r) && old(os.journal) <= os.journal
      ensures Meter(false) == old(Meter(false))
    {
      hide Making, Placed, Engine.SubmitCalls, AllChosen, Accepts;
      hide Pipe, LegalRequest, Engine.Ready, Log2Histogram.Valid, OffsetGenerator.Valid, BufferPool.Valid;
      hide Series.Later, Reuses, HistOf, Latency, EffectiveIODepth;
      ghost var before := Now(rest);
      var next;
      next, draw := GenerateNextIO();
      request, made := next, os.journal;
      assert engine.Pending() == before.pending;
      SubmitIsSafe(config, pool.base, depth, before, pool.freeSlots, request.id);
      PipeSubmit(config, pool.base, depth, before, pool.freeSlots, request);
      r := Engines.SubmitIO(engine, next, depth);
      assert before.free == pool.freeSlots + [request.id];
      if r.Threw? {
        ReleaseSlot(next.id, rest);
        assert Now(rest) == before;
      } else {
        NoteAccepted(request, rest);
        assert Now(rest) == Submitted(before, pool.freeSlots, request);
      }
    }

    ghost method NoteAccepted(request: Request, rest: seq<Completion>)
      modifies this`accepted, this`requests, this`history, this`log
      ensures Now(rest) == old(Now(rest)).(accepted := old(accepted) + 1,
        requests := old(requests)[request.id := request], history := old(history) + [Accept(request)])
      ensures Meter(false) == old(Meter(false)) && log == old(log) + [LP.Submit]
    {
      accepted := accepted + 1;
      requests := requests[request.id := request];
      history := history + [Accept(request)];
      log := log + [LP.Submit];
    }

    /** Counts a completion and gives its slot back. */
    method RecordCompletion(c: Completion, now: int, ghost rest: seq<Completion>)
      requires Inv([c] + rest) && 0 <= now <= I64_MAX
      modifies pool, histogram`values, histogram.buckets
      modifies this`iopsCount, this`bytesTransferred, this`readErrorCount, this`writeErrorCount, this`log
      ensures Inv(rest) && log == old(log) + [LP.Record]
      ensures Now(rest) == Recorded(old(Now([c] + rest)), c, rest)
      ensures iopsCount == old(iopsCount) + 1 && bytesTransferred == old(bytesTransferred) + c.bytes
      ensures readErrorCount == old(readErrorCount) + if c.success || c.direction == Write then 0 else 1
      ensures writeErrorCount == old(writeErrorCount) + if c.success || c.direction == Read then 0 else 1
      ensures Accepts(history, c.id) >= 1
      ensures histogram.values == old(histogram.values) + [Latency(c, now)]
      ensures Series.Later(old(Meter(false)), Meter(false))
    {
      ghost var before := Now([c] + rest);
      PipeRecord(config, pool.base, depth, before, c, rest);
      RecordedTime(config, c);
      hide Pipe, LegalCompletion, OffsetGenerator.Valid, Log2Histogram.Valid, BufferPool.Valid, Series.Later;
      hide Accepts, Latency, HistOf;
      CountCompletion(c, now, rest);
      ReleaseSlot(c.id, rest);
      NoteRecorded(rest);
      assert Now(rest) == Recorded(before, c, rest);
    }

    ghost method NoteRecorded(rest: seq<Completion>)
      modifies this`log
      ensures Now(rest) == old(Now(rest)) && Meter(false) == old(Meter(false)) && log == old(log) + [LP.Record]
    {
      log := log + [LP.Record];
    }

    method ReleaseSlot(slot: nat, ghost rest: seq<Completion>)
      requires Wired() && pool.Valid() && histogram.Valid() && offsets.Valid()
      requires slot < depth && slot !in pool.freeSlots
      modifies pool
      ensures pool.Valid() && histogram.Valid() && offsets.Valid()
      ensures Now(rest) == old(Now(rest)).(free := old(pool.freeSlots) + [slot])
      ensures histogram.values == old(histogram.values) && Meter(false) == old(Meter(false))
    {
      hide OffsetGenerator.Valid, Log2Histogram.Valid, BufferPool.Valid;
      pool.Release(slot);
    }

    /** The counters of RecordCompletion. */
    method CountCompletion(c: Completion, now: int, ghost rest: seq<Completion>)
      requires Wired() && pool.Valid() && offsets.Valid()
      requires histogram.Valid() && 0 <= c.submitTime && 0 <= now <= I64_MAX
      modifies histogram`values, histogram.buckets
      modifies this`iopsCount, this`bytesTransferred, this`readErrorCount, this`writeErrorCount
      ensures pool.Valid() && histogram.Valid() && offsets.Valid()
      ensures Now(rest) == old(Now(rest)).(
        iops := old(iopsCount) + 1,
        bytes := old(bytesTransferred) + c.bytes,
        readErrors := old(readErrorCount) + (if !c.success && c.direction.Read? then 1 else 0),
        writeErrors := old(writeErrorCount) + (if !c.success && c.direction.Write? then 1 else 0),
        samples := |old(histogram.values)| + 1)
      ensures Series.Later(old(Meter(false)), Meter(false))
      ensures histogram.values == old(histogram.values) + [Latency(c, now)]
    {
      var elapsed := now - c.submitTime;
      histogram.Record(if elapsed > 0 then elapsed else 0);
      iopsCount := iopsCount + 1;
      bytesTransferred := bytesTransferred + c.bytes;
      if !c.success {
        if c.direction.Read? {
          readErrorCount := readErrorCount + 1;
        } else {
          writeErrorCount := writeErrorCount + 1;
        }
      }
    }

    /** Poll the engine for completions and take the batch over. */
    method PollBatch(maxEvents: int) returns (r: Outcome, batch: seq<Completion>)
      requires Inv([]) && Ready() && engine.Pending() != map[] && maxEvents >= 1
      modifies os, engine.Repr(), this`requests, this`history, this`log
      ensures Inv(batch) && Ready() && CallerKept(r)
      ensures log == if r.Ok? then old(log) + [LP.Poll(|batch|, maxEvents)] else old(log)
      ensures |engine.Pending()| + |batch| == |old(engine.Pending())|
      ensures r.Ok? ==> 1 <= |batch| <= maxEvents
      ensures !r.Ok? ==> batch == [] && engine.Pending() == old(engine.Pending())
      ensures Meter(false) == old(Meter(false))
      ensures !r.Hangs? ==>
        engine.PollCalls(old(os.journal), os.journal, 1, maxEvents, |old(engine.Pending())|, depth, r)
      ensures old(os.journal) <= os.journal
      ensures history == old(history) + Completed(batch) && pool.freeSlots == old(pool.freeSlots)
      ensures r.Hangs? ==> engine.AllBuffered()
    {
      hide Engine.PollCalls;
      hide Pipe, Engine.Ready, Log2Histogram.Valid, OffsetGenerator.Valid, BufferPool.Valid, Series.Later;
      hide Delivers, Engine.AllBuffered;
      hide AllCodesMatch, CodeMatches;
      ghost var before := Now([]);
      r, batch := Engines.PollSome(engine, maxEvents, depth);
      PipePoll(config, pool.base, depth, before, batch, engine.Pending());
      requests := map id | id in engine.Pending() :: requests[id];
      history := history + Completed(batch);
      log := if r.Ok? then log + [LP.Poll(|batch|, maxEvents)] else log;
      assert Now(batch) == Polled(before, batch, engine.Pending());
    }

    // -------------------------------------------------------------------------
    // The loops

    /** The log is a run of the loop automaton that stands at `pc` with `inFlight`
        requests outstanding; once a load returned false, all later ones do. */
    ghost predicate LoopAt(flag: RunFlag, pc: LP.Pc, inFlight: nat)
      reads this, flag
    {
      && LP.Replay(depth, log).Some?
      && LP.Replay(depth, log).value.pc == pc
      && LP.Replay(depth, log).value.inFlight == inFlight
      && (LP.Replay(depth, log).value.stopped ==> flag.trueLoads == 0)
    }

    /** The log is a run of the automaton, and one that stands where the engine call that threw
        or never returned was made. */
    ghost predicate Explains(r: Outcome)
      reads this
    {
      && LP.Replay(depth, log).Some?
      && (r.Threw? ==> LP.MayThrow(LP.Replay(depth, log).value.pc))
      && (r.Hangs? ==> LP.MayHang(LP.Replay(depth, log).value.pc))
    }

    method LoadFlag(flag: RunFlag, ghost pc: LP.Pc, ghost inFlight: nat, ghost rest: seq<Completion>) returns (on: bool)
      requires LoopAt(flag, pc, inFlight) && Inv(rest)
      requires LP.NextAfterLoad(pc, true, inFlight).Some?
      requires flag as object !in Parts()
      modifies flag, this`log
      ensures Inv(rest) && Now(rest) == old(Now(rest)) && Meter(false) == old(Meter(false)) && Ready() == old(Ready())
      ensures on <==> old(flag.trueLoads) > 0
      ensures flag.trueLoads == if on then old(flag.trueLoads) - 1 else 0
      ensures log == old(log) + [LP.Load(on)]
      ensures LoopAt(flag, LP.NextAfterLoad(pc, on, inFlight).value, inFlight)
    {
      hide Pipe, LP.Replay;
      on := flag.Load();
      LP.ReplayAppend(depth, log, LP.Load(on));
      log := log + [LP.Load(on)];
    }

    /** The clock reading before a batch is recorded. */
    method ReadClock(ghost rest: seq<Completion>) returns (now: int)
      requires Inv(rest)
      modifies os
      ensures Inv(rest) && Now(rest) == old(Now(rest)) && Meter(false) == old(Meter(false)) && Ready() == old(Ready())
      ensures 0 <= now <= I64_MAX && Timed(old(os.journal), os.journal, now)
      ensures os.journal == old(os.journal) + [Kernel.Clock(now)]
    {
      hide Pipe, Engine.Ready;
      now := os.Now();
    }

    /** Record one completion where the loop records; its slot is now on top of the pool. */
    method RecordHere(c: Completion, now: int, ghost rest: seq<Completion>)
      requires Inv([c] + rest) && Ready() && 0 <= now <= I64_MAX
      requires LP.Replay(depth, log).Some? && LP.Step(depth, LP.Replay(depth, log).value, LP.Record).Some?
      modifies pool, histogram`values, histogram.buckets
      modifies this`iopsCount, this`bytesTransferred, this`readErrorCount, this`writeErrorCount, this`log
      ensures Inv(rest) && Ready() && engine.Pending() == old(engine.Pending())
      ensures LP.Replay(depth, log) == old(LP.Step(depth, LP.Replay(depth, log).value, LP.Record))
      ensures pool.freeSlots == old(pool.freeSlots) + [c.id] && Reuses(history, c.id)
      ensures histogram.values == old(histogram.values) + [Latency(c, now)]
      ensures Series.Later(old(Meter(false)), Meter(false))
    {
      hide Pipe, Engine.Ready, LP.Replay, LP.Step, Log2Histogram.Valid, OffsetGenerator.Valid, BufferPool.Valid;
      hide Series.Later, Accepts, Reuses, HistOf, Latency;
      LP.ReplayAppend(depth, log, LP.Record);
      RecordCompletion(c, now, rest);
      UsedBefore(history, c.id);
    }

    /** Submit one request where the loop submits. */
    method SubmitHere(flag: RunFlag, ghost pc: LP.Pc, ghost inFlight: nat, ghost rest: seq<Completion>)
      returns (r: Outcome, ghost request: Request)
      requires Inv(rest) && Ready() && pool.freeSlots != []
      requires Reuses(history, pool.freeSlots[|pool.freeSlots| - 1])
      requires LoopAt(flag, pc, inFlight) && LP.NextAfterSubmit(depth, pc).Some? && flag as object !in Parts()
      modifies os, pool, offsets, engine.Repr(), this`accepted, this`requests, this`history, this`log
      ensures Inv(rest) && !r.Hangs? && CallerKept(r) && Meter(false) == old(Meter(false))
      ensures r.Ok? ==>
        && Ready() && |engine.Pending()| == |old(engine.Pending())| + 1
        && history == old(history) + [Accept(request)]
        && request.id == old(pool.freeSlots)[|old(pool.freeSlots)| - 1]
        && LoopAt(flag, LP.NextAfterSubmit(depth, pc).value, inFlight + 1)
      ensures old(os.journal) <= os.journal
      ensures r.Threw? ==> Explains(r)
    {
      hide Making, Placed, Engine.SubmitCalls;
      hide Pipe, Engine.Ready, LP.Replay, Log2Histogram.Valid, OffsetGenerator.Valid, BufferPool.Valid, Reuses, Accepts;
      LP.ReplayAppend(depth, log, LP.Submit);
      ghost var draw, made;
      r, request, draw, made := SubmitOne(rest);
    }

    /** Pre-fill the queue, as long as the flag reads true. */
    method Prefill(flag: RunFlag) returns (r: Outcome, inFlight: nat)
      requires Inv([]) && Ready() && engine.Pending() == map[]
      requires depth >= 2 && log == [] && history == [] && flag as object !in Parts()
      modifies os, pool, offsets, engine.Repr(), flag, this`accepted, this`requests, this`history, this`log
      ensures Inv([]) && !r.Hangs? && CallerKept(r) && Explains(r)
      ensures Meter(false) == old(Meter(false))
      ensures r.Ok? ==> Ready() && |engine.Pending()| == inFlight && LoopAt(flag, LP.Head, inFlight)
    {
      hide Pipe, Engine.Ready, LP.Replay, Log2Histogram.Valid, OffsetGenerator.Valid, BufferPool.Valid;
      hide Series.Later, Reuses, Answered, Accepts, HistOf, Completed;
      hide WorkerThread.Ready, WorkerThread.Inv;
      inFlight := 0;
      EmptyHistory();
      LP.EmptyLog(depth);
      while inFlight < depth
        invariant 0 <= inFlight <= depth
        invariant Inv([]) && Ready() && |engine.Pending()| == inFlight
        invariant !Answered(history) && Meter(false) == old(Meter(false))
        invariant LoopAt(flag, if inFlight < depth then LP.Fill(inFlight) else LP.Head, inFlight)
      {
        var on := LoadFlag(flag, LP.Fill(inFlight), inFlight, []);
        if !on {
          return Ok, inFlight;
        }
        FreeSlots();
        NothingAnswered(history, pool.freeSlots[|pool.freeSlots| - 1]);
        ghost var before := history;
        ghost var request;
        r, request := SubmitHere(flag, LP.FillSubmit(inFlight), inFlight, []);
        if r.Threw? {
          return;
        }
        ExtendedAnswered(before, Accept(request));
        inFlight := inFlight + 1;
      }
      r := Ok;
    }

    /** Record a batch; after each completion refill the queue if the flag still reads true. */
    method RecordBatch(flag: RunFlag, batch: seq<Completion>, inFlight: nat)
      returns (r: Outcome, inFlight': nat, ghost rest: seq<Completion>, ghost recordedAt: int)
      requires Inv(batch) && Ready() && batch != []
      requires inFlight == |engine.Pending()| + |batch|
      requires LoopAt(flag, LP.Drain(|batch|), inFlight) && flag as object !in Parts()
      modifies os, pool, offsets, engine.Repr(), flag, histogram`values, histogram.buckets
      modifies this`accepted, this`requests, this`history, this`log
      modifies this`iopsCount, this`bytesTransferred, this`readErrorCount, this`writeErrorCount
      ensures Inv(rest) && !r.Hangs? && CallerKept(r) && Explains(r)
      ensures r.Ok? ==>
        && rest == [] && Ready() && |engine.Pending()| == inFlight'
        && LoopAt(flag, LP.Head, inFlight')
      ensures Series.Later(old(Meter(false)), Meter(false))
      // one clock reading after the poll gives the latencies of all that were recorded
      ensures Timed(old(os.journal), os.journal, recordedAt) && |rest| <= |batch|
      ensures histogram.values == old(histogram.values) + Latencies(batch[..|batch| - |rest|], recordedAt)
      ensures r.Ok? ==>
        || flag.trueLoads < old(flag.trueLoads)
        || (flag.trueLoads == old(flag.trueLoads) && inFlight' < inFlight)
    {
      hide Pipe, Engine.Ready, LP.Replay, Log2Histogram.Valid, OffsetGenerator.Valid, BufferPool.Valid, HistOf;
      hide Series.Later, Recorded, Timed, Latencies, Latency, Reuses, Accepts;
      hide WorkerThread.Inv, WorkerThread.Ready, WorkerThread.LoopAt, WorkerThread.Explains;
      var now := ReadClock(batch);
      OneLatencyMore(batch, 0, now);
      recordedAt := now;
      Series.LaterAtOnce(Meter(false));
      inFlight' := inFlight;
      rest := batch;
      var i := 0;
      while i < |batch|
        invariant 0 <= i <= |batch| && rest == batch[i..]
        invariant Inv(rest) && Ready() && inFlight' == |engine.Pending()| + |rest|
        invariant LoopAt(flag, LP.NextInBatch(|rest|), inFlight')
        invariant Series.Later(old(Meter(false)), Meter(false))
        invariant Timed(old(os.journal), os.journal, now)
        invariant histogram.values == old(histogram.values) + Latencies(batch[..i], now)
        invariant i == 0 ==> flag.trueLoads == old(flag.trueLoads) && inFlight' == inFlight
        invariant i > 0 ==>
          flag.trueLoads < old(flag.trueLoads) || (flag.trueLoads == old(flag.trueLoads) == 0 && inFlight' < inFlight)
      {
        assert rest == [batch[i]] + batch[i + 1..];
        rest := batch[i + 1..];
        ghost var refill;
        ghost var between := Meter(false);
        ghost var calls := os.journal;
        r, inFlight', refill := RecordOne(flag, batch[i], now, rest, inFlight');
        TimedStays(old(os.journal), calls, os.journal, now);
        Series.LaterTransitive(old(Meter(false)), between, Meter(false));
        OneLatencyMore(batch, i, now);
        if r.Threw? {
          return;
        }
        i := i + 1;
      }
      LoopExplains(flag, LP.Head, inFlight');
      r := Ok;
    }

    lemma LoopExplains(flag: RunFlag, pc: LP.Pc, inFlight: nat)
      requires LoopAt(flag, pc, inFlight)
      ensures Explains(Ok)
    {
    }

    /** One turn of the loop over a batch. A refill takes the slot that was just released:
        the new request has the id of the completion just recorded. */
    method RecordOne(flag: RunFlag, c: Completion, now: int, ghost rest: seq<Completion>, inFlight: nat)
      returns (r: Outcome, inFlight': nat, ghost refill: Option<Request>)
      requires Inv([c] + rest) && Ready() && 0 <= now <= I64_MAX
      requires inFlight == |engine.Pending()| + 1 + |rest|
      requires LoopAt(flag, LP.Drain(|rest| + 1), inFlight) && flag as object !in Parts()
      modifies os, pool, offsets, engine.Repr(), flag, histogram`values, histogram.buckets
      modifies this`accepted, this`requests, this`history, this`log
      modifies this`iopsCount, this`bytesTransferred, this`readErrorCount, this`writeErrorCount
      ensures Inv(rest) && !r.Hangs? && CallerKept(r) && Explains(r)
      ensures r.Ok? ==>
        && Ready() && |engine.Pending()| + |rest| == inFlight'
        && LoopAt(flag, LP.NextInBatch(|rest|), inFlight')
      ensures flag.trueLoads == if old(flag.trueLoads) > 0 then old(flag.trueLoads) - 1 else 0
      ensures r.Ok? ==> inFlight' == if old(flag.trueLoads) > 0 then inFlight else inFlight - 1
      ensures Series.Later(old(Meter(false)), Meter(false))
      ensures histogram.values == old(histogram.values) + [Latency(c, now)] && old(os.journal) <= os.journal
      ensures refill.Some? <==> r.Ok? && old(flag.trueLoads) > 0
      ensures refill.Some? ==> history == old(history) + [Accept(refill.value)] && refill.value.id == c.id
    {
      hide Latency;
      hide Pipe, Engine.Ready, LP.Replay, Log2Histogram.Valid, OffsetGenerator.Valid, BufferPool.Valid;
      hide Series.Later, Reuses, Accepts, HistOf;
      RecordHere(c, now, rest);
      inFlight', refill := inFlight - 1, None;
      var on := LoadFlag(flag, LP.Decide(|rest|), inFlight', rest);
      if on {
        ghost var request;
        r, request := SubmitHere(flag, LP.Refill(|rest|), inFlight', rest);
        if r.Threw? {
          return;
        }
        inFlight', refill := inFlight' + 1, Some(request);
      }
      r := Ok;
    }

    /** Keep the queue full until the flag reads false, then drain. The loop ends. */
    method RunAsyncLoop(flag: RunFlag) returns (r: Outcome, ghost rest: seq<Completion>)
      requires Inv([]) && Ready() && engine.Pending() == map[]
      requires depth >= 2 && log == [] && history == [] && flag as object !in Parts()
      modifies os, pool, offsets, engine.Repr(), flag, histogram`values, histogram.buckets
      modifies this`accepted, this`requests, this`history, this`log
      modifies this`iopsCount, this`bytesTransferred, this`readErrorCount, this`writeErrorCount
      ensures Inv(rest) && CallerKept(r) && Explains(r)
      ensures Series.Later(old(Meter(false)), Meter(false))
      ensures r.Ok? ==> rest == [] && engine.Pending() == map[] && LoopAt(flag, LP.Done, 0)
      ensures r.Hangs? ==> rest == [] && engine.AllBuffered()
    {
      hide Engine.PollCalls, Timed, Latencies, Completed, HistOf;
      hide Pipe, Engine.Ready, LP.Replay, Log2Histogram.Valid, OffsetGenerator.Valid, BufferPool.Valid;
      hide Series.Later, Engine.AllBuffered;
      var inFlight;
      rest := [];
      Series.LaterAtOnce(Meter(false));
      r, inFlight := Prefill(flag);
      if r.Threw? {
        return;
      }
      while true
        invariant rest == [] && Inv([]) && Ready() && |engine.Pending()| == inFlight
        invariant LoopAt(flag, LP.Head, inFlight)
        invariant Series.Later(old(Meter(false)), Meter(false))
        decreases flag.trueLoads, inFlight
      {
        LP.QueueAlways(depth, log);
        var on := LoadFlag(flag, LP.Head, inFlight, []);
        if !on && inFlight == 0 {
          return Ok, [];
        }
        var batch;
        ghost var before, between := log, Meter(false);
        r, batch := PollBatch(depth);
        if !r.Ok? {
          return;
        }
        LP.ReplayAppend(depth, before, LP.Poll(|batch|, depth));
        ghost var recordedAt;
        r, inFlight, rest, recordedAt := RecordBatch(flag, batch, inFlight);
        Series.LaterTransitive(old(Meter(false)), between, Meter(false));
        if r.Threw? {
          return;
        }
      }
    }

    /** One request at a time, until the flag reads false. */
    method RunSyncLoop(flag: RunFlag) returns (r: Outcome)
      requires Inv([]) && Ready() && engine.Pending() == map[]
      requires depth == 1 && log == [] && history == [] && flag as object !in Parts()
      modifies os, pool, offsets, engine.Repr(), flag, histogram`values, histogram.buckets
      modifies this`accepted, this`requests, this`history, this`log
      modifies this`iopsCount, this`bytesTransferred, this`readErrorCount, this`writeErrorCount
      ensures Inv([]) && CallerKept(r) && Explains(r)
      ensures Series.Later(old(Meter(false)), Meter(false))
      ensures r.Ok? ==> engine.Pending() == map[] && LoopAt(flag, LP.Done, 0)
      ensures r.Hangs? ==> engine.AllBuffered()
    {
      hide Accepts, HistOf, Completed;
      hide Pipe, Engine.Ready, LP.Replay, Log2Histogram.Valid, OffsetGenerator.Valid, BufferPool.Valid;
      hide Series.Later, Engine.AllBuffered;
      LP.EmptyLog(depth);
      Series.LaterAtOnce(Meter(false));
      FreeSlots();
      while true
        invariant Inv([]) && Ready() && engine.Pending() == map[]
        invariant |pool.freeSlots| == 1 && Reuses(history, pool.freeSlots[0])
        invariant LoopAt(flag, LP.SyncHead, 0)
        invariant Series.Later(old(Meter(false)), Meter(false))
        decreases flag.trueLoads
      {
        var on := LoadFlag(flag, LP.SyncHead, 0, []);
        if !on {
          return Ok;
        }
        ghost var between := Meter(false);
        r := SyncTurn();
        Series.LaterTransitive(old(Meter(false)), between, Meter(false));
        if !r.Ok? {
          return;
        }
      }
    }

    /** The body of the synchronous loop: submit, poll, record. */
    method SyncTurn() returns (r: Outcome)
      requires Inv([]) && Ready() && engine.Pending() == map[] && depth == 1
      requires |pool.freeSlots| == 1 && Reuses(history, pool.freeSlots[0])
      requires LP.Replay(depth, log).Some? && LP.Replay(depth, log).value.pc.SyncSubmit?
      requires LP.Replay(depth, log).value.inFlight == 0
      modifies os, pool, offsets, engine.Repr(), histogram`values, histogram.buckets
      modifies this`accepted, this`requests, this`history, this`log
      modifies this`iopsCount, this`bytesTransferred, this`readErrorCount, this`writeErrorCount
      ensures Inv([]) && CallerKept(r) && Explains(r)
      ensures Series.Later(old(Meter(false)), Meter(false))
      ensures r.Ok? ==>
        && Ready() && engine.Pending() == map[]
        && |pool.freeSlots| == 1 && Reuses(history, pool.freeSlots[0])
        && LP.Replay(depth, log) == Some(LP.Loop(LP.SyncHead, 0, old(LP.Replay(depth, log)).value.stopped))
      ensures r.Hangs? ==> engine.AllBuffered()
    {
      hide Making, Placed, Engine.SubmitCalls, Completed, Latency, HistOf;
      hide Pipe, Engine.Ready, LP.Replay, Log2Histogram.Valid, OffsetGenerator.Valid, BufferPool.Valid;
      hide Series.Later, Engine.AllBuffered;
      LP.ReplayAppend(depth, log, LP.Submit);
      Series.LaterAtOnce(Meter(false));
      ghost var request, draw, made;
      r, request, draw, made := SubmitOne([]);
      if r.Threw? {
        return;
      }
      ghost var done, recordedAt;
      r, done, recordedAt := SyncFinish();
    }

    /** Poll for the one request and record it with the time read after the poll. */
    method SyncFinish() returns (r: Outcome, ghost done: Completion, ghost recordedAt: int)
      requires Inv([]) && Ready() && |engine.Pending()| == 1 && depth == 1
      requires LP.Replay(depth, log).Some? && LP.Replay(depth, log).value.pc.SyncPoll?
      requires LP.Replay(depth, log).value.inFlight == 1
      modifies os, pool, engine.Repr(), histogram`values, histogram.buckets
      modifies this`requests, this`history, this`log
      modifies this`iopsCount, this`bytesTransferred, this`readErrorCount, this`writeErrorCount
      ensures Inv([]) && CallerKept(r) && Explains(r)
      ensures Series.Later(old(Meter(false)), Meter(false))
      ensures r.Ok? ==>
        && Ready() && engine.Pending() == map[]
        && |pool.freeSlots| == 1 && Reuses(history, pool.freeSlots[0])
        && LP.Replay(depth, log) == Some(LP.Loop(LP.SyncHead, 0, old(LP.Replay(depth, log)).value.stopped))
      ensures r.Ok? ==>
        && history == old(history) + Completed([done]) && old(os.journal) < os.journal
        && os.journal[|os.journal| - 1] == Kernel.Clock(recordedAt)
        && histogram.values == old(histogram.values) + [Latency(done, recordedAt)]
      ensures r.Hangs? ==> engine.AllBuffered()
    {
      hide Engine.PollCalls, Timed, Latency, Completed;
      hide Pipe, Engine.Ready, LP.Replay, Log2Histogram.Valid, OffsetGenerator.Valid, BufferPool.Valid;
      hide Series.Later, Engine.AllBuffered, Reuses, Accepts, HistOf;
      hide WorkerThread.Inv, WorkerThread.Ready;
      var batch;
      recordedAt, done := 0, Completion(0, 0, Read, false, 0, 0);
      Series.LaterAtOnce(Meter(false));
      LP.ReplayAppend(depth, log, LP.Poll(1, 1));
      r, batch := PollBatch(1);
      if !r.Ok? {
        return;
      }
      var now := ReadClock(batch);
      recordedAt, done := now, batch[0];
      assert batch == [done] + [] == [done];
      RecordHere(batch[0], now, []);
      FreeSlots();
    }

    /** Every slot that is not outstanding is free. */
    lemma FreeSlots()
      requires Inv([])
      ensures |pool.freeSlots| + |engine.Pending()| == depth
    {
      hide Pipe;
      PipeCounts(config, pool.base, depth, Now([]));
    }

    /** RecordFailure: keep the reason, raise the failed flag, stop everybody. */
    method RecordFailure(what: Error, flag: RunFlag)
      modifies this`failed, this`error, flag
      ensures failed && error == Some(what) && flag.trueLoads == 0
    {
      error := Some(what);
      failed := true;
      flag.Clear();
    }

    /** The thread body after the start barrier. `rest` is the part of the last batch
        that an exception left unrecorded. */
    method Run(flag: RunFlag) returns (r: Outcome, ghost rest: seq<Completion>)
      requires Inv([]) && Ready() && engine.Pending() == map[] && depth >= 1
      requires log == [] && history == [] && !failed && flag as object !in Parts()
      modifies this, os, pool, offsets, engine.Repr(), flag, histogram`values, histogram.buckets
      ensures Inv(rest) && CallerKept(r) && Explains(r)
      ensures Series.Later(old(Meter(false)), Meter(false))
      ensures failed <==> r.Threw?
      ensures r.Threw? ==> error == Some(r.error)
      ensures !r.Hangs? ==> flag.trueLoads == 0
      ensures r.Ok? ==> rest == [] && engine.Pending() == map[] && |pool.freeSlots| == pool.capacity
      ensures r.Ok? ==> LP.Replay(depth, log).value.pc.Done?
      // every request completed once, or still outstanding; an id repeats with the first refill
      ensures Replay(history) == Some(engine.Pending())
      ensures forall id :: Accepts(history, id) == Completes(history, id) + if id in engine.Pending() then 1 else 0
      ensures Repeats(history) <==> AcceptedLate(history)
      ensures CountsUp(history) && (Increasing(history) <==> !AcceptedLate(history))
      ensures r.Hangs? ==> rest == [] && engine.AllBuffered()
    {
      hide Pipe, Engine.Ready, LP.Replay, Log2Histogram.Valid, OffsetGenerator.Valid, BufferPool.Valid;
      hide Series.Later, Engine.AllBuffered;
      rest := [];
      if depth == 1 {
        r := RunSyncLoop(flag);
      } else {
        r, rest := RunAsyncLoop(flag);
      }
      if r.Threw? {
        RecordFailure(r.error, flag);
      }
      PipeCounts(config, pool.base, depth, Now(rest));
      HistoryMeaning(config, pool.base, depth, Now(rest));
      LP.QueueAlways(depth, log);
    }
  }

  lemma RecordedTime(c: JobConfig, done: Completion)
    requires LegalCompletion(c, done)
    ensures 0 <= done.submitTime <= I64_MAX <= U64_MAX
  {
  }

  /** src/telemetry/io_direction_decider.cpp: the mode decides, or a toss. */
  method NextDirection(mode: RWMode, percent: int, os: Kernel.System) returns (d: Direction)
    modifies os
    ensures LegalDirection(mode, d)
    ensures os.journal == old(os.journal)
      + if mode.ReadWrite? || mode.RandRW? then [Kernel.Tossed(percent, d.Read?)] else []
  {
    match mode {
      case ReadOnly | RandRead => d := Read;
      case WriteOnly | RandWrite => d := Write;
      case ReadWrite | RandRW =>
        var heads := os.Toss(percent);
        d := if heads then Read else Write;
    }
  }
}
