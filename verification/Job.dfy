/** From an accepted configuration to a finished job: the WorkerThread constructor of
    src/telemetry/worker_thread.cpp:19-36 with src/engine/engine_factory.cpp, then Run. */
module Job {
  import opened Types
  import opened Config
  import opened Buffers
  import opened Sequences
  import opened Offsets
  import opened Histogram
  import opened Engines
  import opened Libaio
  import opened IoUring
  import opened Blocking
  import opened Pipeline
  import opened Worker
  import opened EngineSpec
  import opened History
  import opened Aggregator
  import Series
  import opened Kernel
  import LP = LoopProtocol

  /** Why a worker could not be built: its pool, or its engine. */
  datatype BuildError = Pool(pool: PoolError) | EngineOpen(engine: Error)

  /** The engines with a queue in the kernel. */
  predicate Queued(engine: string) {
    engine == "libaio" || engine == "io_uring"
  }

  /** Create and open the engine of a known name. `file` and `setup` are the results of opening
      the file and of setting up the queue; the ring of io_uring may be larger than asked for. */
  method OpenEngine(name: string, depth: nat, os: System, file: Outcome, setup: int, entries: nat)
    returns (r: Result<Engine, Error>)
    requires IsKnownEngine(name) && depth >= 1 && !file.Hangs? && entries >= depth
    requires !Queued(name) ==> depth == 1
    ensures r.Success? <==> file.Ok? && (Queued(name) ==> setup >= 0)
    ensures r.Failure? ==> r.error == if file.Threw? then file.error else System(-setup)
    ensures r.Success? ==>
      && r.value.Ready(depth) && r.value.Pending() == map[] && fresh(r.value.Repr()) && r.value.Os() == os
    ensures r.Success? ==>
      && (r.value.Aio? <==> name == "libaio") && (r.value.Uring? <==> name == "io_uring")
      && (r.value.Psync? <==> name == "psync") && (r.value.Sync? <==> name == "sync")
  {
    var outcome;
    var engine: Engine;
    if name == "psync" {
      var e := new PsyncEngine(os);
      outcome := e.Open(file);
      engine := Psync(e);
    } else if name == "io_uring" {
      var e := new IoUringEngine(os);
      outcome := e.Open(depth, file, setup, entries);
      engine := Uring(e);
    } else if name == "libaio" {
      var e := new LibaioEngine(os);
      outcome := e.Open(depth, file, setup);
      engine := Aio(e);
    } else {
      var e := new SyncEngine(os);
      outcome := e.Open(file);
      engine := Sync(e);
    }
    r := if outcome.Ok? then Success(engine) else Failure(outcome.error);
  }

  /** How many requests a job keeps outstanding: the configured depth for the asynchronous
      engines, one for the others. */
  function Outstandings(c: JobConfig): int {
    if Queued(c.engine) then c.iodepth else 1
  }

  /** What the buffers of all outstanding requests take. */
  function NeededBytes(c: JobConfig): int {
    c.blockSize * Outstandings(c)
  }

  lemma PoolOfJob(c: JobConfig, depth: nat)
    requires Sound(c) && MachineSized(c) && depth == Outstandings(c) >= 1
    ensures depth <= U32_MAX
    ensures PoolSize(c.alignment, c.blockSize, depth).Success? <==> NeededBytes(c) <= U64_MAX
    ensures NeededBytes(c) > U64_MAX ==> PoolSize(c.alignment, c.blockSize, depth) == Failure(SizeOverflow)
  {
    PoolSizeExact(c.alignment, c.blockSize, depth);
  }

  /** Which depth that is, engine by engine. */
  lemma DepthOfJob(c: JobConfig)
    requires Sound(c)
    ensures EffectiveIODepth(c) == Outstandings(c) >= 1
    ensures c.engine == "libaio" || c.engine == "io_uring" ==> Outstandings(c) == c.iodepth
    ensures c.engine == "sync" || c.engine == "psync" ==> Outstandings(c) == 1
  {
  }

  /** For every accepted configuration whose sizes fit off_t, a worker is ready for Run
      unless the pool does not fit in 64 bits or the engine cannot be opened.
      `base` is what aligned_alloc returned. */
  method CreateWorker(config: JobConfig, base: nat, os: System, file: Outcome, setup: int, entries: nat)
    returns (r: Result<WorkerThread, BuildError>)
    requires Validate(config).Success? && MachineSized(config)
    requires config.fileSize <= I64_MAX && base % config.alignment == 0
    requires !file.Hangs? && entries >= Outstandings(config)
    ensures r == Failure(Pool(SizeOverflow)) <==> NeededBytes(config) > U64_MAX
    ensures r.Failure? && r.error.EngineOpen? <==>
      && NeededBytes(config) <= U64_MAX
      && (file.Threw? || (setup < 0 && Queued(config.engine)))
    ensures r.Failure? ==> r.error == Pool(SizeOverflow) || r.error.EngineOpen?
    ensures r.Success? ==>
      && fresh(r.value) && fresh(r.value.Parts()) && r.value.config == config && r.value.os == os
      && r.value.Inv([]) && r.value.Ready() && r.value.engine.Pending() == map[]
      && r.value.log == [] && r.value.history == [] && !r.value.failed
      && r.value.depth == Outstandings(config) >= 1
      && (r.value.engine.Uring? <==> config.engine == "io_uring")
  {
    ValidateDecidesSound(config);
    DepthOfJob(config);
    var depth: nat := EffectiveIODepth(config);
    PoolOfJob(config, depth);
    hide WorkerThread.Inv, WorkerThread.Parts, WorkerThread.Ready, Outstandings, Queued, EffectiveIODepth, PoolSize;
    hide NeededBytes;
    var size := PoolSize(config.alignment, config.blockSize, depth);
    if size.Failure? {
      return Failure(Pool(size.error));
    }
    r := BuildWorker(config, base, depth, os, file, setup, entries);
  }

  /** The members of a worker, once the size of its pool is known to fit. */
  method BuildWorker(config: JobConfig, base: nat, depth: nat, os: System, file: Outcome, setup: int, entries: nat)
    returns (r: Result<WorkerThread, BuildError>)
    requires Sound(config) && config.fileSize <= I64_MAX && base % config.alignment == 0
    requires depth == EffectiveIODepth(config) == Outstandings(config) && depth <= U32_MAX
    requires !file.Hangs? && entries >= depth
    ensures r.Failure? <==> file.Threw? || (setup < 0 && Queued(config.engine))
    ensures r.Failure? ==> r.error.EngineOpen?
    ensures r.Success? ==>
      && fresh(r.value) && fresh(r.value.Parts()) && r.value.config == config && r.value.os == os
      && r.value.Inv([]) && r.value.Ready() && r.value.engine.Pending() == map[]
      && r.value.log == [] && r.value.history == [] && !r.value.failed && r.value.depth == depth
      && (r.value.engine.Uring? <==> config.engine == "io_uring")
  {
    hide Pipe, Engine.Ready, Descending, BitAnd, HistOf, IsPowerOfTwo, OffsetGenerator.Valid, Log2Histogram.Valid;
    hide BufferPool.Valid;
    var pool := new BufferPool(base, config.blockSize, depth);
    var offsets := new OffsetGenerator(config);
    var histogram := new Log2Histogram(64);
    var engine := OpenEngine(config.engine, depth, os, file, setup, entries);
    if engine.Failure? {
      return Failure(EngineOpen(engine.error));
    }
    var worker := new WorkerThread(config, pool, engine.value, histogram, offsets);
    r := Success(worker);
  }

  /** If step k of the log is the head of the asynchronous loop reading true, so many requests
      are outstanding. */
  ghost predicate QueueFullAt(outstanding: int, log: seq<LP.Event>, k: nat)
    requires k < |log|
  {
    outstanding >= 1 && LP.Replay(outstanding, log[..k]).Some? &&
    (LP.Replay(outstanding, log[..k]).value.pc.Head? && log[k] == LP.Load(true) ==>
       LP.Replay(outstanding, log[..k]).value.inFlight == outstanding)
  }

  lemma {:induction false} QueueFullAlways(depth: nat, log: seq<LP.Event>)
    requires depth >= 1 && LP.Replay(depth, log).Some?
    ensures forall k :: 0 <= k < |log| ==> QueueFullAt(depth, log, k)
  {
    if log != [] {
      var n := |log| - 1;
      QueueFullAlways(depth, log[..n]);
      forall k | 0 <= k < |log| ensures QueueFullAt(depth, log, k) {
        if k < n {
          assert QueueFullAt(depth, log[..n], k) && log[..n][..k] == log[..k];
        } else {
          LP.QueueAlways(depth, log[..n]);
        }
      }
    }
  }

  /** A report that agrees with the worker's books, field by field. */
  ghost predicate AgreesWithBooks(w: WorkerThread, blockSize: nat, unrecorded: nat, elapsed: real, report: JobResults)
    requires elapsed > 0.0
    reads w, w.engine.Repr()
  {
    && Series.Rounds(report.iopsAvg, w.iopsCount as real / elapsed)
    && Series.Rounds(report.bwAvg, w.bytesTransferred as real / elapsed)
    && report.totalIos == w.iopsCount && report.totalBytes == w.bytesTransferred
    && report.readErrors == w.readErrorCount && report.writeErrors == w.writeErrorCount
    && w.accepted == report.totalIos + |w.engine.Pending()| + unrecorded
    && report.readErrors + report.writeErrors <= report.totalIos
    && report.totalBytes <= report.totalIos * blockSize
    && (report.readErrors + report.writeErrors == 0 ==> report.totalBytes == report.totalIos * blockSize)
    && report.latMin <= report.p50 <= report.p95 <= report.p99 <= report.latMax
  }

  /** A whole job, from an accepted configuration to its final counters, whatever the
      kernel answers and whenever the flag is cleared. */
  method RunJob(config: JobConfig, base: nat, flag: RunFlag, os: System, file: Outcome, setup: int, entries: nat)
    returns (r: Result<WorkerThread, BuildError>, outcome: Outcome, ghost rest: seq<Completion>)
    requires Validate(config).Success? && MachineSized(config)
    requires config.fileSize <= I64_MAX && base % config.alignment == 0
    requires !file.Hangs? && entries >= Outstandings(config)
    modifies flag, os
    ensures r.Success? <==>
      && NeededBytes(config) <= U64_MAX
      && file.Ok? && (Queued(config.engine) ==> setup >= 0)
    ensures r.Success? ==> var w := r.value;
      && w.Inv(rest)
      && CallerKept(outcome)
      && (w.failed <==> outcome.Threw?)
      && (outcome.Ok? ==> rest == [] && w.engine.Pending() == map[] && |w.pool.freeSlots| == w.pool.capacity)
      // conservation, also after an exception in the middle of a batch
      && w.accepted == w.iopsCount + |w.engine.Pending()| + |rest|
      && w.readErrorCount + w.writeErrorCount <= w.iopsCount == |w.histogram.values|
      && w.bytesTransferred <= w.iopsCount * config.blockSize
      && (w.readErrorCount + w.writeErrorCount == 0 ==> w.bytesTransferred == w.iopsCount * config.blockSize)
      // every accepted request was completed once, or is still in the engine
      && (forall id :: Accepts(w.history, id) == Completes(w.history, id) + if id in w.engine.Pending() then 1 else 0)
      // each was the one the configuration intends
      && config.alignment > 0 && 0 < config.blockSize <= config.fileSize
      && (forall k :: 0 <= k < |w.history| && w.history[k].Accept? ==>
            Intended(config, w.pool.base, AcceptCount(w.history[..k]), w.history[k].request))
      // and whenever the loop's head read true, the queue was full
      && (forall k :: 0 <= k < |w.log| ==> QueueFullAt(Outstandings(config), w.log, k))
      // the final report of the aggregator repeats these totals
      && (forall report, elapsed {:trigger Aggregator.Reports(report, w.Meter(true), elapsed)} ::
            elapsed > 0.0 && Aggregator.Reports(report, w.Meter(true), elapsed) ==>
              AgreesWithBooks(w, config.blockSize, |rest|, elapsed, report))
    ensures r.Success? && config.engine != "io_uring" ==> !outcome.Hangs?
  {
    hide Pipe, Engine.Ready, OffsetGenerator.Valid, BufferPool.Valid, MinOf, MaxOf, PercentileOf;
    outcome, rest := Ok, [];
    r := CreateWorker(config, base, os, file, setup, entries);
    if r.Success? {
      var w := r.value;
      outcome, rest := w.Run(flag);
      AccountsMeaning(config, w.pool.base, w.depth, w.Now(rest));
      RequestsOfTheJob(config, w.pool.base, w.depth, w.Now(rest));
      QueueFullAlways(w.depth, w.log);
      Series.ReportedLatenciesAreOrdered(w.histogram.buckets[..]);
    }
  }
}
