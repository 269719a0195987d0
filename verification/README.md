# C-FIO: submission pipeline, telemetry and hand-off protocols in Dafny

C-FIO is a disk benchmark. Each job has a worker thread that keeps a fixed number of
direct I/O requests outstanding, a telemetry thread that samples the workers' counters
while they run, an orchestrator that starts and stops everybody, and optionally a GUI.
This project models the parts in which those threads and the kernel have to agree on
something that no single function states, and proves what they agree on.

`dafny verify dfyconfig.toml` checks the whole project.

## How the model is organised

| file | what it models |
|---|---|
| `Types.dfy`, `Arithmetic.dfy`, `Sequences.dfy` | shared values and small facts |
| `Config.dfy`, `Offsets.dfy`, `Buffers.dfy` | accepted configurations, file offsets, the slot pool |
| `Kernel.dfy` | the abstract system: accepts requests, answers each once, in any order; clock, draws and tosses; a journal of every call and its answer |
| `EngineSpec.dfy`, `History.dfy` | the one specification of outstanding requests, and what a worker's history says about ids |
| `Libaio.dfy`, `IoUring.dfy`, `Blocking.dfy`, `Engines.dfy` | the four engines, and that each meets it |
| `LoopProtocol.dfy` | the worker's loops as an automaton over loads, submits, polls and records |
| `Pipeline.dfy`, `Worker.dfy`, `Job.dfy` | the joint invariant of pool, engine and worker; the loops as code; a whole job |
| `Orchestrator.dfy` | any number of workers, the start barrier, the shared flag and the joins |
| `Histogram.dfy` | the power-of-two latency histogram |
| `Series.dfy`, `Aggregator.dfy` | differences, rates and the time series, and the sampling object |
| `SizeParser.dfy` | reading and writing sizes |
| `Mailbox.dfy` | the run thread, the mailbox and the GUI tick |

Objects that the program updates in place are classes; their methods are proved against
functions of the old state, and the laws are lemmas about those functions. Wherever
another thread or the kernel can act, the model makes a nondeterministic choice, so a
result holds for every interleaving and every answer the stated contracts allow. Every
call into the system and its answer is kept in the ghost `Kernel.System.journal`; the
contracts of the methods that call it say what they make of exactly those answers.

The invariant at the centre is `Pipeline.Pipe`. The free stack of the pool, the ids in
the engine's table and the unrecorded rest of the current batch partition the slots; every
outstanding request is legal for direct I/O; and the counters account for every accepted
submission. `Worker.WorkerThread` keeps it through every step of both loops, including
the states in which an exception leaves them. Because it holds, the errors that stand for
a misuse of an engine or of the pool cannot occur under the worker: `Types.CallerKept`
in the contracts of the loops says that whatever is thrown came from the system or
from a request longer than io_uring's 32-bit length.

## Where the code does not do what its comments say

- A libaio event with a full first result and a second result whose low 32 bits are zero
  is reported as a failure with code zero, although the field promises zero for success
  only. `Libaio.ReportedCodes` gives the exact condition for every completion a poll hands
  out, and `Libaio.TruncatedSecondResult` an input. The other engines always keep the promise.
- A failed `io_uring_submit` is not rolled back: the id leaves the table and the prepared
  entry stays in the ring. The contract of `IoUring.IoUringEngine.SubmitIO` says exactly
  when the books survive, `IoUring.FailedSubmitDoublesTheRequest` shows two calls of which
  the second is a retry. `IoUring.PollsDeliverExactly` says which later polls still meet the
  specification, and `IoUring.CompletedIdsLeaveExactly` when a request reported as done has
  really left the kernel and the ring, so that its buffer is free. The worker never retries.
- When `io_uring_submit` returns 0 the entry stays buffered. Polls and the drain loop of
  `Close` then wait for ever unless the kernel holds enough requests; the contracts of
  `PollCompletions` and `Drain` say exactly when, and `Engines.BufferedRequestStarves` has an
  engine that does. A worker that waits so is a hung worker
  in `Orchestrator`: a stopped run can be finished if and only if there is none, and
  `Orchestrator.BlockedCanBeReached` is a run that cannot.
- `types.h` calls a request id a monotonic counter; the worker uses the slot number. The ids
  count up from 0 until the first completion, and a refill takes the slot that was just
  released (`Worker.WorkerThread.RecordOne`). So a worker's ids keep increasing if and only
  if it submits nothing after a completion, and otherwise some id is used twice
  (`Pipeline.HistoryMeaning`; `History.SecondIdReturns` is the smallest such run).
- The GUI can show the same snapshot in several rows. A tick adds a second row for the last
  snapshot shown if and only if, when it reads the sequence, the sequence has moved and the
  mailbox still holds that snapshot, and no other one is published before it copies
  (`Mailbox.TickRepeatsExactly`). While the mailbox still holds it, the sequence has moved if
  and only if the shown row was overtaken, its snapshot having been published after its tick
  had read the sequence, or the results were published since
  (`Mailbox.SequenceMovedExactly`). There are at most two copies, or three of the last
  snapshot when results follow it (`Mailbox.RepeatsAreBounded`, with inputs in
  `Mailbox.RowCanRepeat`). Results alone need not repeat a row
  (`Mailbox.ResultsNeedNotRepeat`). A row for the empty snapshot appears exactly when
  results were published without any snapshot.
- Percentiles of one live snapshot need not be ordered, because each is a scan of its own. A
  pass over a worker is certain to read p50 <= p95 <= p99 if and only if the worker's thread
  has ended (`Series.OrderedExactlyWhenEnded`); over any running one it can read p95 below
  p50 (`Series.PassCanCross`).

## Model

| member | source | states |
|---|---|---|
| Pipeline.SlotsPartition | src/telemetry/worker_thread.cpp:109-182 | in every state of the invariant, free slots, ids in the engine and ids of unrecorded completions are disjoint and together are exactly 0 .. depth-1 |
| Pipeline.BuffersAreDisjoint | src/telemetry/buffer_pool.cpp:84-117 | two outstanding requests never share a byte of buffer, and both lie inside the allocation |
| Pipeline.OutstandingIsLegal | src/telemetry/worker_thread.cpp:153-163 | every outstanding request has aligned offset, length and buffer and ends within the file |
| Pipeline.AccountsMeaning | src/telemetry/worker_thread.cpp:165-182 | accepted = recorded + in the engine + in the batch; errors never exceed operations; bytes never exceed operations times block size, with equality when there are no errors |
| Pipeline.SubmitIsSafe | src/telemetry/worker_thread.cpp:141-163 | with a slot just acquired, the id is new to the engine and the engine has room: duplicate id, empty pool and full ring cannot occur |
| Pipeline.PipeSubmit | src/telemetry/worker_thread.cpp:141-163 | an accepted submission keeps the invariant |
| Pipeline.PipePoll | src/telemetry/worker_thread.cpp:124-130 | any batch the engine specification allows keeps the invariant, the completions moving from engine to batch |
| Pipeline.PipeRecord | src/telemetry/worker_thread.cpp:165-182 | recording the first completion of the batch keeps the invariant, and its slot was not free: no double release |
| Pipeline.HistoryMeaning | src/telemetry/worker_thread.cpp:92-182 | in every state of every run: each accepted request was completed exactly once or is still in the engine; ids count up from 0 until the first completion; they keep increasing, and none repeats, exactly if nothing was submitted after a completion |
| Pipeline.RequestsOfTheJob | src/telemetry/worker_thread.cpp:153-163 | in every state of every run, the k-th accepted request is the one the configuration intends: no write in a read-only job and no read in a write-only one, the k-th walked offset in a sequential one, always aligned, of block size, in its slot and within the file |
| History.IncreasingExactly | src/common/types.h:44 | the ids of a worker are those of a monotonic counter exactly if it submits nothing after a completion |
| History.TracedSubmit | src/telemetry/worker_thread.cpp:153-163 | the id on top of the free stack repeats exactly if something was completed before |
| History.SecondIdReturns | src/common/types.h:44 | a legal history in which an id returns, against the comment that ids are a monotonic counter |
| Worker.WorkerThread.constructor | src/telemetry/worker_thread.cpp:19-36 | a new worker satisfies the invariant |
| Worker.WorkerThread.GenerateNextIO | src/telemetry/worker_thread.cpp:153-163 | takes the top free slot and builds the request named after it: the k-th sequential offset or the rounded draw, the direction of the mode or of the toss, the time of the clock, each as the journal has it |
| Worker.NextDirection | src/telemetry/io_direction_decider.cpp:12-25 | read modes read, write modes write, mixed modes follow one toss with the configured percentage; no other mode tosses |
| Worker.WorkerThread.SubmitOne | src/telemetry/worker_thread.cpp:141-151 | one more request outstanding, placed as the k-th of the job and put to the system as it was made, or an exception, from what the system answered or a length over 32 bits, with pool, engine table and counters exactly as before |
| Worker.WorkerThread.RecordCompletion | src/telemetry/worker_thread.cpp:165-182 | counters, histogram and pool after one completion, a failure counted for its own direction; as a step the aggregator may see nothing goes down; the latency is clock minus submit time, a negative one zero |
| Worker.WorkerThread.RecordOne | src/telemetry/worker_thread.cpp:129-137 | records one completion, and a refill, made exactly when the flag reads true, has the id just recorded |
| Worker.WorkerThread.Prefill | src/telemetry/worker_thread.cpp:117-121 | fills the queue one submission per true load, stops at the first false one |
| Worker.WorkerThread.RecordBatch | src/telemetry/worker_thread.cpp:128-137 | records a batch with latencies from one clock reading made after the poll, and refills after each completion while the flag reads true, keeping the local counter equal to engine plus batch |
| Worker.WorkerThread.RunAsyncLoop | src/telemetry/worker_thread.cpp:109-139 | ends for every kernel and flag; a normal exit leaves nothing in the engine and the log is a finished run of the loop automaton; waiting for ever needs a buffered io_uring entry |
| Worker.WorkerThread.RunSyncLoop | src/telemetry/worker_thread.cpp:92-107 | the same for one request at a time |
| Worker.WorkerThread.RecordFailure | src/telemetry/worker_thread.cpp:68-82 | keeps the reason, sets the failed flag and clears the shared one |
| Worker.WorkerThread.Run | src/telemetry/worker_thread.cpp:48-66 | failed exactly when a loop threw, with that error; the log stands where the call that threw or never returned was made; a normal exit empties the engine and refills the pool; every accepted request was completed once or is still in the engine; accounting holds after an exception too |
| Job.OpenEngine | src/engine/engine_factory.cpp:34-56 | every known name yields its own engine, opened, empty and with room for the effective depth, or a failure to open |
| Job.CreateWorker | src/telemetry/worker_thread.cpp:19-36 | for every accepted configuration within off_t a worker ready to run, with depth iodepth for libaio and io_uring and 1 for sync and psync; a pool error exactly when block size times that number exceeds 64 bits, an open error exactly when the system refuses |
| Job.DepthOfJob | src/config/job_config.cpp:71-76 | the effective depth is the configured one for libaio and io_uring and 1 for sync and psync |
| Job.QueueFullAlways | src/telemetry/worker_thread.cpp:124 | at every point of every log of the loop where the head reads true, the full depth is outstanding |
| Job.RunJob | src/telemetry/worker_thread.cpp:48-182 | from an accepted configuration to the final report: succeeds exactly unless pool, file or queue fail; every request is the intended one and completed once; the queue holds the configured depth whenever the loop head reads true; conservation of submissions, bytes and errors on every path, carried field by field into the report; no endless wait except with io_uring |
| LoopProtocol.QueueAlways | src/telemetry/worker_thread.cpp:92-139 | the number outstanding at every point of every run of both loops while no load has returned false, and its bound afterwards |
| LoopProtocol.HeadReadsTrueQueueFull | src/telemetry/worker_thread.cpp:124 | whenever the loop head reads true, exactly the effective depth is outstanding |
| LoopProtocol.PollsAndSubmitsAreLegal | src/telemetry/worker_thread.cpp:117-138 | no poll with nothing outstanding, no submission beyond the depth or after a false load |
| LoopProtocol.StopAndDrain | src/telemetry/worker_thread.cpp:109-139 | after the flag is cleared: at most one more submission, and only if a load had returned true; each poll is covered by a recorded completion |
| LoopProtocol.DrainIsBounded | src/telemetry/worker_thread.cpp:124-138 | a finished run polled at most as often as it had requests outstanding, plus the one submission |
| LoopProtocol.StoppedRunsContinue | src/telemetry/worker_thread.cpp:92-139 | once the flag is false, and as long as polls are answered, the loop always has a next step, and each brings it closer to its end |
| Buffers.BitTrickIsPowerOfTwo | src/telemetry/aligned_buffer.cpp:13-33 | the bit test accepts exactly the positive powers of two |
| Buffers.PoolSizeExact | src/telemetry/buffer_pool.cpp:43-64 | the pool is rejected exactly when the slot count is out of range or the product exceeds 64 bits, and otherwise has that size |
| Buffers.SlotsAreLegal | src/telemetry/buffer_pool.cpp:111-117 | slots are aligned, inside the allocation and pairwise disjoint |
| Buffers.BufferPool.constructor | src/telemetry/buffer_pool.cpp:68-82 | the free stack holds every slot once |
| Buffers.BufferPool.Acquire | src/telemetry/buffer_pool.cpp:84-95 | pops the top slot |
| Buffers.BufferPool.Release | src/telemetry/buffer_pool.cpp:97-109 | pushes the slot, ignores one out of range |
| Config.ValidateDecidesSound | src/config/config_validator.cpp:14-26 | validation accepts exactly the configurations the pipeline can rely on |
| Config.ValidateReportsFirst | src/config/config_validator.cpp:14-103 | a rejected configuration is told the first rule it breaks, in the order of the checks |
| Config.ValidateAll | src/config/config_validator.cpp:28-38 | a list is accepted exactly when it is not empty, all jobs are sound and names are distinct; otherwise the error is that of the first failing check |
| Config.ValidateUniqueNames | src/config/config_validator.cpp:105-112 | accepts exactly lists without a repeated name |
| Offsets.OffsetGenerator.Next | src/telemetry/offset_generator.cpp:18-31 | every offset is legal; the i-th sequential one is (i mod blocks) times block size, computed with 64-bit additions that do not wrap |
| Offsets.SequentialStep | src/telemetry/offset_generator.cpp:20-24 | advancing by a block and wrapping when the next one would not fit computes that closed form |
| Offsets.SequentialLapIsInjective | src/telemetry/offset_generator.cpp:18-25 | one lap visits distinct, non-overlapping blocks |
| Offsets.AlignDownIsLegal | src/telemetry/offset_generator.cpp:28-30 | rounding any draw down gives a legal offset |
| Offsets.EveryLegalOffsetIsDrawn | src/telemetry/offset_generator.h:32-33 | every legal offset is reachable: rounding excludes no position |
| EngineSpec.ExactlyOnce | src/engine/i_engine_io.h:42-72 | in every history and for every id, completions equal acceptances but for the request still outstanding |
| EngineSpec.DeliversExtends | src/engine/i_engine_io.h:58-72 | a poll is the history extended by its completions one by one |
| EngineSpec.DeliversAnswers | src/engine/i_engine_io.h:64-65 | every completion of a batch belongs to a different outstanding request and carries its direction and submit time |
| EngineSpec.DeliversLeaves | src/engine/i_engine_io.h:58-72 | a batch removes exactly the requests it completes |
| Engines.SubmitIO | src/engine/i_engine_io.h:42-56 | for all four engines: with a fresh id and room, acceptance adds exactly that request and has put it to the system, an exception adds nothing, and comes from what the system returned or a length over 32 bits, never from a misuse of the engine |
| Engines.PollCompletions | src/engine/i_engine_io.h:58-72 | for all four engines and any min_events: each completion answers a different outstanding request, code zero means success but for libaio's truncated case, at least min(min_events, outstanding) and at most max_events are appended, and only io_uring can wait for ever, exactly when its kernel holds fewer than min_events |
| Engines.PollSome | src/telemetry/worker_thread.cpp:126 | the worker's poll: at least one completion, unless the system reports an error or everything outstanding is still in the ring |
| Engines.BufferedRequestStarves | src/engine/io_uring_engine.cpp:95 | an engine whose first submit returned 0, on which a poll for one completion waits for ever |
| Libaio.LibaioEngine.Open | src/engine/libaio_engine.cpp:29-79 | opens exactly when closed, the depth is positive and the system agrees, with the exact error otherwise; the control block pool is then all free |
| Libaio.LibaioEngine.SubmitIO | src/engine/libaio_engine.cpp:81-125 | the exact new table, stack and kernel contents; every exception leaves all three as before; each contract error exactly under its condition, and otherwise the errno io_submit returned, EIO for zero |
| Libaio.LibaioEngine.PollCompletions | src/engine/libaio_engine.cpp:127-198 | asks io_getevents for the bounded numbers, throws its errno, delivers a batch of the specification that reports exactly the events it returned one by one, never more than max_events, and at least min(min_events, outstanding) |
| Libaio.LibaioEngine.Reap | src/engine/libaio_engine.cpp:156-197 | the event loop computes the batch, the table and the returned blocks |
| Libaio.ReapedDelivers | src/engine/libaio_engine.cpp:156-197 | no event is unexpected: each completes its request |
| Libaio.ReapedReports | src/engine/libaio_engine.cpp:167-192 | the k-th completion is made from the k-th event and the table entry of its own request |
| Libaio.ReportedCodes | src/engine/libaio_engine.cpp:173-192 | in every batch, a code contradicts its success flag exactly where the second result was truncated |
| Libaio.ReapedKeepsBooks | src/engine/libaio_engine.cpp:156-197 | after the batch the free and held blocks again partition the pool |
| Libaio.BlocksPartition | src/engine/libaio_engine.cpp:65-125 | free blocks and blocks of in-flight requests are disjoint, cover the pool, and their numbers add up to the depth |
| Libaio.TableMatchesKernel | src/engine/libaio_engine.cpp:107-116 | the table holds exactly the ids the kernel holds |
| Libaio.ReportsUnlessSecondResult | src/engine/libaio_engine.cpp:173-192 | a completion reports errno, short transfer and success as documented unless a full transfer has a second result |
| Libaio.CodeMatchesUnlessTruncated | src/engine/libaio_engine.cpp:185-192 | code zero means success unless that second result is a non-zero multiple of 2^32 |
| Libaio.TruncatedSecondResult | src/common/types.h:52-53 | an event for which the documented meaning of the code fails |
| IoUring.IoUringEngine.SubmitIO | src/engine/io_uring_engine.cpp:56-97 | the exact new table, ring and kernel contents as a function of what io_uring_submit returned; each contract error exactly under its condition; the books survive exactly if the submit did not fail |
| IoUring.IoUringEngine.PollCompletions | src/engine/io_uring_engine.cpp:99-161 | the batch is determined by the queue entries the system returned, in every state; a failing wait is thrown; codes always match; it is a batch of the specification whenever entries are covered; waits for ever exactly when more is asked for than the kernel holds |
| IoUring.PollsDeliverExactly | src/engine/io_uring_engine.cpp:130-158 | polls meet the specification for every legal answer exactly if no entry the kernel holds is longer than the outstanding request of the same id |
| IoUring.CompletedIdsLeaveExactly | src/engine/io_uring_engine.cpp:130-158 | for every legal answer a completed id has left kernel and ring, exactly if no other entry has the id of an outstanding request that the kernel may answer |
| IoUring.SubmittedEntries | src/engine/io_uring_engine.cpp:84-96 | how each kind of book changes with a submission, each exactly: distinct ids, one entry per outstanding id, and coverage; a failing submit alone loses neither of the last two |
| IoUring.ReapedDelivers | src/engine/io_uring_engine.cpp:130-158 | no entry is unexpected, and table and ring plus kernel still agree afterwards |
| IoUring.CompletionAnswers | src/engine/io_uring_engine.cpp:140-154 | errno, short transfer and success are reported as documented |
| IoUring.IoUringEngine.Drain | src/engine/io_uring_engine.cpp:165-186 | the drain ends at a failing wait, and otherwise, with an empty table, exactly when the kernel holds an entry for every id in the table |
| IoUring.IoUringEngine.Close | src/engine/io_uring_engine.cpp:163-204 | a close that returns leaves an empty closed engine; one that does not had an id the kernel did not hold |
| IoUring.FailedSubmitDoublesTheRequest | src/engine/io_uring_engine.cpp:89-94 | from an empty engine, a failing submit and a retry lead to a kernel with two entries; it answers twice, the caller sees one completion, and at that moment one entry is still in the kernel |
| Blocking.CompletionAnswers | src/engine/psync_engine.cpp:54-69 | errno, short transfer and success are reported as documented |
| Blocking.PsyncEngine.SubmitIO | src/engine/psync_engine.cpp:30-72 | makes one positioned call, and the completion kept reports what that call returned: -1 is a failure with its errno and no bytes, a short count a failure with EIO, a full count success; each error exactly under its condition |
| Blocking.PsyncEngine.PollCompletions | src/engine/psync_engine.cpp:74-81 | hands out exactly the stored completion, once |
| Blocking.SyncEngine.SubmitIO | src/engine/sync_engine.cpp:30-82 | a seek to the offset, then the transfer; the completion reports the transfer, or the failed seek, after which nothing is transferred |
| Blocking.SyncEngine.PollCompletions | src/engine/sync_engine.cpp:84-91 | hands out exactly the stored completion, once |
| Histogram.BucketBrackets | src/telemetry/log2_histogram.h:35-39 | a value lies between its bucket's bounds exactly when it is below 2^buckets, and the upper bound is below twice the value |
| Histogram.PercentileFindsOrderStatistic | src/telemetry/log2_histogram.h:44-66 | for every non-empty list, the bucket found is that of the element of the target rank in sorted order |
| Histogram.PercentileBracketsOrderStatistic | src/telemetry/log2_histogram.h:44-66 | that element q satisfies q <= Percentile <= max(1, 2q-1) with 64 buckets |
| Histogram.RankInPercent | src/telemetry/log2_histogram.h:50-54 | the target rank for 50, 95 and 99 percent is max(1, ceil(percent * n / 100)) |
| Histogram.PercentileMonotone | src/telemetry/log2_histogram.h:44-66 | percentiles are monotone in the quantile |
| Histogram.PercentileBetweenMinAndMax | src/telemetry/log2_histogram.h:80-98 | every percentile lies between MinValue and MaxValue |
| Histogram.MinMaxBracketValues | src/telemetry/log2_histogram.h:80-98 | every recorded value lies between MinValue and MaxValue |
| Histogram.MinMaxAreClose | src/telemetry/log2_histogram.h:80-98 | the smallest value is at most max(1, 2*MinValue-1), and MaxValue at most max(1, 2M-1) for the largest value M |
| Histogram.CumCountsValues | src/telemetry/log2_histogram.h:70-76 | the running count below a bucket is the number of values recorded below it |
| Histogram.MergeIsUnion | src/telemetry/log2_histogram.h:102-107 | merging histograms gives the histogram of all their values |
| Histogram.MergedPercentileAtMost | src/telemetry/metrics_aggregator.cpp:158-176 | the merged percentile is at most the largest percentile of the non-empty parts, for any number of parts |
| Histogram.MergedPercentileAtLeast | src/telemetry/metrics_aggregator.cpp:158-176 | and at least the smallest |
| Histogram.EveryArrayIsAHistogram | src/telemetry/log2_histogram.h:102-107 | whatever a racing reader loads is the histogram of some values |
| Histogram.Log2Histogram.Record | src/telemetry/log2_histogram.h:35-39 | one more value is described |
| Histogram.Log2Histogram.TotalCount | src/telemetry/log2_histogram.h:70-76 | the number of recorded values |
| Histogram.Log2Histogram.Percentile | src/telemetry/log2_histogram.h:44-66 | computes the specified percentile, and the return after the loop is never taken |
| Histogram.Log2Histogram.RacingPercentile | src/telemetry/log2_histogram.h:44-66 | with Record calls before every load, the second scan still reaches its target; the answer is at most the percentile of what the first scan saw and an upper bound for the target count of values by then |
| Histogram.QuietQuantile | src/telemetry/log2_histogram.h:44-66 | the exact percentile is the only racing answer when nothing is recorded meanwhile |
| Histogram.QuantilesCanCross | src/telemetry/metrics_aggregator.cpp:152-154 | from any counts a worker can go on so that p95 is read smaller than p50 was before |
| Histogram.Log2Histogram.MinValue | src/telemetry/log2_histogram.h:80-87 | the lower bound of the first used bucket, zero for none; within a factor of two below the smallest value by MinMaxAreClose |
| Histogram.Log2Histogram.MaxValue | src/telemetry/log2_histogram.h:91-98 | the upper bound of the last used bucket, zero for none; within a factor of two above the largest value |
| Histogram.Log2Histogram.Merge | src/telemetry/log2_histogram.h:102-107 | adds the other's counters and describes both lists of values |
| Histogram.Log2Histogram.RacingMerge | src/telemetry/log2_histogram.h:102-107 | while the other's worker keeps recording, adds counters each taken between before and after |
| Histogram.Log2Histogram.Reset | src/telemetry/log2_histogram.h:110-114 | describes the empty list |
| Series.NoUnderflow | src/telemetry/metrics_aggregator.cpp:142-143 | no 64-bit difference wraps, for any mix of recording and non-recording samples |
| Series.DifferencesTelescope | src/telemetry/metrics_aggregator.cpp:124-183 | recorded differences plus the open one equal the counter |
| Series.TotalRateWithinHalfPerJob | src/telemetry/metrics_aggregator.cpp:47-52 | each TOTAL rate is within n/2 of the true rate of n jobs |
| Series.SeriesIntegratesToCounter | src/telemetry/metrics_aggregator.cpp:148-149 | reported rate times window, added up over the recorded rows, gives each counter at the last row within half a unit per second covered |
| Series.RowsOfSamples | src/telemetry/metrics_aggregator.cpp:113-120 | the recorded rows carry exactly the windows and rates of the recording samples |
| Series.WindowsTile | src/telemetry/metrics_aggregator.cpp:179-181 | the windows of the recorded rows tile the time since the start |
| Series.SummedByField | src/telemetry/metrics_aggregator.cpp:159-164 | TOTAL adds each counter over the jobs |
| Series.MergedCountsInterpolate | src/telemetry/metrics_aggregator.cpp:158-176 | a TOTAL percentile lies between the smallest and the largest percentile of the counts that were merged, also of running workers |
| Series.TotalPercentilesInterpolate | src/telemetry/metrics_aggregator.cpp:158-176 | in a snapshot of joined workers every reported TOTAL percentile lies between the smallest and the largest reported job percentile |
| Series.CrossedOnlyWhileRecording | src/telemetry/metrics_aggregator.cpp:152-154 | percentiles of one pass are ordered unless the worker recorded something during it |
| Series.PassCanCross | src/telemetry/metrics_aggregator.cpp:152-154 | over any running worker there is a reading of all 64 buckets with p95 below p50 |
| Series.OrderedExactlyWhenEnded | src/telemetry/metrics_aggregator.cpp:152-154 | every pass over a worker reads ordered percentiles if and only if its thread has ended |
| Series.ReportedLatenciesAreOrdered | src/telemetry/metrics_aggregator.cpp:255-259 | min <= p50 <= p95 <= p99 <= max in every report |
| Series.SampleAppended | src/telemetry/metrics_aggregator.cpp:168-181 | only a recording sample moves the basis and adds a row |
| Series.SnapshotFields | src/telemetry/metrics_aggregator.cpp:124-183 | each field of a snapshot: rates rounded from growth since the last row and from the counter since the start, percentiles and error counters of their own readings, TOTAL percentiles of the merged counts |
| Aggregator.Meter.Read | src/telemetry/metrics_aggregator.cpp:139-158 | every load of a running worker lies between before and after, bucket by bucket; each percentile is a racing answer for that time; loads of an ended worker are exact |
| Aggregator.MetricsAggregator.TakeSnapshot | src/telemetry/metrics_aggregator.cpp:124-183 | returns the specified snapshot of such readings of all workers, at the time the clock gave, and moves the basis exactly when recording |
| Aggregator.MetricsAggregator.RecordTimeSeries | src/telemetry/metrics_aggregator.cpp:185-189 | the ring describes the log with one more row |
| Aggregator.MetricsAggregator.TimeSeries | src/telemetry/metrics_aggregator.cpp:211-231 | exactly the newest min(count, capacity) rows, oldest first, on both sides of the wrap |
| Aggregator.MetricsAggregator.Publish | src/telemetry/metrics_aggregator.cpp:110-120 | a tick publishes its snapshot as the latest and keeps the log equal to the recorded snapshots |
| Aggregator.MetricsAggregator.Run | src/telemetry/metrics_aggregator.cpp:98-122 | one snapshot a tick, and exactly every second one records |
| Aggregator.MetricsAggregator.TakeFinalSnapshot | src/telemetry/metrics_aggregator.cpp:191-204 | stops, and records exactly when, by a clock reading made after that, half a second has passed since the last row; reads ended workers exactly |
| Aggregator.MetricsAggregator.CountersAreConserved | src/telemetry/metrics_aggregator.cpp:124-204 | at any time, for every worker, recorded differences plus the open one equal its counter |
| Aggregator.MetricsAggregator.BuildResults | src/telemetry/metrics_aggregator.cpp:233-272 | per worker: each average within 1/2 of its own counter over the elapsed time, minimum, maximum and percentiles each the histogram's own, totals and error counters each the worker's own; elapsed as the clock has it; the newest rows of the log of recorded snapshots |
| Aggregator.ReportedLatencies | src/telemetry/metrics_aggregator.cpp:255-259 | reported p50, p95 and p99 are at least the order statistics of ranks ceil(0.50 n), ceil(0.95 n) and ceil(0.99 n) of what was recorded, and less than twice them but for 0 and 1; minimum and maximum likewise; all zero for a worker that recorded nothing |
| Orchestrator.RunInv | src/orchestrator/benchmark_orchestrator.cpp:201-257 | the invariant of barrier, flag, workers and joins holds in every run of any number of workers |
| Orchestrator.SubmitsWaitForTheBarrier | src/orchestrator/benchmark_orchestrator.cpp:219-222 | no request is submitted before every worker has arrived |
| Orchestrator.FinishedRunReportsFailures | src/orchestrator/benchmark_orchestrator.cpp:240-250 | in a finished run every thread has ended, failed flags are exactly the workers that threw, and success means none did |
| Orchestrator.FailureClearsTheFlag | src/telemetry/worker_thread.cpp:61-75 | a worker that threw has cleared the flag or does so with its own next one or two steps |
| Orchestrator.OthersLeaveItAlone | src/telemetry/worker_thread.cpp:68-75 | which no other thread can disable |
| Orchestrator.RunsAreMonotone | src/orchestrator/benchmark_orchestrator.cpp:237 | the flag is never set again and failures are never forgotten |
| Orchestrator.StoppedRunsAreBounded | src/orchestrator/benchmark_orchestrator.cpp:237-242 | once the flag is false all threads together take a bounded number of steps, in every interleaving |
| Orchestrator.StuckExactly | src/orchestrator/benchmark_orchestrator.cpp:219-242 | a stopped run is stuck exactly when it is finished or all remaining threads are hung in io_uring polls: no other deadlock at barrier, loop or join |
| Orchestrator.StoppedRunsFinishExactly | src/orchestrator/benchmark_orchestrator.cpp:237-250 | a stopped run can be finished if and only if no worker is hung |
| Orchestrator.OnlyUringHangs | src/engine/io_uring_engine.cpp:95 | without a job on io_uring no worker is ever hung |
| Orchestrator.BlockedCanBeReached | src/orchestrator/benchmark_orchestrator.cpp:237-242 | a run of one io_uring job that is stopped and stuck |
| Orchestrator.StoppedWorkersSubmitOnce | src/telemetry/worker_thread.cpp:117-137 | in every interleaving of all threads, after the flag is cleared each worker starts at most one more submission, and none unless it had already read the flag as true |
| SizeParser.Parse | src/config/size_parser.cpp:22-85 | accepts exactly the strings that denote a size of at most 64 bits, with that size |
| SizeParser.ParseIsExact | src/config/size_parser.cpp:79-84 | the division test before the multiplication neither misses nor invents an overflow |
| SizeParser.ParseReports | src/config/size_parser.cpp:39-84 | which error a string that starts with a number gets, by the number and what follows it: each exactly under its condition |
| SizeParser.ParseReportsNoNumber | src/config/size_parser.cpp:23-29 | an empty string and one that does not start with a digit are told apart, each exactly |
| SizeParser.ParseUndoesFormat | src/config/size_parser.cpp:87-101 | parsing a printed size gives it back, for every 64-bit size |
| SizeParser.ParseUndoesFormatUnlessGiga | src/config/size_parser.cpp:67-73 | with k and m only, it fails exactly on the positive multiples of 1 GiB |
| SizeParser.FormatDenotes | src/config/size_parser.cpp:87-101 | a printed size denotes the number, independently of the parser |
| SizeParser.FormatUsesLargestUnit | src/config/size_parser.cpp:87-101 | a size is printed in the largest of the units 1024^3, 1024^2, 1024 and 1 that divides it |
| SizeParser.NoLeadingZero | src/config/size_parser.cpp:87-101 | printed numbers have no leading zero |
| Mailbox.FinishProtocol | src/display/qt/qt_main_window.cpp:124-151 | once a tick has stopped the timer, in every continuation: the GUI holds the results exactly when the run ever publishes them, likewise the context, and its last row is the last snapshot ever published |
| Mailbox.TakenAtMostOnce | src/display/qt/run_mailbox.cpp:59-77 | context and results are taken at most once, as published |
| Mailbox.HistoryFollowsPublication | src/display/qt/qt_main_window.cpp:135-139 | rows follow the order of publication, and an empty row occurs exactly when results were published without any snapshot |
| Mailbox.TickRepeatsExactly | src/display/qt/qt_main_window.cpp:135-139 | for any steps of the run thread in between, a tick adds a second row for the last snapshot shown exactly if the sequence has moved, the mailbox still holds it, and nothing else is published before the copy |
| Mailbox.SequenceMovedExactly | src/display/qt/qt_main_window.cpp:135-139 | while the mailbox holds the last snapshot shown, its sequence has moved exactly if that row was overtaken or the results were published after its reading |
| Mailbox.RepeatHasACause | src/display/qt/qt_main_window.cpp:135-139 | a repeated row follows one that was overtaken, or the publication of the results |
| Mailbox.RepeatsAreBounded | src/display/qt/qt_main_window.cpp:135-139 | two copies of a snapshot at most; three only of the last one, with results |
| Mailbox.RowCanRepeat | src/display/qt/qt_main_window.cpp:135-139 | runs with two and with three copies |
| Mailbox.ResultsNeedNotRepeat | src/display/qt/run_mailbox.cpp:34-39 | a run whose results repeat nothing |
| Mailbox.NothingAfterStop | src/display/qt/run_mailbox.cpp:34-44 | nothing is published after the tick that stopped the timer |
| Mailbox.FinalTick | src/display/qt/qt_app_runner.cpp:47-50 | when the run thread is over, the next tick stops the timer |
| Mailbox.Always | src/display/qt/run_mailbox.cpp:17-82 | the invariant of mailbox, run thread and GUI in every interleaving |
| Mailbox.RunMailbox.PublishResults | src/display/qt/run_mailbox.cpp:34-39 | the whole new mailbox state |
| Mailbox.RunMailbox.TakeContext | src/display/qt/run_mailbox.cpp:59-67 | returns what was there and leaves nothing |
| Mailbox.RunMailbox.TakeResults | src/display/qt/run_mailbox.cpp:69-77 | returns what was there and leaves nothing |
| Mailbox.RunThread.Step | src/orchestrator/benchmark_orchestrator.cpp:204-256 | the run thread's code takes only steps of the protocol, whatever throws |
| Mailbox.QtMainWindow.RequestStop | src/display/qt/qt_main_window.cpp:119-122 | a stop request, also after the run is finished, is one step of the protocol |
| Mailbox.QtMainWindow.OnTick | src/display/qt/qt_main_window.cpp:124-151 | with the run thread acting before every mailbox call, a tick takes exactly its steps in order and finishes if the phase was Finished before it; if it finishes, the window holds results and context exactly as published, its last copied row is the last snapshot, and the time series of the results, if any, has replaced the rows |

## Left out

- Libaio.LibaioEngine.Close: only the final bookkeeping; the five-second deadline, `io_cancel` and `io_destroy` depend on the clock and on kernel behaviour.
- IoUring.IoUringEngine.PollCompletions: with stale entries after a failed submit a poll may deliver fewer completions than min_events; only the number of queue entries is bounded below then.
- Orchestrator.StoppedRunsAreBounded: counted from the moment the flag is false; how long a run lasts before that is up to the clock, a signal or the user. Exceptions of the orchestrator itself are not modelled.
- Worker.WorkerThread.Run: the shared flag appears to a worker as the number of its loads that still return true; that the flag never returns to true is proved in `Orchestrator`.
- Mailbox.QtMainWindow.OnTick: the progress bar, the clock and all widgets.
- Aggregator.MetricsAggregator.Start: the sampling thread itself; `Run` takes the number of ticks before the flag or a stop request ends it.
- Aggregator.MetricsAggregator.BuildResults: names, configuration copies, failure texts and the date.
- Memory allocation succeeds: `aligned_alloc` returns an aligned address and no container throws.
- System calls, liburing and libaio internals, the fallback when direct opening fails, file creation and filling.
- Retries after an interrupted call are assumed to end and are part of the call.
- Rates, quantiles and elapsed seconds are exact reals, not doubles; rates stay below 2^63, where `llround` is defined.
- Counters and the mailbox sequence do not wrap at 64 bits.
- File sizes above the signed 64-bit range of off_t; the sequential generator can wrap there.
- Random numbers: a draw is any value in its range, a mixed direction is any choice; the random filling of buffers is omitted.
- Weak memory ordering: each atomic access is one step of an interleaving.
- JSON, CSV and command line reading, logging, exporters, date formatting, terminal and Qt rendering, chart geometry.
