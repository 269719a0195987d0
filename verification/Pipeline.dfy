/** The invariant that slot pool, engine and worker keep together, on values.

    src/telemetry/worker_thread.cpp, src/telemetry/buffer_pool.cpp and the engines
    each keep a part of it; no line of them states it. */
module Pipeline {
  import opened Types
  import opened Sequences
  import opened Arithmetic
  import opened Config
  import opened Buffers
  import opened Offsets
  import opened EngineSpec
  import opened History

  /** A worker between two steps: the free stack of the pool, the requests in the
      engine, the completions of the current batch that are not yet recorded,
      the counters, and the history behind them. */
  datatype View = View(
    free: seq<nat>, requests: map<nat, Request>, pending: Outstanding, rest: seq<Completion>,
    accepted: nat, iops: nat, bytes: nat, readErrors: nat, writeErrors: nat, samples: nat,
    history: seq<Step>)

  /** The rw_mode leaves the direction open only when it mixes. */
  predicate LegalDirection(mode: RWMode, d: Direction) {
    && (mode.ReadOnly? || mode.RandRead? ==> d.Read?)
    && (mode.WriteOnly? || mode.RandWrite? ==> d.Write?)
  }

  /** What O_DIRECT, the file and the mode demand of a request; its buffer is the slot its id names. */
  ghost predicate LegalRequest(c: JobConfig, base: nat, r: Request)
    requires c.alignment > 0
  {
    && LegalOffset(c, r.offset)
    && LegalDirection(c.rwMode, r.direction)
    && r.length == c.blockSize
    && r.length % c.alignment == 0
    && r.buffer == SlotAddress(base, c.blockSize, r.id)
    && r.buffer % c.alignment == 0
    && 0 <= r.submitTime <= I64_MAX
  }

  /** A completion of one of the job's requests. */
  ghost predicate LegalCompletion(c: JobConfig, done: Completion) {
    && done.bytes <= c.blockSize
    && (done.success ==> done.bytes == c.blockSize)
    && 0 <= done.submitTime <= I64_MAX
  }

  /** Free slots, slots of requests in the engine and slots of unrecorded completions
      never overlap, and there are as many of them as the pool has. */
  ghost predicate Partition(depth: nat, free: seq<nat>, pending: Outstanding, rest: seq<Completion>) {
    && NoDup(free)
    && DistinctIds(rest)
    && (forall i :: 0 <= i < |free| ==> free[i] < depth && free[i] !in pending)
    && (forall id :: id in pending ==> id < depth)
    && (forall i :: 0 <= i < |rest| ==> rest[i].id < depth && rest[i].id !in pending && rest[i].id !in free)
    && |free| + |pending| + |rest| == depth
  }

  ghost predicate Requests(c: JobConfig, base: nat, requests: map<nat, Request>, pending: Outstanding)
    requires c.alignment > 0
  {
    && requests.Keys == pending.Keys
    && forall id :: id in requests ==>
         && requests[id].id == id
         && pending[id] == InfoOf(requests[id])
         && LegalRequest(c, base, requests[id])
  }

  /** Every operation counts once; failed ones count as errors and may fall short. */
  ghost predicate Counters(blockSize: nat, iops: nat, bytes: nat, errors: nat) {
    errors <= iops && Times(iops - errors, blockSize) <= bytes <= Times(iops, blockSize)
  }

  ghost predicate Accounts(c: JobConfig, accepted: nat, iops: nat, bytes: nat, errors: nat, samples: nat,
                           pending: nat, rest: seq<Completion>) {
    && accepted == iops + pending + |rest|
    && samples == iops
    && Counters(c.blockSize, iops, bytes, errors)
    && (forall i :: 0 <= i < |rest| ==> LegalCompletion(c, rest[i]))
  }

  /** The k-th request of the job, counting from zero, may be r. */
  ghost predicate Chosen(c: JobConfig, base: nat, k: nat, r: Request)
    requires c.alignment > 0 && 0 < c.blockSize <= c.fileSize
  {
    LegalRequest(c, base, r) && (c.accessPattern.Sequential? ==> r.offset == SequentialOffset(c, k))
  }

  /** Every request that was ever accepted was the job's to make, in the job's order. */
  ghost predicate AllChosen(c: JobConfig, base: nat, h: seq<Step>)
    requires c.alignment > 0 && 0 < c.blockSize <= c.fileSize
  {
    forall k :: 0 <= k < |h| && h[k].Accept? ==> Chosen(c, base, AcceptCount(h[..k]), h[k].request)
  }

  ghost predicate Pipe(c: JobConfig, base: nat, depth: nat, v: View) {
    && c.alignment > 0 && 0 < c.blockSize <= c.fileSize
    && Partition(depth, v.free, v.pending, v.rest)
    && Requests(c, base, v.requests, v.pending)
    && Accounts(c, v.accepted, v.iops, v.bytes, v.readErrors + v.writeErrors, v.samples, |v.pending|, v.rest)
    && Traced(v.history, v.free, v.pending, v.rest)
    && Counted(depth, v.history, v.free)
    && v.accepted == AcceptCount(v.history) && AllChosen(c, base, v.history)
  }

  // ---------------------------------------------------------------------------
  // Consequences

  /** The three kinds of slots are pairwise disjoint and together exactly {0, ..., depth - 1}. */
  lemma SlotsPartition(depth: nat, free: seq<nat>, pending: Outstanding, rest: seq<Completion>)
    requires Partition(depth, free, pending, rest)
    ensures Elems(free) !! pending.Keys && Elems(free) !! Elems(IdsOf(rest)) && pending.Keys !! Elems(IdsOf(rest))
    ensures Elems(free) + pending.Keys + Elems(IdsOf(rest)) == Range(depth)
    ensures |free| + |pending| + |rest| == depth
  {
    var ids := IdsOf(rest);
    NoDupSize(free);
    NoDupSize(ids);
    ElemsFacts(depth, free, pending, rest);
    ThreeParts(Elems(free), pending.Keys, Elems(ids), depth);
  }

  lemma PipeCounts(c: JobConfig, base: nat, depth: nat, v: View)
    requires Pipe(c, base, depth, v)
    ensures |v.free| + |v.pending| + |v.rest| == depth
  {
  }

  lemma ElemsFacts(depth: nat, free: seq<nat>, pending: Outstanding, rest: seq<Completion>)
    requires Partition(depth, free, pending, rest)
    ensures forall id :: id in Elems(free) ==> id < depth && id !in pending
    ensures forall id :: id in Elems(IdsOf(rest)) ==> id < depth && id !in pending && id !in Elems(free)
  {
    forall id | id in Elems(IdsOf(rest)) ensures id < depth && id !in pending && id !in Elems(free) {
      var i :| 0 <= i < |rest| && IdsOf(rest)[i] == id;
      assert rest[i].id == id;
    }
  }

  lemma ThreeParts(a: set<nat>, b: set<nat>, c: set<nat>, n: nat)
    requires a !! b && a !! c && b !! c && |a| + |b| + |c| == n
    requires forall i :: i in a || i in b || i in c ==> i < n
    ensures a + b + c == Range(n)
  {
    var ab := a + b;
    assert |ab| == |a| + |b|;
    assert |ab + c| == |ab| + |c|;
    assert ab + c <= Range(n);
    SubsetSize(ab + c, Range(n));
  }

  function IdsOf(batch: seq<Completion>): (r: seq<nat>)
    ensures |r| == |batch| && forall i :: 0 <= i < |r| ==> r[i] == batch[i].id
  {
    seq(|batch|, i requires 0 <= i < |batch| => batch[i].id)
  }

  /** No two outstanding requests share a byte of buffer, and none overruns the pool. */
  lemma BuffersAreDisjoint(c: JobConfig, base: nat, depth: nat, v: View, a: nat, b: nat)
    requires Pipe(c, base, depth, v) && Sound(c) && base % c.alignment == 0
    requires a in v.requests && b in v.requests && a < b
    ensures v.requests[a].buffer + v.requests[a].length <= v.requests[b].buffer
    ensures base <= v.requests[a].buffer && v.requests[b].buffer + v.requests[b].length <= base + c.blockSize * depth
  {
    SlotsAreLegal(base, c.alignment, c.blockSize, depth);
    assert a in v.pending.Keys && b in v.pending.Keys;
  }

  /** Every outstanding request is legal for direct I/O on the job's file. */
  lemma OutstandingIsLegal(c: JobConfig, base: nat, depth: nat, v: View, id: nat)
    requires Pipe(c, base, depth, v) && id in v.pending
    ensures id in v.requests && id < depth
    ensures var r := v.requests[id];
      && r.offset >= 0 && r.offset % c.alignment == 0 && r.offset + r.length <= c.fileSize
      && r.buffer % c.alignment == 0 && r.length % c.alignment == 0
  {
    assert id in v.requests.Keys;
  }

  /** Errors never exceed operations; bytes never exceed operations times block size,
      with equality when there were no errors; and every accepted submission is
      recorded, in the engine, or in the batch. */
  lemma AccountsMeaning(c: JobConfig, base: nat, depth: nat, v: View)
    requires Pipe(c, base, depth, v)
    ensures v.accepted == v.iops + |v.pending| + |v.rest|
    ensures v.readErrors + v.writeErrors <= v.iops == v.samples
    ensures v.bytes <= v.iops * c.blockSize
    ensures v.readErrors + v.writeErrors == 0 ==> v.bytes == v.iops * c.blockSize
  {
    hide Traced, Counted, Partition, Requests, AllChosen;
    TimesIsProduct(v.iops, c.blockSize);
  }

  /** In every run of the worker: each request is completed exactly once unless it is still
      outstanding; the ids count up from 0 until the first completion; and an id is used twice,
      or an id smaller than an earlier one, exactly if a request was submitted after a completion. */
  lemma HistoryMeaning(c: JobConfig, base: nat, depth: nat, v: View)
    requires Pipe(c, base, depth, v)
    ensures Replay(v.history) == Some(v.pending)
    ensures forall id :: Accepts(v.history, id) == Completes(v.history, id) + if id in v.pending then 1 else 0
    ensures Repeats(v.history) <==> AcceptedLate(v.history)
    ensures v.accepted == AcceptCount(v.history)
    ensures CountsUp(v.history) && (Increasing(v.history) <==> !AcceptedLate(v.history))
  {
    IncreasingExactly(v.history);
    forall id ensures Accepts(v.history, id) == Completes(v.history, id) + if id in v.pending then 1 else 0 {
      ExactlyOnce(v.history, id);
    }
  }

  /** What the configuration makes of the k-th request, field by field. */
  ghost predicate Intended(c: JobConfig, base: nat, k: nat, r: Request)
    requires c.alignment > 0 && 0 < c.blockSize <= c.fileSize
  {
    && (c.rwMode in {ReadOnly, RandRead} ==> r.direction == Read)
    && (c.rwMode in {WriteOnly, RandWrite} ==> r.direction == Write)
    && (c.accessPattern == Sequential ==> r.offset == k % (c.fileSize / c.blockSize) * c.blockSize)
    && 0 <= r.offset && r.offset % c.alignment == 0 && r.offset + r.length <= c.fileSize
    && r.length == c.blockSize && r.buffer == base + r.id * c.blockSize
  }

  /** Every request a job ever gets accepted is the one its configuration intends. */
  lemma RequestsOfTheJob(c: JobConfig, base: nat, depth: nat, v: View)
    requires Pipe(c, base, depth, v)
    ensures forall k :: 0 <= k < |v.history| && v.history[k].Accept? ==>
      Intended(c, base, AcceptCount(v.history[..k]), v.history[k].request)
  {
    hide Traced, Counted, Partition, Requests, Accounts, Chosen, Intended;
    forall k | 0 <= k < |v.history| && v.history[k].Accept?
      ensures Intended(c, base, AcceptCount(v.history[..k]), v.history[k].request)
    {
      ChosenIsIntended(c, base, AcceptCount(v.history[..k]), v.history[k].request);
    }
  }

  lemma ChosenIsIntended(c: JobConfig, base: nat, k: nat, r: Request)
    requires c.alignment > 0 && 0 < c.blockSize <= c.fileSize && Chosen(c, base, k, r)
    ensures Intended(c, base, k, r)
  {
  }

  // ---------------------------------------------------------------------------
  // Steps

  lemma NoDupAppend(s: seq<nat>, x: nat)
    ensures NoDup(s + [x]) <==> NoDup(s) && x !in s
  {
    if NoDup(s + [x]) {
      forall i, j | 0 <= i < j < |s| ensures s[i] != s[j] {
        assert (s + [x])[i] != (s + [x])[j];
      }
      forall i | 0 <= i < |s| ensures s[i] != x {
        assert (s + [x])[i] != (s + [x])[|s|];
      }
    }
  }

  /** A worker that has done nothing. */
  lemma PipeStart(c: JobConfig, base: nat, depth: nat, free: seq<nat>)
    requires c.alignment > 0 && 0 < c.blockSize <= c.fileSize && |free| == depth && Descending(depth, free)
    ensures Pipe(c, base, depth, View(free, map[], map[], [], 0, 0, 0, 0, 0, 0, []))
  {
  }

  /** The slot on top of the free stack is new to the engine, and the engine has room. */
  lemma SubmitIsSafe(c: JobConfig, base: nat, depth: nat, v: View, free': seq<nat>, id: nat)
    requires Pipe(c, base, depth, v) && v.free == free' + [id]
    ensures id !in v.pending && |v.pending| < depth
  {
    assert v.free[|free'|] == id;
  }

  lemma PartitionSubmit(depth: nat, free': seq<nat>, id: nat, pending: Outstanding, info: SubmitInfo,
      rest: seq<Completion>)
    requires Partition(depth, free' + [id], pending, rest)
    ensures Partition(depth, free', pending[id := info], rest)
    ensures |pending[id := info]| == |pending| + 1
  {
    var free := free' + [id];
    NoDupAppend(free', id);
    assert free[|free'|] == id && id in free;
    forall i | 0 <= i < |free'| ensures free'[i] < depth && free'[i] !in pending && free'[i] != id {
      assert free[i] == free'[i];
    }
    forall i | 0 <= i < |rest| ensures rest[i].id !in free' && rest[i].id != id {
      assert rest[i].id !in free;
    }
  }

  lemma AccountsSubmit(c: JobConfig, accepted: nat, iops: nat, bytes: nat, errors: nat, samples: nat,
                       pending: nat, rest: seq<Completion>)
    requires Accounts(c, accepted, iops, bytes, errors, samples, pending, rest)
    ensures Accounts(c, accepted + 1, iops, bytes, errors, samples, pending + 1, rest)
  {
  }

  lemma AccountsRecord(c: JobConfig, accepted: nat, iops: nat, bytes: nat, errors: nat, samples: nat,
                       pending: nat, done: Completion, rest: seq<Completion>)
    requires Accounts(c, accepted, iops, bytes, errors, samples, pending, [done] + rest)
    ensures LegalCompletion(c, done)
    ensures Accounts(c, accepted, iops + 1, bytes + done.bytes, errors + (if done.success then 0 else 1),
                     samples + 1, pending, rest)
  {
    assert ([done] + rest)[0] == done;
    CountersStep(c.blockSize, iops, bytes, errors, done.bytes, done.success);
    forall i | 0 <= i < |rest| ensures LegalCompletion(c, rest[i]) {
      assert ([done] + rest)[i + 1] == rest[i];
    }
  }

  lemma RequestsSubmit(c: JobConfig, base: nat, requests: map<nat, Request>, pending: Outstanding, r: Request)
    requires c.alignment > 0
    requires Requests(c, base, requests, pending) && LegalRequest(c, base, r)
    ensures Requests(c, base, requests[r.id := r], pending[r.id := InfoOf(r)])
  {
  }

  lemma ChosenSubmit(c: JobConfig, base: nat, h: seq<Step>, r: Request)
    requires c.alignment > 0 && 0 < c.blockSize <= c.fileSize
    requires AllChosen(c, base, h) && Chosen(c, base, AcceptCount(h), r)
    ensures AllChosen(c, base, h + [Accept(r)]) && AcceptCount(h + [Accept(r)]) == AcceptCount(h) + 1
  {
    hide Chosen;
    var g := h + [Accept(r)];
    assert g[..|h|] == h;
    forall k | 0 <= k < |g| && g[k].Accept? ensures Chosen(c, base, AcceptCount(g[..k]), g[k].request) {
      assert k < |h| ==> g[..k] == h[..k];
    }
  }

  lemma {:induction false} ChosenPoll(c: JobConfig, base: nat, h: seq<Step>, batch: seq<Completion>)
    requires c.alignment > 0 && 0 < c.blockSize <= c.fileSize && AllChosen(c, base, h)
    ensures AllChosen(c, base, h + Completed(batch)) && AcceptCount(h + Completed(batch)) == AcceptCount(h)
    decreases |batch|
  {
    CompletedStep(h, batch);
    hide Completed, Chosen;
    if batch != [] {
      var g := h + [Complete(batch[0])];
      assert g[..|h|] == h;
      forall k | 0 <= k < |g| && g[k].Accept? ensures Chosen(c, base, AcceptCount(g[..k]), g[k].request) {
        assert g[..k] == h[..k];
      }
      ChosenPoll(c, base, g, batch[1..]);
    }
  }

  function Submitted(v: View, free': seq<nat>, r: Request): View {
    View(free', v.requests[r.id := r], v.pending[r.id := InfoOf(r)], v.rest,
         v.accepted + 1, v.iops, v.bytes, v.readErrors, v.writeErrors, v.samples, v.history + [Accept(r)])
  }

  lemma PipeSubmit(c: JobConfig, base: nat, depth: nat, v: View, free': seq<nat>, r: Request)
    requires Pipe(c, base, depth, v) && v.free == free' + [r.id] && LegalRequest(c, base, r)
    requires Reuses(v.history, r.id)
    requires c.accessPattern.Sequential? ==> r.offset == SequentialOffset(c, v.accepted)
    ensures Pipe(c, base, depth, Submitted(v, free', r))
  {
    hide Traced, Counted, AllChosen, LegalRequest;
    ChosenSubmit(c, base, v.history, r);
    CountedSubmit(depth, v.history, free', r);
    NoDupAppend(free', r.id);
    SubmitIsSafe(c, base, depth, v, free', r.id);
    TracedSubmit(v.history, free', r, v.pending, v.rest);
    PartitionSubmit(depth, free', r.id, v.pending, InfoOf(r), v.rest);
    RequestsSubmit(c, base, v.requests, v.pending, r);
    AccountsSubmit(c, v.accepted, v.iops, v.bytes, v.readErrors + v.writeErrors, v.samples, |v.pending|, v.rest);
  }

  lemma PartitionPoll(depth: nat, free: seq<nat>, pending: Outstanding, batch: seq<Completion>, pending': Outstanding)
    requires Partition(depth, free, pending, []) && Delivers(pending, batch, pending')
    ensures Partition(depth, free, pending', batch)
    ensures |pending'| + |batch| == |pending|
  {
    DeliversSize(pending, batch, pending');
    DeliversAnswers(pending, batch, pending');
    DeliversLeaves(pending, batch, pending');
    forall i | 0 <= i < |batch| ensures batch[i].id !in free {
      assert batch[i].id in pending;
    }
  }

  lemma RequestsPoll(c: JobConfig, base: nat, requests: map<nat, Request>,
                     pending: Outstanding, batch: seq<Completion>, pending': Outstanding)
    requires c.alignment > 0
    requires Requests(c, base, requests, pending) && Delivers(pending, batch, pending')
    ensures pending'.Keys <= requests.Keys
    ensures Requests(c, base, map id | id in pending' :: requests[id], pending')
    ensures forall i :: 0 <= i < |batch| ==> LegalCompletion(c, batch[i])
  {
    DeliversLeaves(pending, batch, pending');
    DeliversAnswers(pending, batch, pending');
    forall i | 0 <= i < |batch| ensures LegalCompletion(c, batch[i]) {
      assert batch[i].id in requests.Keys;
    }
  }

  function Polled(v: View, batch: seq<Completion>, pending': Outstanding): View
    requires pending'.Keys <= v.requests.Keys
  {
    View(v.free, map id | id in pending' :: v.requests[id], pending', batch,
         v.accepted, v.iops, v.bytes, v.readErrors, v.writeErrors, v.samples, v.history + Completed(batch))
  }

  lemma PipePoll(c: JobConfig, base: nat, depth: nat, v: View, batch: seq<Completion>, pending': Outstanding)
    requires Pipe(c, base, depth, v) && v.rest == [] && Delivers(v.pending, batch, pending')
    ensures pending'.Keys <= v.requests.Keys
    ensures Pipe(c, base, depth, Polled(v, batch, pending'))
    ensures |pending'| + |batch| == |v.pending|
  {
    hide Traced, Counted, AllChosen;
    ChosenPoll(c, base, v.history, batch);
    CountedPoll(depth, v.history, v.free, batch);
    TracedPoll(v.history, v.free, v.pending, batch, pending');
    PartitionPoll(depth, v.free, v.pending, batch, pending');
    RequestsPoll(c, base, v.requests, v.pending, batch, pending');
  }

  lemma CountersStep(blockSize: nat, iops: nat, bytes: nat, errors: nat, moved: nat, success: bool)
    requires Counters(blockSize, iops, bytes, errors)
    requires moved <= blockSize && (success ==> moved == blockSize)
    ensures Counters(blockSize, iops + 1, bytes + moved, errors + if success then 0 else 1)
  {
  }

  lemma PartitionRecord(depth: nat, free: seq<nat>, pending: Outstanding, c: Completion, rest: seq<Completion>)
    requires Partition(depth, free, pending, [c] + rest)
    ensures c.id < depth && c.id !in free
    ensures Partition(depth, free + [c.id], pending, rest)
  {
    var batch := [c] + rest;
    assert batch[0] == c;
    forall i | 0 <= i < |rest|
      ensures rest[i].id < depth && rest[i].id !in pending && rest[i].id !in free && rest[i].id != c.id
    {
      assert batch[i + 1] == rest[i];
    }
    forall i, j | 0 <= i < j < |rest| ensures rest[i].id != rest[j].id {
      assert batch[i + 1].id != batch[j + 1].id;
    }
    NoDupAppend(free, c.id);
  }

  function Recorded(v: View, c: Completion, rest: seq<Completion>): View {
    View(v.free + [c.id], v.requests, v.pending, rest,
         v.accepted, v.iops + 1, v.bytes + c.bytes,
         v.readErrors + (if !c.success && c.direction.Read? then 1 else 0),
         v.writeErrors + (if !c.success && c.direction.Write? then 1 else 0),
         v.samples + 1, v.history)
  }

  lemma PipeRecord(c: JobConfig, base: nat, depth: nat, v: View, done: Completion, rest: seq<Completion>)
    requires Pipe(c, base, depth, v) && v.rest == [done] + rest
    ensures done.id < depth && done.id !in v.free
    ensures LegalCompletion(c, done) && Accepts(v.history, done.id) >= 1
    ensures Pipe(c, base, depth, Recorded(v, done, rest))
  {
    hide Traced, Counted, AllChosen;
    TracedRecord(v.history, v.free, v.pending, done, rest);
    CountedRecord(depth, v.history, v.free, done.id);
    PartitionRecord(depth, v.free, v.pending, done, rest);
    AccountsRecord(c, v.accepted, v.iops, v.bytes, v.readErrors + v.writeErrors, v.samples, |v.pending|, done, rest);
  }
}
