/** The history of what a worker and its engine exchange, and the ids in it.

    src/common/types.h:44 calls a request id a per-worker monotonic counter; the worker
    of src/telemetry/worker_thread.cpp:153-163 uses the slot number. */
module History {
  import opened Types
  import opened EngineSpec
  import opened Sequences

  /** Some request was completed. */
  ghost predicate Answered(h: seq<Step>) {
    exists k :: 0 <= k < |h| && h[k].Complete?
  }

  /** Some request was accepted after another one had been completed. */
  ghost predicate AcceptedLate(h: seq<Step>) {
    exists k :: 0 <= k < |h| && h[k].Accept? && Answered(h[..k])
  }

  /** Some id was accepted more than once. */
  ghost predicate Repeats(h: seq<Step>) {
    exists id :: Accepts(h, id) >= 2
  }

  /** A submission after the first completion uses an id that was used before. */
  ghost predicate Reuses(h: seq<Step>, id: nat) {
    Answered(h) ==> Accepts(h, id) >= 1
  }

  /** The history explains the worker's state: the requests in the engine are those the
      specification leaves outstanding, each unrecorded completion was once accepted, and
      as long as nothing was completed no free slot was ever used. */
  ghost predicate Traced(h: seq<Step>, free: seq<nat>, pending: Outstanding, rest: seq<Completion>) {
    && Replay(h) == Some(pending)
    && (forall i :: 0 <= i < |rest| ==> Accepts(h, rest[i].id) >= 1)
    && (rest != [] ==> Answered(h))
    && (!Answered(h) ==> forall i :: 0 <= i < |free| ==> Accepts(h, free[i]) == 0)
    && (Repeats(h) <==> AcceptedLate(h))
  }

  /** Up to the first completion the ids are 0, 1, 2, and so on. */
  ghost predicate CountsUp(h: seq<Step>) {
    forall k :: 0 <= k < |h| && !Answered(h[..k + 1]) ==> h[k].Accept? && h[k].request.id == k
  }

  /** ... because until then the free stack is what the pool started with, less its top. */
  ghost predicate Counted(depth: nat, h: seq<Step>, free: seq<nat>) {
    && CountsUp(h)
    && (!Answered(h) ==> |h| + |free| == depth && Descending(depth, free))
  }

  /** Each accepted id is larger than all before it: what a monotonic counter would give. */
  ghost predicate Increasing(h: seq<Step>) {
    forall j, k :: 0 <= j < k < |h| && h[j].Accept? && h[k].Accept? ==> h[j].request.id < h[k].request.id
  }

  lemma Extended(h: seq<Step>, s: Step)
    ensures forall id :: Accepts(h + [s], id) == Accepts(h, id) + if s.Accept? && s.request.id == id then 1 else 0
    ensures Answered(h + [s]) <==> Answered(h) || s.Complete?
    ensures AcceptedLate(h + [s]) <==> AcceptedLate(h) || (s.Accept? && Answered(h))
    ensures (h + [s])[..|h|] == h
  {
    assert (h + [s])[..|h|] == h;
    ExtendedAnswered(h, s);
    ExtendedLate(h, s);
  }

  lemma AcceptsExtended(h: seq<Step>, s: Step, id: nat)
    ensures Accepts(h + [s], id) == Accepts(h, id) + if s.Accept? && s.request.id == id then 1 else 0
  {
    assert (h + [s])[..|h|] == h;
  }

  lemma UsedBefore(h: seq<Step>, id: nat)
    requires Accepts(h, id) >= 1
    ensures Reuses(h, id)
  {
  }

  lemma EmptyHistory()
    ensures !Answered([])
  {
  }

  lemma NothingAnswered(h: seq<Step>, id: nat)
    requires !Answered(h)
    ensures Reuses(h, id)
  {
  }

  lemma ExtendedAnswered(h: seq<Step>, s: Step)
    ensures Answered(h + [s]) <==> Answered(h) || s.Complete?
  {
    var g := h + [s];
    if Answered(h) {
      var k :| 0 <= k < |h| && h[k].Complete?;
      assert g[k].Complete?;
    }
    if s.Complete? {
      assert g[|h|].Complete?;
    }
  }

  lemma ExtendedLate(h: seq<Step>, s: Step)
    ensures AcceptedLate(h + [s]) <==> AcceptedLate(h) || (s.Accept? && Answered(h))
  {
    hide Answered;
    var g := h + [s];
    assert g[..|h|] == h;
    if AcceptedLate(h) {
      var k :| 0 <= k < |h| && h[k].Accept? && Answered(h[..k]);
      assert g[..k] == h[..k] && g[k].Accept?;
    }
    if s.Accept? && Answered(h) {
      assert g[|h|].Accept?;
    }
    if AcceptedLate(g) {
      var k :| 0 <= k < |g| && g[k].Accept? && Answered(g[..k]);
      if k < |h| {
        assert g[..k] == h[..k];
      }
    }
  }

  lemma NothingLate(h: seq<Step>)
    requires !Answered(h)
    ensures !AcceptedLate(h)
  {
    forall k | 0 <= k < |h| ensures !Answered(h[..k]) {
      assert forall j :: 0 <= j < k ==> h[..k][j] == h[j];
    }
  }

  /** Accepting the slot on top of the stack: the id repeats exactly if something was
      completed before. */
  lemma TracedSubmit(h: seq<Step>, free': seq<nat>, r: Request, pending: Outstanding, rest: seq<Completion>)
    requires Traced(h, free' + [r.id], pending, rest) && r.id !in pending && Reuses(h, r.id)
    requires r.id !in free'
    ensures Traced(h + [Accept(r)], free', pending[r.id := InfoOf(r)], rest)
    ensures Accepts(h + [Accept(r)], r.id) >= 2 <==> Answered(h)
  {
    var g, free := h + [Accept(r)], free' + [r.id];
    Extended(h, Accept(r));
    assert free[|free'|] == r.id;
    if Answered(h) {
      assert Accepts(g, r.id) >= 2;
    } else {
      NothingLate(h);
      assert forall id :: Accepts(h, id) < 2;
      assert forall id :: Accepts(g, id) < 2;
      forall i | 0 <= i < |free'| ensures Accepts(g, free'[i]) == 0 {
        assert free'[i] == free[i];
      }
    }
  }

  lemma CountsUpExtended(h: seq<Step>, s: Step)
    requires CountsUp(h) && (s.Accept? && !Answered(h) ==> s.request.id == |h|)
    ensures CountsUp(h + [s])
  {
    ExtendedAnswered(h, s);
    hide Answered;
    var g := h + [s];
    assert g[..|g|] == g;
    forall k | 0 <= k < |g| && !Answered(g[..k + 1]) ensures g[k].Accept? && g[k].request.id == k {
      if k < |h| {
        assert g[..k + 1] == h[..k + 1];
      }
    }
  }

  lemma CountedSubmit(depth: nat, h: seq<Step>, free': seq<nat>, r: Request)
    requires Counted(depth, h, free' + [r.id])
    ensures Counted(depth, h + [Accept(r)], free')
  {
    var free := free' + [r.id];
    ExtendedAnswered(h, Accept(r));
    if !Answered(h) {
      assert free[|free'|] == r.id;
      assert forall j :: 0 <= j < |free'| ==> free[j] == free'[j];
    }
    CountsUpExtended(h, Accept(r));
  }

  lemma {:induction false} CountedPoll(depth: nat, h: seq<Step>, free: seq<nat>, batch: seq<Completion>)
    requires Counted(depth, h, free)
    ensures Counted(depth, h + Completed(batch), free)
    decreases |batch|
  {
    CompletedStep(h, batch);
    hide CountsUp, Completed;
    if batch != [] {
      ExtendedAnswered(h, Complete(batch[0]));
      CountsUpExtended(h, Complete(batch[0]));
      CountedPoll(depth, h + [Complete(batch[0])], free, batch[1..]);
    }
  }

  lemma CountedRecord(depth: nat, h: seq<Step>, free: seq<nat>, id: nat)
    requires Counted(depth, h, free) && Answered(h)
    ensures Counted(depth, h, free + [id])
  {
  }

  lemma {:induction false} AcceptedAt(h: seq<Step>, id: nat) returns (k: nat)
    requires Accepts(h, id) >= 1
    ensures k < |h| && h[k].Accept? && h[k].request.id == id && Accepts(h[..k], id) == Accepts(h, id) - 1
  {
    k := |h| - 1;
    if !(h[k].Accept? && h[k].request.id == id) {
      k := AcceptedAt(h[..k], id);
      assert h[..|h| - 1][..k] == h[..k];
    }
  }

  /** The ids of a worker are those of a monotonic counter if and only if it submits nothing
      after a completion. */
  lemma IncreasingExactly(h: seq<Step>)
    requires CountsUp(h) && (Repeats(h) <==> AcceptedLate(h))
    ensures Increasing(h) <==> !AcceptedLate(h)
  {
    if AcceptedLate(h) {
      var id :| Accepts(h, id) >= 2;
      var k := AcceptedAt(h, id);
      var j := AcceptedAt(h[..k], id);
      assert h[j] == h[..k][j];
    } else {
      forall k | 0 <= k < |h| && h[k].Accept? ensures h[k].request.id == k {
        assert !Answered(h[..k]);
        ExtendedAnswered(h[..k], h[k]);
        assert h[..k] + [h[k]] == h[..k + 1];
      }
    }
  }

  lemma {:induction false} CompletedOnly(h: seq<Step>, batch: seq<Completion>)
    ensures Answered(h + Completed(batch)) <==> Answered(h) || batch != []
    ensures AcceptedLate(h + Completed(batch)) <==> AcceptedLate(h)
    decreases |batch|
  {
    CompletedStep(h, batch);
    hide Answered, AcceptedLate, Completed;
    if batch != [] {
      ExtendedAnswered(h, Complete(batch[0]));
      ExtendedLate(h, Complete(batch[0]));
      CompletedOnly(h + [Complete(batch[0])], batch[1..]);
    }
  }

  lemma CompletedStep(h: seq<Step>, batch: seq<Completion>)
    ensures batch == [] ==> h + Completed(batch) == h
    ensures batch != [] ==> h + Completed(batch) == (h + [Complete(batch[0])]) + Completed(batch[1..])
  {
  }

  lemma {:induction false} CompletedAccepts(h: seq<Step>, batch: seq<Completion>, id: nat)
    ensures Accepts(h + Completed(batch), id) == Accepts(h, id)
    decreases |batch|
  {
    CompletedStep(h, batch);
    hide Accepts, Completed;
    if batch != [] {
      AcceptsExtended(h, Complete(batch[0]), id);
      CompletedAccepts(h + [Complete(batch[0])], batch[1..], id);
    }
  }

  lemma TracedPoll(h: seq<Step>, free: seq<nat>, pending: Outstanding, batch: seq<Completion>, pending': Outstanding)
    requires Traced(h, free, pending, []) && Delivers(pending, batch, pending')
    ensures Traced(h + Completed(batch), free, pending', batch)
  {
    var g := h + Completed(batch);
    DeliversExtends(h, batch, pending');
    CompletedOnly(h, batch);
    forall id ensures Accepts(g, id) == Accepts(h, id) {
      CompletedAccepts(h, batch, id);
    }
    hide AcceptedLate, Completed;
    DeliversAnswers(pending, batch, pending');
    forall i | 0 <= i < |batch| ensures Accepts(g, batch[i].id) >= 1 {
      ExactlyOnce(h, batch[i].id);
    }
    if Repeats(h) {
      var id :| Accepts(h, id) >= 2;
      assert Accepts(g, id) >= 2;
    }
    if Repeats(g) {
      var id :| Accepts(g, id) >= 2;
      assert Accepts(h, id) >= 2;
    }
  }

  lemma TracedRecord(h: seq<Step>, free: seq<nat>, pending: Outstanding, done: Completion, rest: seq<Completion>)
    requires Traced(h, free, pending, [done] + rest)
    ensures Traced(h, free + [done.id], pending, rest)
    ensures Accepts(h, done.id) >= 1 && Answered(h)
  {
    assert ([done] + rest)[0] == done;
    forall i | 0 <= i < |rest| ensures Accepts(h, rest[i].id) >= 1 {
      assert ([done] + rest)[i + 1] == rest[i];
    }
  }

  /** With one slot, the second request of every run has the id of the first. */
  lemma SecondIdReturns(r: Request, c: Completion, r': Request)
    requires c.id == r.id == r'.id && Answers(c, InfoOf(r))
    ensures var h := [Accept(r), Complete(c), Accept(r')];
      Replay(h) == Some(map[r.id := InfoOf(r')]) && Repeats(h) && AcceptedLate(h)
  {
    var h0: seq<Step> := [];
    var h1 := h0 + [Accept(r)];
    var h2 := h1 + [Complete(c)];
    var h := h2 + [Accept(r')];
    Extended(h0, Accept(r));
    Extended(h1, Complete(c));
    Extended(h2, Accept(r'));
    assert h == [Accept(r), Complete(c), Accept(r')];
    assert Replay(h0) == Some(map[]);
    assert Replay(h1) == Some(map[r.id := InfoOf(r)]);
    assert map[r.id := InfoOf(r)] - {c.id} == map[];
    assert Accepts(h, r.id) >= 2;
  }
}
