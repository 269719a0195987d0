/** src/engine/i_engine_io.h: what all four engines promise, as a state machine
    over the outstanding requests. */
module EngineSpec {
  import opened Types
  import opened Sequences

  /** src/engine/submit_info.h */
  datatype SubmitInfo = SubmitInfo(submitTime: int, direction: Direction, length: nat)

  type Outstanding = map<nat, SubmitInfo>

  function InfoOf(r: Request): SubmitInfo {
    SubmitInfo(r.submitTime, r.direction, r.length)
  }

  /** The completion belongs to the request: direction and submit time are carried
      over, and success means that every byte was transferred. */
  ghost predicate Answers(c: Completion, info: SubmitInfo) {
    && c.direction == info.direction
    && c.submitTime == info.submitTime
    && c.bytes <= info.length
    && (c.success ==> c.bytes == info.length && c.errorCode == 0)
  }

  /** src/common/types.h:48-52, for a request during which the system reported `error`
      (zero for none) or moved `bytes` bytes: the errno on failure, EIO on a short
      transfer, zero on success. */
  ghost predicate Reports(c: Completion, info: SubmitInfo, error: int, bytes: nat) {
    && c.bytes == (if error != 0 then 0 else bytes)
    && c.errorCode == (if error != 0 then error else if bytes != info.length then EIO else 0)
    && CodeMatches(c)
  }

  /** "errno on failure, zero on success". */
  ghost predicate CodeMatches(c: Completion) {
    c.success <==> c.errorCode == 0
  }

  ghost predicate AllCodesMatch(batch: seq<Completion>) {
    forall i :: 0 <= i < |batch| ==> CodeMatches(batch[i])
  }

  ghost predicate DistinctIds(batch: seq<Completion>) {
    forall i, j :: 0 <= i < j < |batch| ==> batch[i].id != batch[j].id
  }

  /** A poll takes the state from `before` to `after` by completing, one after the
      other, the requests in `batch`. */
  ghost predicate Delivers(before: Outstanding, batch: seq<Completion>, after: Outstanding)
    decreases |batch|
  {
    if batch == [] then before == after else
      var c := batch[0];
      c.id in before && Answers(c, before[c.id]) && Delivers(before - {c.id}, batch[1..], after)
  }

  lemma {:induction false} DeliversOneMore(before: Outstanding, batch: seq<Completion>, mid: Outstanding, c: Completion)
    requires Delivers(before, batch, mid)
    requires c.id in mid && Answers(c, mid[c.id])
    ensures Delivers(before, batch + [c], mid - {c.id})
    decreases |batch|
  {
    if batch == [] {
      assert ([c])[1..] == [];
    } else {
      DeliversOneMore(before - {batch[0].id}, batch[1..], mid, c);
      assert (batch + [c])[1..] == batch[1..] + [c];
    }
  }

  lemma {:induction false} DeliversSize(before: Outstanding, batch: seq<Completion>, after: Outstanding)
    requires Delivers(before, batch, after)
    ensures |after| + |batch| == |before|
    decreases |batch|
  {
    if batch != [] {
      var c := batch[0];
      var mid := before - {c.id};
      DeliversSize(mid, batch[1..], after);
      assert before.Keys == mid.Keys + {c.id};
    }
  }

  /** A batch removes the requests it completes and leaves the others as they were. */
  lemma {:induction false} DeliversLeaves(before: Outstanding, batch: seq<Completion>, after: Outstanding)
    requires Delivers(before, batch, after)
    ensures forall i :: 0 <= i < |batch| ==> batch[i].id !in after
    ensures forall id :: id in after ==> id in before && after[id] == before[id]
    ensures forall id :: id in before && id !in after ==> exists i :: 0 <= i < |batch| && batch[i].id == id
    decreases |batch|
  {
    if batch != [] {
      var c := batch[0];
      var mid := before - {c.id};
      DeliversLeaves(mid, batch[1..], after);
      forall i | 0 <= i < |batch| ensures batch[i].id !in after {
        if i > 0 {
          assert batch[i] == batch[1..][i - 1];
        }
      }
      forall id | id in before && id !in after ensures exists i :: 0 <= i < |batch| && batch[i].id == id {
        if id != c.id {
          var i :| 0 <= i < |batch[1..]| && batch[1..][i].id == id;
          assert batch[i + 1].id == id;
        }
      }
    }
  }

  /** Every completion of a batch answers a different request that was outstanding. */
  lemma {:induction false} DeliversAnswers(before: Outstanding, batch: seq<Completion>, after: Outstanding)
    requires Delivers(before, batch, after)
    ensures forall i :: 0 <= i < |batch| ==> batch[i].id in before && Answers(batch[i], before[batch[i].id])
    ensures DistinctIds(batch)
    decreases |batch|
  {
    if batch != [] {
      var c := batch[0];
      DeliversAnswers(before - {c.id}, batch[1..], after);
      forall j | 0 < j < |batch|
        ensures batch[j].id != c.id && batch[j].id in before && Answers(batch[j], before[batch[j].id])
      {
        assert batch[j] == batch[1..][j - 1];
      }
    }
  }

  // ---------------------------------------------------------------------------
  // Whole histories

  /** What a client of an engine can observe. */
  datatype Step = Accept(request: Request) | Complete(completion: Completion)

  /** The state after a history, or None when the history is not one the
      specification allows. */
  ghost function Replay(history: seq<Step>): Option<Outstanding> {
    if history == [] then Some(map[]) else
      var last := history[|history| - 1];
      match Replay(history[..|history| - 1])
      case None => None
      case Some(o) =>
        if last.Accept? then
          if last.request.id in o then None else Some(o[last.request.id := InfoOf(last.request)])
        else
          if last.completion.id in o && Answers(last.completion, o[last.completion.id])
          then Some(o - {last.completion.id}) else None
  }

  /** How many requests were accepted. */
  ghost function AcceptCount(history: seq<Step>): nat {
    if history == [] then 0 else
      AcceptCount(history[..|history| - 1]) + if history[|history| - 1].Accept? then 1 else 0
  }

  /** How often an id was accepted, and how often it was completed. */
  ghost function Accepts(history: seq<Step>, id: nat): nat {
    if history == [] then 0 else
      var s := history[|history| - 1];
      Accepts(history[..|history| - 1], id) + if s.Accept? && s.request.id == id then 1 else 0
  }

  ghost function Completes(history: seq<Step>, id: nat): nat {
    if history == [] then 0 else
      var s := history[|history| - 1];
      Completes(history[..|history| - 1], id) + if s.Complete? && s.completion.id == id then 1 else 0
  }

  /** Exactly once: in every allowed history, and for every id, the completions
      match the acceptances one for one except for the request still outstanding. */
  lemma {:induction false} ExactlyOnce(history: seq<Step>, id: nat)
    requires Replay(history).Some?
    ensures Accepts(history, id) == Completes(history, id) + (if id in Replay(history).value then 1 else 0)
  {
    if history != [] {
      ExactlyOnce(history[..|history| - 1], id);
    }
  }

  function Completed(batch: seq<Completion>): seq<Step> {
    if batch == [] then [] else [Complete(batch[0])] + Completed(batch[1..])
  }

  /** A poll of the specification is the history extended by its completions. */
  lemma {:induction false} DeliversExtends(history: seq<Step>, batch: seq<Completion>, after: Outstanding)
    requires Replay(history).Some? && Delivers(Replay(history).value, batch, after)
    ensures Replay(history + Completed(batch)) == Some(after)
    decreases |batch|
  {
    if batch == [] {
      assert history + Completed(batch) == history;
    } else {
      var next := history + [Complete(batch[0])];
      assert next[..|next| - 1] == history;
      DeliversExtends(next, batch[1..], after);
      assert history + Completed(batch) == next + Completed(batch[1..]);
    }
  }
}
