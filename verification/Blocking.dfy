/** src/engine/psync_engine.cpp and src/engine/sync_engine.cpp: the request runs
    inside SubmitIO and its completion waits in a single slot. */
module Blocking {
  import opened Types
  import opened Kernel
  import opened EngineSpec

  function CompletionOf(r: Request, result: int, errno: int): Completion
    requires result == -1 || 0 <= result
  {
    Completion(r.id, if result >= 0 then result else 0, r.direction,
               result != -1 && result == r.length,
               if result == -1 then errno else if result != r.length then EIO else 0,
               r.submitTime)
  }

  /** What src/common/types.h:48-54 promises of a call that returned `result`, with `errno`
      behind a failure: nothing moved and the errno, a short transfer and EIO, or all of it. */
  ghost predicate Tells(c: Completion, r: Request, result: int, errno: int) {
    && c.id == r.id && c.direction == r.direction && c.submitTime == r.submitTime
    && (result == -1 ==> !c.success && c.bytes == 0 && c.errorCode == errno)
    && (0 <= result != r.length ==> !c.success && c.bytes == result && c.errorCode == EIO)
    && (result == r.length ==> c.success && c.bytes == r.length && c.errorCode == 0)
  }

  lemma CompletionAnswers(r: Request, result: int, errno: int)
    requires result == -1 || 0 <= result <= r.length
    requires 1 <= errno <= MAX_ERRNO
    ensures var c := CompletionOf(r, result, errno);
      && Tells(c, r, result, errno)
      && Answers(c, InfoOf(r))
      && Reports(c, InfoOf(r), if result == -1 then errno else 0, if result == -1 then 0 else result)
  {
  }

  class PsyncEngine {
    const os: System
    var isOpen: bool
    var hasCompletion: bool
    var lastCompletion: Completion
    ghost var pending: Outstanding  // the request whose completion is waiting

    ghost predicate Valid()
      reads this
    {
      OneSlot(hasCompletion, lastCompletion, pending)
    }

    constructor (os: System)
      ensures Valid() && !isOpen && pending == map[] && this.os == os
    {
      this.os := os;
      isOpen, hasCompletion, pending := false, false, map[];
      lastCompletion := Completion(0, 0, Read, false, 0, 0);
    }

    method Open(file: Outcome) returns (r: Outcome)
      requires Valid() && !file.Hangs?
      modifies this
      ensures Valid() && pending == old(pending)
      ensures r == if old(isOpen) then Threw(AlreadyOpen) else file
      ensures isOpen <==> old(isOpen) || file.Ok?
    {
      if isOpen {
        return Threw(AlreadyOpen);
      }
      r := file;
      isOpen := file.Ok?;
    }

    /** The completion reports what the one system call of an accepted request returned. */
    method SubmitIO(request: Request) returns (r: Outcome)
      requires Valid()
      modifies this, os
      ensures Valid() && isOpen == old(isOpen)
      ensures r.Ok? ==> old(pending) == map[] && pending == map[request.id := InfoOf(request)]
      ensures r.Ok? ==> |os.journal| == |old(os.journal)| + 1 && old(os.journal) <= os.journal
      ensures r.Ok? ==> var call := os.journal[|old(os.journal)|];
        call.Positioned? && call.request == request && Tells(lastCompletion, request, call.result, call.errno)
      ensures r.Threw? ==> pending == old(pending) && os.journal == old(os.journal)
      ensures r == Threw(NotOpen) <==> !old(isOpen)
      ensures r == Threw(NotPolled) <==> old(isOpen) && old(pending) != map[]
      ensures r in {Ok, Threw(NotOpen), Threw(NotPolled)}
    {
      if !isOpen {
        return Threw(NotOpen);
      }
      if hasCompletion {
        return Threw(NotPolled);
      }
      var result, errno := os.TransferAt(request);
      CompletionAnswers(request, result, errno);
      lastCompletion := CompletionOf(request, result, errno);
      hasCompletion, pending := true, map[request.id := InfoOf(request)];
      r := Ok;
    }

    method PollCompletions(maxEvents: int, out: seq<Completion>) returns (out': seq<Completion>)
      requires Valid()
      modifies this
      ensures Valid() && isOpen == old(isOpen)
      ensures out' == out + if old(pending) != map[] && maxEvents >= 1 then [old(lastCompletion)] else []
      ensures Delivers(old(pending), out'[|out|..], pending)
      ensures AllCodesMatch(out'[|out|..])
    {
      if !hasCompletion || maxEvents < 1 {
        return out;
      }
      out' := out + [lastCompletion];
      assert out'[|out|..] == [lastCompletion] && [lastCompletion][1..] == [];
      hasCompletion, pending := false, map[];
    }

    method Close()
      requires Valid()
      modifies this
      ensures Valid() && !isOpen && pending == map[]
    {
      isOpen, hasCompletion, pending := false, false, map[];
    }
  }

  ghost predicate OneSlot(hasCompletion: bool, c: Completion, pending: Outstanding) {
    if hasCompletion then
      pending.Keys == {c.id} && Answers(c, pending[c.id]) && CodeMatches(c)
    else
      pending == map[]
  }

  /** A seek to the request's offset, then, unless it failed, the transfer; the completion
      reports the last of the two. */
  ghost predicate SeekAndTransfer(before: seq<Call>, after: seq<Call>, request: Request, c: Completion) {
    var n := |before|;
    && before <= after && n < |after| <= n + 2
    && after[n].Sought? && after[n].offset == request.offset
    && (after[n].result == -1 ==> |after| == n + 1 && Tells(c, request, -1, after[n].errno))
    && (after[n].result != -1 ==>
          && |after| == n + 2 && after[n + 1].Streamed? && after[n + 1].request == request
          && Tells(c, request, after[n + 1].result, after[n + 1].errno))
  }

  class SyncEngine {
    const os: System
    var isOpen: bool
    var hasCompletion: bool
    var lastCompletion: Completion
    ghost var pending: Outstanding

    ghost predicate Valid()
      reads this
    {
      OneSlot(hasCompletion, lastCompletion, pending)
    }

    constructor (os: System)
      ensures Valid() && !isOpen && pending == map[] && this.os == os
    {
      this.os := os;
      isOpen, hasCompletion, pending := false, false, map[];
      lastCompletion := Completion(0, 0, Read, false, 0, 0);
    }

    method Open(file: Outcome) returns (r: Outcome)
      requires Valid() && !file.Hangs?
      modifies this
      ensures Valid() && pending == old(pending)
      ensures r == if old(isOpen) then Threw(AlreadyOpen) else file
      ensures isOpen <==> old(isOpen) || file.Ok?
    {
      if isOpen {
        return Threw(AlreadyOpen);
      }
      r := file;
      isOpen := file.Ok?;
    }

    /** A failed seek is a completion like any other, not an exception. */
    method SubmitIO(request: Request) returns (r: Outcome)
      requires Valid() && request.offset >= 0
      modifies this, os
      ensures Valid() && isOpen == old(isOpen)
      ensures r.Ok? ==> old(pending) == map[] && pending == map[request.id := InfoOf(request)]
      ensures r.Ok? ==> SeekAndTransfer(old(os.journal), os.journal, request, lastCompletion)
      ensures r.Threw? ==> pending == old(pending) && os.journal == old(os.journal)
      ensures r == Threw(NotOpen) <==> !old(isOpen)
      ensures r == Threw(NotPolled) <==> old(isOpen) && old(pending) != map[]
      ensures r in {Ok, Threw(NotOpen), Threw(NotPolled)}
    {
      if !isOpen {
        return Threw(NotOpen);
      }
      if hasCompletion {
        return Threw(NotPolled);
      }
      var seek, seekErrno := os.Seek(request.offset);
      if seek == -1 {
        CompletionAnswers(request, -1, seekErrno);
        lastCompletion := CompletionOf(request, -1, seekErrno);
        hasCompletion, pending := true, map[request.id := InfoOf(request)];
        return Ok;
      }
      var result, errno := os.Transfer(request);
      CompletionAnswers(request, result, errno);
      lastCompletion := CompletionOf(request, result, errno);
      hasCompletion, pending := true, map[request.id := InfoOf(request)];
      r := Ok;
    }

    method PollCompletions(maxEvents: int, out: seq<Completion>) returns (out': seq<Completion>)
      requires Valid()
      modifies this
      ensures Valid() && isOpen == old(isOpen)
      ensures out' == out + if old(pending) != map[] && maxEvents >= 1 then [old(lastCompletion)] else []
      ensures Delivers(old(pending), out'[|out|..], pending)
      ensures AllCodesMatch(out'[|out|..])
    {
      if !hasCompletion || maxEvents < 1 {
        return out;
      }
      out' := out + [lastCompletion];
      assert out'[|out|..] == [lastCompletion] && [lastCompletion][1..] == [];
      hasCompletion, pending := false, map[];
    }

    method Close()
      requires Valid()
      modifies this
      ensures Valid() && !isOpen && pending == map[]
    {
      isOpen, hasCompletion, pending := false, false, map[];
    }
  }
}
