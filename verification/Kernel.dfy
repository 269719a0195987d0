/** The abstract operating system below the asynchronous engines.

    It holds the requests it accepted, answers each of them exactly once, in any
    order, and answers with a negative errno or with at most the requested number
    of bytes. The methods draw their answers with nondeterministic choices, so
    what a caller proves holds for every answer the contracts allow. Retries of
    interrupted calls are folded into the call. */
module Kernel {
  import opened Types
  import opened Sequences

  /** A request the kernel holds. libaio names it by the control block `iocb`;
      io_uring has no control blocks and leaves the field zero. */
  datatype Accepted = Accepted(request: Request, iocb: nat)

  /** One answer. `at` is the position, among the requests still held, of the one
      it answers; engines see only the other four fields. */
  datatype Event = Event(at: nat, data: nat, obj: nat, res: int, res2: int)

  ghost predicate LegalResult(res: int, length: nat) {
    -MAX_ERRNO <= res < 0 || 0 <= res <= length
  }

  ghost predicate LegalEvent(held: seq<Accepted>, e: Event) {
    && e.at < |held|
    && e.data == held[e.at].request.id
    && e.obj == held[e.at].iocb
    && LegalResult(e.res, held[e.at].request.length)
  }

  /** Each event answers a request that the earlier ones left unanswered. */
  ghost predicate LegalEvents(held: seq<Accepted>, events: seq<Event>)
    decreases |events|
  {
    events == [] ||
    (LegalEvent(held, events[0]) && LegalEvents(RemoveAt(held, events[0].at), events[1..]))
  }

  /** What is still held once the events are delivered. */
  ghost function After(held: seq<Accepted>, events: seq<Event>): (r: seq<Accepted>)
    requires LegalEvents(held, events)
    ensures |r| + |events| == |held|
    decreases |events|
  {
    if events == [] then held else After(RemoveAt(held, events[0].at), events[1..])
  }

  lemma {:induction false} EventsAppend(held: seq<Accepted>, events: seq<Event>, e: Event)
    requires LegalEvents(held, events) && LegalEvent(After(held, events), e)
    ensures LegalEvents(held, events + [e])
    ensures After(held, events + [e]) == RemoveAt(After(held, events), e.at)
    decreases |events|
  {
    if events == [] {
      assert ([e])[1..] == [];
    } else {
      EventsAppend(RemoveAt(held, events[0].at), events[1..], e);
      assert (events + [e])[1..] == events[1..] + [e];
    }
  }

  /** A call into the system or a random generator, with what was asked and what came back. */
  datatype Call =
    | Clock(time: int)                                         // steady_clock::now
    | Drew(max: nat, value: nat)                               // a uniform draw from 0 .. max
    | Tossed(percent: int, heads: bool)                        // a draw that is true percent times in 100
    | Positioned(request: Request, result: int, errno: int)    // pread, pwrite
    | Sought(offset: int, result: int, errno: int)             // lseek
    | Streamed(request: Request, result: int, errno: int)      // read, write at the file position
    | AioSubmit(request: Request, ret: int)                    // io_submit of one control block
    | AioEvents(least: nat, most: nat, ret: int, events: seq<Event>)
    | RingSubmit(entries: seq<Accepted>, ret: int)             // io_uring_submit
    | RingWait(least: nat, ret: int)                           // io_uring_wait_cqe_nr
    | RingPeek(most: nat, events: seq<Event>)                  // io_uring_peek_batch_cqe

  /** The system as one thread calls it. The journal holds every call and its answer, so
      a contract can say what a method made of the answers it got. */
  class System {
    ghost var journal: seq<Call>

    constructor ()
      ensures journal == []
    {
      journal := [];
    }

    /** The steady clock, in nanoseconds. */
    method Now() returns (t: int)
      modifies this
      ensures 0 <= t <= I64_MAX && journal == old(journal) + [Clock(t)]
    {
      t := *;
      if t < 0 || t > I64_MAX {
        t := 0;
      }
      journal := journal + [Clock(t)];
    }

    method Draw(max: nat) returns (value: nat)
      modifies this
      ensures value <= max && journal == old(journal) + [Drew(max, value)]
    {
      var any: int := *;
      value := if 0 <= any <= max then any else 0;
      journal := journal + [Drew(max, value)];
    }

    method Toss(percent: int) returns (heads: bool)
      modifies this
      ensures journal == old(journal) + [Tossed(percent, heads)]
    {
      heads := *;
      journal := journal + [Tossed(percent, heads)];
    }

    /** pread and pwrite: -1 and an errno, or a byte count. */
    method TransferAt(request: Request) returns (result: int, errno: int)
      modifies this
      ensures result == -1 || 0 <= result <= request.length
      ensures 1 <= errno <= MAX_ERRNO
      ensures journal == old(journal) + [Positioned(request, result, errno)]
    {
      result, errno := AnyTransfer(request.length);
      journal := journal + [Positioned(request, result, errno)];
    }

    /** read and write at the file position. */
    method Transfer(request: Request) returns (result: int, errno: int)
      modifies this
      ensures result == -1 || 0 <= result <= request.length
      ensures 1 <= errno <= MAX_ERRNO
      ensures journal == old(journal) + [Streamed(request, result, errno)]
    {
      result, errno := AnyTransfer(request.length);
      journal := journal + [Streamed(request, result, errno)];
    }

    /** lseek: -1 and an errno, or the offset. */
    method Seek(offset: int) returns (result: int, errno: int)
      modifies this
      ensures result == -1 || result == offset
      ensures 1 <= errno <= MAX_ERRNO
      ensures journal == old(journal) + [Sought(offset, result, errno)]
    {
      var err := AnyErrno();
      errno := -err;
      var fail: bool := *;
      result := if fail then -1 else offset;
      journal := journal + [Sought(offset, result, errno)];
    }

    /** io_submit of one control block returns 1, 0 or a negative errno; the block is
        accepted only when it returns 1. */
    method IoSubmit(held: seq<Accepted>, a: Accepted) returns (ret: int, held': seq<Accepted>)
      requires forall h :: h in held ==> h.iocb != a.iocb
      modifies this
      ensures -MAX_ERRNO <= ret <= 1
      ensures held' == if ret == 1 then held + [a] else held
      ensures journal == old(journal) + [AioSubmit(a.request, ret)]
    {
      ret := *;
      if ret > 1 || ret < -MAX_ERRNO {
        ret := 1;
      }
      held' := if ret == 1 then held + [a] else held;
      journal := journal + [AioSubmit(a.request, ret)];
    }

    /** io_getevents: a negative errno, or at least `least` events. */
    method GetEvents(held: seq<Accepted>, least: nat, most: nat)
      returns (ret: int, events: seq<Event>, rest: seq<Accepted>)
      requires least <= |held|
      modifies this
      ensures LegalEvents(held, events) && rest == After(held, events)
      ensures least > most ==> ret < 0
      ensures ret < 0 ==> events == [] && -MAX_ERRNO <= ret
      ensures ret >= 0 ==> ret == |events| && least <= |events| <= most
      ensures journal == old(journal) + [AioEvents(least, most, ret, events)]
    {
      var fail: bool := *;
      if fail || least > most {
        events, rest := [], held;
        ret := AnyErrno();
      } else {
        events, rest := Deliver(held, least, most);
        ret := |events|;
      }
      journal := journal + [AioEvents(least, most, ret, events)];
    }

    /** io_uring_submit returns a negative errno and consumes nothing, or returns how
        many prepared entries it consumed, oldest first; the others stay in the ring. */
    method UringSubmit(held: seq<Accepted>, sq: seq<Accepted>)
      returns (ret: int, held': seq<Accepted>, sq': seq<Accepted>)
      modifies this
      ensures -MAX_ERRNO <= ret <= |sq|
      ensures ret < 0 ==> held' == held && sq' == sq
      ensures ret >= 0 ==> held' == held + sq[..ret] && sq' == sq[ret..]
      ensures journal == old(journal) + [RingSubmit(sq, ret)]
    {
      ret := *;
      if ret > |sq| || ret < -MAX_ERRNO {
        ret := |sq|;
      }
      held', sq' := held, sq;
      if ret >= 0 {
        held', sq' := held + sq[..ret], sq[ret..];
      }
      journal := journal + [RingSubmit(sq, ret)];
    }

    /** io_uring_wait_cqe_nr, when it returns: zero or a negative errno. */
    method UringWait(least: nat) returns (ret: int)
      modifies this
      ensures -MAX_ERRNO <= ret <= 0
      ensures journal == old(journal) + [RingWait(least, ret)]
    {
      var fail: bool := *;
      ret := 0;
      if fail {
        ret := AnyErrno();
      }
      journal := journal + [RingWait(least, ret)];
    }

    /** io_uring_peek_batch_cqe after a wait for `least` entries. */
    method UringPeek(held: seq<Accepted>, least: nat, most: nat) returns (events: seq<Event>, rest: seq<Accepted>)
      requires least <= most && least <= |held|
      modifies this
      ensures LegalEvents(held, events) && rest == After(held, events)
      ensures least <= |events| <= most
      ensures journal == old(journal) + [RingPeek(most, events)]
    {
      events, rest := Deliver(held, least, most);
      journal := journal + [RingPeek(most, events)];
    }
  }

  method AnyTransfer(length: nat) returns (result: int, errno: int)
    ensures result == -1 || 0 <= result <= length
    ensures 1 <= errno <= MAX_ERRNO
  {
    var err := AnyErrno();
    errno := -err;
    result := *;
    if result > length || result < -1 {
      result := -1;
    }
  }

  /** A negative errno. */
  method AnyErrno() returns (err: int)
    ensures -MAX_ERRNO <= err < 0
  {
    err := *;
    if err >= 0 || err < -MAX_ERRNO {
      err := -EIO;
    }
  }

  method AnyResult(length: nat) returns (res: int)
    ensures LegalResult(res, length)
  {
    res := *;
    if res > length || res < -MAX_ERRNO {
      res := length;
    }
  }

  /** Delivers some number of answers between `least` and `most`. */
  method Deliver(held: seq<Accepted>, least: nat, most: nat) returns (events: seq<Event>, rest: seq<Accepted>)
    requires least <= most && least <= |held|
    ensures LegalEvents(held, events) && rest == After(held, events)
    ensures least <= |events| <= most
  {
    events, rest := [], held;
    var more: bool := *;
    while |events| < most && rest != [] && (|events| < least || more)
      invariant LegalEvents(held, events) && rest == After(held, events)
      invariant |events| <= most
      decreases |rest|
    {
      var at: int := *;
      if at < 0 || at >= |rest| {
        at := 0;
      }
      var res := AnyResult(rest[at].request.length);
      var res2: int := *;
      var e := Event(at, rest[at].request.id, rest[at].iocb, res, res2);
      EventsAppend(held, events, e);
      events, rest := events + [e], RemoveAt(rest, at);
      more := *;
    }
  }
}
