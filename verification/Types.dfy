/** Values shared by the engines, the worker and the telemetry. */
module Types {

  const EIO := 5
  const MAX_ERRNO := 4095
  const U32_MAX := 0xFFFF_FFFF
  const U64_MAX := 0xFFFF_FFFF_FFFF_FFFF
  /** off_t and the nanosecond counts of the steady clock are signed 64-bit. */
  const I64_MAX := 0x7FFF_FFFF_FFFF_FFFF

  datatype Option<+T> = None | Some(value: T)

  datatype Result<+T, +E> = Success(value: T) | Failure(error: E)

  datatype Direction = Read | Write

  datatype Request = Request(
    offset: int, buffer: int, length: nat, direction: Direction, submitTime: int, id: nat)

  datatype Completion = Completion(
    id: nat, bytes: nat, direction: Direction, success: bool, errorCode: int, submitTime: int)

  /** Why an engine call threw. Every constructor but System and LengthTooLarge
      stands for a contract violation by the caller. */
  datatype Error =
    | AlreadyOpen
    | BadDepth
    | NotOpen
    | DuplicateId
    | QueueFull          // iocb pool empty, or submission ring full
    | NotPolled          // previous completion of a blocking engine not yet polled
    | LengthTooLarge     // io_uring lengths are unsigned int
    | System(errno: int) // reported by the operating system

  /** Hangs stands for a call that never returns. */
  datatype Outcome = Ok | Threw(error: Error) | Hangs

  /** The caller respected the engine contract: what was thrown, if anything,
      came from the system or from the request length. */
  predicate CallerKept(r: Outcome) {
    r.Threw? ==> r.error.System? || r.error.LengthTooLarge?
  }

  /** What Open of an asynchronous engine reports, for the answers of opening the file and of
      setting up the queue: the first thing that is wrong. */
  function OpenOutcome(isOpen: bool, depth: int, file: Outcome, setup: int): Outcome {
    if isOpen then Threw(AlreadyOpen)
    else if depth < 1 then Threw(BadDepth)
    else if !file.Ok? then file
    else if setup < 0 then Threw(System(-setup))
    else Ok
  }
}
