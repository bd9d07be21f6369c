/**
 * The public vocabulary of the thread pool: its limits and defaults, the
 * status codes every pool operation returns with their message table, and
 * the records a worker sees (a task and a worker's context).
 */
module PoolTypes {
  import opened CTypes

  const POOL_MAX_THREADS: int := 16384
  const POOL_MAX_QUEUES: int := 131072
  const POOL_DEFAULT_THREADS: int := 16
  const POOL_DEFAULT_QUEUES: int := 256
  const POOL_TASK_ARG_SIZE_MAX: int := 16384
  /** Highest 0-based CPU id a caller is expected to use. */
  const POOL_CPU_ID_MAX: int := 255

  /**
   * Bytes of a task record before its inline argument area on LP64: the
   * function pointer, the 64-bit flags, the argument pointer and `arg_size`.
   */
  const TASK_HEADER_SIZE: int := 32

  /** `threadpool_error_t`. */
  datatype PoolError =
    | Success
    | Invalid
    | LockFailure
    | QueueFull
    | Shutdown
    | RunFailure
    | OutMemory
    | TaskArgOverflow

  /** The integer each status is returned as. */
  function Code(e: PoolError): (c: int)
    ensures -7 <= c <= 0
    ensures c == 0 <==> e == Success
  {
    match e
    case Success => 0
    case Invalid => -1
    case LockFailure => -2
    case QueueFull => -3
    case Shutdown => -4
    case RunFailure => -5
    case OutMemory => -6
    case TaskArgOverflow => -7
  }

  /** Reads a returned integer back as a status, if it is one. */
  function FromCode(c: int): (r: Option<PoolError>)
    ensures r.Some? <==> -7 <= c <= 0
    ensures r.Some? ==> Code(r.value) == c
  {
    if c == 0 then Some(Success)
    else if c == -1 then Some(Invalid)
    else if c == -2 then Some(LockFailure)
    else if c == -3 then Some(QueueFull)
    else if c == -4 then Some(Shutdown)
    else if c == -5 then Some(RunFailure)
    else if c == -6 then Some(OutMemory)
    else if c == -7 then Some(TaskArgOverflow)
    else None
  }

  /** Distinct statuses are returned as distinct integers. */
  lemma CodeInjective(e1: PoolError, e2: PoolError)
    ensures Code(e1) == Code(e2) ==> e1 == e2
  {
    assert FromCode(Code(e1)) == Some(e1);
  }

  /** The enumerator's identifier, as spelled in the header. */
  function Name(e: PoolError): string {
    match e
    case Success => "threadpool_success"
    case Invalid => "threadpool_invalid"
    case LockFailure => "threadpool_lock_failure"
    case QueueFull => "threadpool_queue_full"
    case Shutdown => "threadpool_shutdown"
    case RunFailure => "threadpool_run_failure"
    case OutMemory => "threadpool_out_memory"
    case TaskArgOverflow => "threadpool_task_arg_overflow"
  }

  /** `threadpool_error_messages`: eight strings and a terminating NULL entry. */
  const ErrorMessages: seq<Option<string>> := [
    Some("threadpool_success"),
    Some("threadpool_invalid"),
    Some("threadpool_lock_failure"),
    Some("threadpool_queue_full"),
    Some("threadpool_shutdown"),
    Some("threadpool_run_failure"),
    Some("threadpool_out_memory"),
    Some("threadpool_task_arg_overflow"),
    None
  ]

  /**
   * A caller prints a status `err` as `threadpool_error_messages[-err]`: the
   * table is indexed by the negated code and names the status itself.
   */
  function MessageOf(err: int): (m: Option<string>)
    requires -7 <= err <= 0
    ensures FromCode(err).Some? && m == Some(Name(FromCode(err).value))
    ensures m.Some? && |m.value| > 0
  {
    ErrorMessages[-err]
  }

  /** The defaults are within the limits. */
  lemma DefaultsWithinLimits()
    ensures 0 < POOL_DEFAULT_THREADS <= POOL_MAX_THREADS
    ensures 0 < POOL_DEFAULT_QUEUES <= POOL_MAX_QUEUES
  {
  }

  /** Identity of a task function (`void (*)(thread_context_t *)`). */
  datatype Routine = Routine(id: nat)

  /**
   * `threadpool_task_t` as stored in one queue slot. `argument` is the
   * caller's pointer (0 is NULL) and `taskArg` the slot's inline argument
   * area of `task_arg_size` bytes; `routine` (the task function) is None only for a slot that
   * was never written.
   */
  datatype Task = Task(
    routine: Option<Routine>,
    flags: ub8,
    argument: nat,
    argSize: nat,
    taskArg: seq<byte>)

  /**
   * `thread_context_t`: the 1-based worker id, the per-worker argument given
   * at creation (0 is NULL) and the worker's private copy of the task it runs
   * now (None before its first task). `cpus` is the CPU set the worker's
   * thread attributes were given at creation, None when no affinity was set.
   */
  datatype ThreadContext = ThreadContext(
    id: int,
    threadArg: nat,
    task: Option<Task>,
    cpus: Option<set<int>>)
}
