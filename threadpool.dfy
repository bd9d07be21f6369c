/**
 * The thread pool object: a fixed array of task slots used as a ring, the
 * worker contexts, and the counters and flags the critical sections update.
 * Each method is one critical section (the mutex is held throughout, so it
 * runs atomically) and is proved to have the effect of the matching
 * function of `TaskQueue` on the pool's state.
 */
module ThreadPool {
  import opened CTypes
  import opened PoolTypes
  import opened TaskQueue
  import Affinity

  /** The validated sizes `threadpool_create` builds a pool with. */
  datatype Config = Config(threads: int, queues: int, argCap: int)

  /**
   * The argument checks of `threadpool_create`: a thread count or queue size
   * that is negative or above its maximum, or an inline argument size of
   * `(size_t)-1` or above its maximum, is refused; a zero count or size
   * selects the default.
   */
  function CreateConfig(threadCount: int, queueSize: int, taskArgSize: ub8): (c: Option<Config>)
    ensures c.Some? <==>
      0 <= threadCount <= POOL_MAX_THREADS && 0 <= queueSize <= POOL_MAX_QUEUES && taskArgSize <= POOL_TASK_ARG_SIZE_MAX
    ensures c.Some? ==>
      && 1 <= c.value.threads <= POOL_MAX_THREADS && 1 <= c.value.queues <= POOL_MAX_QUEUES
      && c.value.threads == (if threadCount == 0 then POOL_DEFAULT_THREADS else threadCount)
      && c.value.queues == (if queueSize == 0 then POOL_DEFAULT_QUEUES else queueSize)
      && c.value.argCap == taskArgSize
  {
    if threadCount < 0 || threadCount > POOL_MAX_THREADS then None
    else
      var threads := if threadCount == 0 then POOL_DEFAULT_THREADS else threadCount;
      if queueSize < 0 || queueSize > POOL_MAX_QUEUES then None
      else
        var queues := if queueSize == 0 then POOL_DEFAULT_QUEUES else queueSize;
        if taskArgSize == UB8_LIMIT - 1 || taskArgSize > POOL_TASK_ARG_SIZE_MAX then None
        else Some(Config(threads, queues, taskArgSize))
  }

  /** The contents of a slot nothing has been written to yet. */
  function BlankTask(argCap: nat): Task {
    Task(None, 0, 0, 0, seq(argCap, _ => 0))
  }

  class Pool {
    const threadCount: int
    const queueSize: int
    const taskArgSize: int
    /** Bytes of one slot: the task record and its inline argument area. */
    const taskSize: int
    const slots: array<Task>
    const contexts: array<ThreadContext>
    var head: int
    var tail: int
    var count: int
    var shutdown: bool
    /** Workers started and not yet exited. */
    var started: int

    ghost function State(): QueueState
      reads this, slots
    {
      QueueState(slots[..], head, tail, count, shutdown, taskArgSize)
    }

    ghost predicate Valid()
      reads this, slots, contexts
    {
      && Inv(State())
      && slots.Length == queueSize && contexts.Length == threadCount
      && 1 <= threadCount <= POOL_MAX_THREADS
      && 1 <= queueSize <= POOL_MAX_QUEUES
      && 0 <= taskArgSize <= POOL_TASK_ARG_SIZE_MAX
      && taskSize == TASK_HEADER_SIZE + taskArgSize
      && 0 <= started <= threadCount
      && forall i :: 0 <= i < threadCount ==> contexts[i].id == i + 1
    }

    /** The allocation and field setup of `threadpool_create`, before any worker starts. */
    constructor Init(cfg: Config)
      requires 1 <= cfg.threads <= POOL_MAX_THREADS && 1 <= cfg.queues <= POOL_MAX_QUEUES
      requires 0 <= cfg.argCap <= POOL_TASK_ARG_SIZE_MAX
      ensures threadCount == cfg.threads && queueSize == cfg.queues && taskArgSize == cfg.argCap
      ensures taskSize == TASK_HEADER_SIZE + cfg.argCap
      ensures fresh(slots) && fresh(contexts)
      ensures Inv(State()) && Pending(State()) == [] && !shutdown && started == 0
      ensures slots.Length == queueSize && contexts.Length == threadCount
    {
      threadCount := cfg.threads;
      queueSize := cfg.queues;
      taskArgSize := cfg.argCap;
      taskSize := TASK_HEADER_SIZE + cfg.argCap;
      slots := new Task[cfg.queues](_ => BlankTask(cfg.argCap));
      contexts := new ThreadContext[cfg.threads](_ => ThreadContext(0, 0, None, None));
      head, tail, count := 0, 0, 0;
      shutdown := false;
      started := 0;
    }

    /**
     * `threadpool_create`. `onlnCpus` stands for the number of online CPUs
     * the affinity computation asks the system for.
     */
    static method Create(threadCount: int, queueSize: int, stackSize: int, affinityCpus: int,
                         threadArgs: Option<seq<nat>>, taskArgSize: ub8, onlnCpus: nat)
      returns (pool: Pool?)
      requires CreateConfig(threadCount, queueSize, taskArgSize).Some? && threadArgs.Some? ==>
        |threadArgs.value| >= CreateConfig(threadCount, queueSize, taskArgSize).value.threads
      ensures pool == null <==> CreateConfig(threadCount, queueSize, taskArgSize).None?
      ensures pool != null ==>
        var cfg := CreateConfig(threadCount, queueSize, taskArgSize).value;
        && fresh(pool) && fresh(pool.slots) && fresh(pool.contexts) && pool.Valid()
        && pool.threadCount == cfg.threads && pool.queueSize == cfg.queues && pool.taskArgSize == cfg.argCap
        && Pending(pool.State()) == [] && !pool.shutdown && pool.started == pool.threadCount
        && forall i :: 0 <= i < pool.threadCount ==>
             pool.contexts[i] == ThreadContext(
               i + 1,
               if threadArgs.Some? then threadArgs.value[i] else 0,
               None,
               if affinityCpus > 0 then Some(Affinity.CpuSet(i + 1, affinityCpus, onlnCpus)) else None)
    {
      var cfg := CreateConfig(threadCount, queueSize, taskArgSize);
      if cfg.None? {
        return null;
      }
      pool := new Pool.Init(cfg.value);
      var i := 0;
      while i < pool.threadCount
        invariant 0 <= i <= pool.threadCount
        invariant pool.started == i
        invariant forall k :: 0 <= k < i ==>
          pool.contexts[k] == ThreadContext(
            k + 1,
            if threadArgs.Some? then threadArgs.value[k] else 0,
            None,
            if affinityCpus > 0 then Some(Affinity.CpuSet(k + 1, affinityCpus, onlnCpus)) else None)
        modifies pool`started, pool.contexts
      {
        var id := i + 1;
        var arg := if threadArgs.Some? then threadArgs.value[i] else 0;
        var cpus: Option<set<int>> := None;
        if affinityCpus > 0 {
          var cpuset, _ := Affinity.SetAffinityCpus(id, affinityCpus, onlnCpus);
          cpus := Some(cpuset);
        }
        pool.contexts[i] := ThreadContext(id, arg, None, cpus);
        pool.started := pool.started + 1;
        i := i + 1;
      }
    }

    /** `threadpool_get_context`: the context of the worker with 1-based id `id`. */
    function GetContext(id: int): (ctx: ThreadContext)
      requires Valid()
      requires 1 <= id <= threadCount
      reads this, slots, contexts
      ensures ctx.id == id
    {
      contexts[id - 1]
    }

    /** `threadpool_add`. */
    static method Add(pool: Pool?, routine: Option<Routine>, argument: nat, taskArg: seq<byte>, argSize: int, flags: ub8)
      returns (err: PoolError)
      requires pool != null ==> pool.Valid() && ArgReadable(pool.taskArgSize, taskArg, argSize)
      modifies if pool != null then {pool, pool.slots} else {}
      ensures pool == null ==> err == Invalid
      ensures pool != null ==>
        && pool.Valid()
        && (err, pool.State()) == TaskQueue.Add(old(pool.State()), routine, argument, taskArg, argSize, flags)
        && pool.started == old(pool.started)
    {
      if pool == null || routine.None? {
        return Invalid;
      }
      if argSize > pool.taskArgSize {
        return TaskArgOverflow;
      }
      var next := pool.tail + 1;
      next := if next == pool.queueSize then 0 else next;
      if pool.shutdown {
        return Shutdown;
      }
      if pool.count == pool.queueSize {
        return QueueFull;
      }
      var t := Stored(pool.slots[pool.tail], routine.value, argument, taskArg, argSize, flags);
      pool.slots[pool.tail] := t;
      pool.tail := next;
      pool.count := pool.count + 1;
      err := Success;
    }

    /** `threadpool_unused_queues`: free slots, or `threadpool_invalid` once shutting down. */
    static function UnusedQueues(pool: Pool?): (n: int)
      requires pool != null ==> pool.Valid()
      reads pool, if pool != null then {pool.slots, pool.contexts} else {}
      ensures pool == null || pool.shutdown ==> n == Code(Invalid)
      ensures pool != null && !pool.shutdown ==>
        0 <= n <= pool.queueSize && n + |Pending(pool.State())| == pool.queueSize
    {
      if pool == null || pool.shutdown then Code(Invalid) else pool.queueSize - pool.count
    }

    /** `threadpool_get_threads_count`. */
    static function ThreadsCount(pool: Pool?): (n: int)
      requires pool != null ==> pool.Valid()
      reads pool, if pool != null then {pool.slots, pool.contexts} else {}
      ensures pool == null <==> n == 0
      ensures pool != null ==> n == pool.contexts.Length
    {
      if pool == null then 0 else pool.threadCount
    }

    /**
     * `threadpool_destroy` up to the release of the memory: sets the shutdown
     * flag, after which every worker leaves and is joined.
     */
    static method Destroy(pool: Pool?) returns (err: PoolError)
      requires pool != null ==> pool.Valid()
      modifies pool
      ensures pool == null ==> err == Invalid
      ensures pool != null ==>
        && pool.Valid()
        && (err, pool.State()) == TaskQueue.Destroy(old(pool.State()))
        && pool.started == (if err == Success then 0 else old(pool.started))
    {
      if pool == null {
        return Invalid;
      }
      if pool.shutdown {
        return Shutdown;
      }
      pool.shutdown := true;
      pool.started := 0;
      err := Success;
    }

    /**
     * One pass of a worker's loop (`threadpool_run`) once its wait is over:
     * the worker with 1-based id `id` either leaves because of shutdown, or
     * copies the oldest task into its context and takes it off the queue.
     * The task function itself is not run here.
     */
    method RunOnce(id: int) returns (task: Option<Task>)
      requires Valid() && 1 <= id <= threadCount
      requires count > 0 || shutdown
      requires shutdown ==> started > 0
      modifies this, contexts
      ensures Valid()
      ensures (task, State()) == Take(old(State()))
      ensures task.Some? ==> contexts[..] == old(contexts[..])[id - 1 := old(contexts[id - 1]).(task := task)]
      ensures task.Some? ==> started == old(started)
      ensures task.None? ==> contexts[..] == old(contexts[..]) && started == old(started) - 1
    {
      if shutdown {
        started := started - 1;
        return None;
      }
      var copy := slots[head];
      contexts[id - 1] := contexts[id - 1].(task := Some(copy));
      head := head + 1;
      head := if head == queueSize then 0 else head;
      count := count - 1;
      task := Some(copy);
    }
  }
}
