/**
 * The pool's task queue as a value: a ring of `queue_size` task slots with a
 * head index (the oldest task), a tail index (the next free slot), a count
 * and the shutdown flag. The functions here are the effect of one critical
 * section of the pool (an add, a worker taking a task, a shutdown) on that
 * value; the `Pool` class performs them in place and is proved to agree.
 */
module TaskQueue {
  import opened CTypes
  import opened PoolTypes

  datatype QueueState = QueueState(
    slots: seq<Task>,
    head: int,
    tail: int,
    count: int,
    shutdown: bool,
    argCap: int)

  /** The ring invariant every critical section keeps. */
  predicate Inv(q: QueueState) {
    && |q.slots| > 0
    && 0 <= q.head < |q.slots|
    && 0 <= q.tail < |q.slots|
    && 0 <= q.count <= |q.slots|
    && q.tail == Wrap(q.head + q.count, |q.slots|)
    && 0 <= q.argCap
    && forall i :: 0 <= i < |q.slots| ==> |q.slots[i].taskArg| == q.argCap
  }

  /** The queued tasks, oldest first. */
  function Pending(q: QueueState): (p: seq<Task>)
    requires Inv(q)
  {
    seq(q.count, i requires 0 <= i < q.count => q.slots[Wrap(q.head + i, |q.slots|)])
  }

  /** A ring position less than two turns ahead, brought back into `0..n`. */
  function Wrap(x: int, n: int): (j: int)
    requires 0 <= x < 2 * n
    ensures 0 <= j < n && j % n == x % n
  {
    if x < n then x else x - n
  }

  /** The ring index after `i`, wrapping to 0 at the end. */
  function Next(i: int, n: int): (j: int)
    requires 0 <= i < n
    ensures j == Wrap(i + 1, n)
  {
    if i + 1 == n then 0 else i + 1
  }

  /**
   * The task an add leaves in a slot whose previous contents were `prev`:
   * the function, argument and flags are replaced; when `argSize` is
   * positive its bytes are copied to the front of the inline area and the
   * rest of the area keeps its old bytes; otherwise the stored size is 0.
   */
  function Stored(prev: Task, routine: Routine, argument: nat, taskArg: seq<byte>, argSize: int, flags: ub8): (t: Task)
    requires argSize > 0 ==> argSize <= |taskArg| && argSize <= |prev.taskArg|
    ensures t.routine == Some(routine) && t.flags == flags && t.argument == argument
    ensures t.argSize == (if argSize > 0 then argSize else 0)
    ensures |t.taskArg| == |prev.taskArg|
    ensures t.taskArg[..t.argSize] == taskArg[..t.argSize]
    ensures t.taskArg[t.argSize..] == prev.taskArg[t.argSize..]
  {
    if argSize > 0 then
      Task(Some(routine), flags, argument, argSize, taskArg[..argSize] + prev.taskArg[argSize..])
    else
      Task(Some(routine), flags, argument, 0, prev.taskArg)
  }

  /** What a caller must supply: as many argument bytes as it claims, when they are copied. */
  predicate ArgReadable(argCap: int, taskArg: seq<byte>, argSize: int) {
    0 < argSize <= argCap ==> argSize <= |taskArg|
  }

  /**
   * `threadpool_add` on a non-NULL pool. The checks come in the source's
   * order: a NULL function, then an argument larger than the slot's inline
   * area, then shutdown, then a full queue; a refused add changes nothing,
   * an accepted one appends exactly one task.
   */
  function Add(q: QueueState, routine: Option<Routine>, argument: nat, taskArg: seq<byte>, argSize: int, flags: ub8): (r: (PoolError, QueueState))
    requires Inv(q)
    requires ArgReadable(q.argCap, taskArg, argSize)
    ensures Inv(r.1)
    ensures routine.None? ==> r.0 == Invalid
    ensures routine.Some? && argSize > q.argCap ==> r.0 == TaskArgOverflow
    ensures routine.Some? && argSize <= q.argCap && q.shutdown ==> r.0 == Shutdown
    ensures routine.Some? && argSize <= q.argCap && !q.shutdown && q.count == |q.slots| ==> r.0 == QueueFull
    ensures r.0 == Success <==> routine.Some? && argSize <= q.argCap && !q.shutdown && q.count < |q.slots|
    ensures r.0 != Success ==> r.1 == q
    ensures r.0 == Success ==>
      && r.1.shutdown == q.shutdown && r.1.argCap == q.argCap && |r.1.slots| == |q.slots|
      && Pending(r.1) == Pending(q) + [Stored(q.slots[q.tail], routine.value, argument, taskArg, argSize, flags)]
  {
    if routine.None? then (Invalid, q)
    else if argSize > q.argCap then (TaskArgOverflow, q)
    else if q.shutdown then (Shutdown, q)
    else if q.count == |q.slots| then (QueueFull, q)
    else
      var n := |q.slots|;
      var t := Stored(q.slots[q.tail], routine.value, argument, taskArg, argSize, flags);
      var q' := q.(slots := q.slots[q.tail := t], tail := Next(q.tail, n), count := q.count + 1);
      AddPending(q, t, q');
      (Success, q')
  }

  lemma AddPending(q: QueueState, t: Task, q': QueueState)
    requires Inv(q) && q.count < |q.slots| && |t.taskArg| == q.argCap
    requires q' == q.(slots := q.slots[q.tail := t], tail := Next(q.tail, |q.slots|), count := q.count + 1)
    ensures Inv(q') && Pending(q') == Pending(q) + [t]
  {
    var n := |q.slots|;
    assert q'.tail == Wrap(q.head + q.count + 1, n);
    assert forall i :: 0 <= i < n ==> |q'.slots[i].taskArg| == q.argCap;
    assert Inv(q');
    forall i | 0 <= i < q'.count
      ensures Pending(q')[i] == (Pending(q) + [t])[i]
    {
      if i < q.count {
        assert Wrap(q.head + i, n) != q.tail;
      }
    }
  }

  /**
   * A worker that holds the lock after its wait (there is a task, or the
   * pool is shutting down): on shutdown it leaves without taking anything,
   * even if tasks are pending; otherwise it takes the oldest task.
   */
  function Take(q: QueueState): (r: (Option<Task>, QueueState))
    requires Inv(q)
    requires q.count > 0 || q.shutdown
    ensures Inv(r.1)
    ensures q.shutdown ==> r == (None, q)
    ensures !q.shutdown ==>
      && r.0 == Some(Pending(q)[0])
      && Pending(r.1) == Pending(q)[1..]
      && r.1.slots == q.slots && r.1.shutdown == q.shutdown && r.1.argCap == q.argCap
  {
    if q.shutdown then (None, q)
    else
      var q' := q.(head := Next(q.head, |q.slots|), count := q.count - 1);
      TakePending(q, q');
      assert Wrap(q.head + 0, |q.slots|) == q.head;
      (Some(q.slots[q.head]), q')
  }

  lemma TakePending(q: QueueState, q': QueueState)
    requires Inv(q) && q.count > 0
    requires q' == q.(head := Next(q.head, |q.slots|), count := q.count - 1)
    ensures Inv(q') && Pending(q') == Pending(q)[1..]
  {
    var n := |q.slots|;
    assert q'.tail == Wrap(q'.head + q'.count, n);
    assert Inv(q');
    forall i | 0 <= i < q'.count
      ensures Pending(q')[i] == Pending(q)[i + 1]
    {
      assert Wrap(q'.head + i, n) == Wrap(q.head + i + 1, n);
    }
  }

  /**
   * `threadpool_destroy` on a non-NULL pool: the first call sets the
   * shutdown flag and leaves the queue as it is; a later one reports that
   * the pool is already shutting down.
   */
  function Destroy(q: QueueState): (r: (PoolError, QueueState))
    ensures r.1.shutdown
    ensures r.0 == Success <==> !q.shutdown
    ensures r.1.slots == q.slots && r.1.head == q.head && r.1.tail == q.tail && r.1.count == q.count
  {
    if q.shutdown then (Shutdown, q) else (Success, q.(shutdown := true))
  }

  /** One critical section taken by a caller or a worker. */
  datatype Request =
    | Submit(routine: Option<Routine>, argument: nat, taskArg: seq<byte>, argSize: int, flags: ub8)
    | Work
    | Stop

  predicate WellFormed(argCap: int, reqs: seq<Request>) {
    forall i :: 0 <= i < |reqs| && reqs[i].Submit? ==> ArgReadable(argCap, reqs[i].taskArg, reqs[i].argSize)
  }

  lemma WellFormedTail(argCap: int, reqs: seq<Request>)
    requires WellFormed(argCap, reqs) && reqs != []
    ensures WellFormed(argCap, reqs[1..])
    ensures reqs[0].Submit? ==> ArgReadable(argCap, reqs[0].taskArg, reqs[0].argSize)
  {
    forall i | 0 <= i < |reqs[1..]| && reqs[1..][i].Submit?
      ensures ArgReadable(argCap, reqs[1..][i].taskArg, reqs[1..][i].argSize)
    {
      assert reqs[1..][i] == reqs[i + 1];
    }
  }

  /** The final queue, the tasks accepted in order and the tasks workers took in order. */
  datatype Trace = Trace(final: QueueState, accepted: seq<Task>, delivered: seq<Task>)

  /**
   * A sequence of critical sections. A `Work` step with nothing queued and
   * no shutdown is a worker that goes on waiting, which changes nothing.
   */
  function Step(q: QueueState, req: Request): (t: Trace)
    requires Inv(q)
    requires req.Submit? ==> ArgReadable(q.argCap, req.taskArg, req.argSize)
    ensures Inv(t.final) && t.final.argCap == q.argCap
    ensures Pending(q) + t.accepted == t.delivered + Pending(t.final)
    ensures q.shutdown ==> t == Trace(q, [], [])
  {
    match req
    case Submit(routine, argument, taskArg, argSize, flags) =>
      var (err, q') := Add(q, routine, argument, taskArg, argSize, flags);
      if err == Success then
        Trace(q', [Stored(q.slots[q.tail], routine.value, argument, taskArg, argSize, flags)], [])
      else Trace(q, [], [])
    case Work =>
      if q.count > 0 || q.shutdown then
        var (task, q') := Take(q);
        if task.Some? then
          assert Pending(q) == [task.value] + Pending(q)[1..];
          Trace(q', [], [task.value])
        else Trace(q', [], [])
      else Trace(q, [], [])
    case Stop =>
      var (_, q') := Destroy(q);
      assert Pending(q') == Pending(q);
      Trace(q', [], [])
  }

  function Run(q: QueueState, reqs: seq<Request>): (t: Trace)
    requires Inv(q) && WellFormed(q.argCap, reqs)
    ensures Inv(t.final) && t.final.argCap == q.argCap
    decreases |reqs|
  {
    if reqs == [] then Trace(q, [], [])
    else
      var s := Step(q, reqs[0]);
      var t := Run(s.final, reqs[1..]);
      Trace(t.final, s.accepted + t.accepted, s.delivered + t.delivered)
  }

  /**
   * The queue is first in, first out and loses nothing while it runs: the
   * tasks queued at the start followed by those accepted equal the tasks
   * workers took followed by those still queued.
   */
  lemma {:induction false} RunIsFifo(q: QueueState, reqs: seq<Request>)
    requires Inv(q) && WellFormed(q.argCap, reqs)
    ensures Pending(q) + Run(q, reqs).accepted == Run(q, reqs).delivered + Pending(Run(q, reqs).final)
    decreases |reqs|
  {
    if reqs != [] {
      var s := Step(q, reqs[0]);
      WellFormedTail(q.argCap, reqs);
      RunIsFifo(s.final, reqs[1..]);
      var t := Run(s.final, reqs[1..]);
      assert Run(q, reqs) == Trace(t.final, s.accepted + t.accepted, s.delivered + t.delivered);
      var p0, p1, p2 := Pending(q), Pending(s.final), Pending(t.final);
      assert p0 + s.accepted == s.delivered + p1;
      assert p1 + t.accepted == t.delivered + p2;
      Regroup(p0, s.accepted, s.delivered, p1, t.accepted, t.delivered, p2);
    }
  }

  lemma Regroup<T>(p0: seq<T>, a0: seq<T>, d0: seq<T>, p1: seq<T>, a1: seq<T>, d1: seq<T>, p2: seq<T>)
    requires p0 + a0 == d0 + p1 && p1 + a1 == d1 + p2
    ensures p0 + (a0 + a1) == (d0 + d1) + p2
  {
    calc {
      p0 + (a0 + a1);
      (p0 + a0) + a1;
      (d0 + p1) + a1;
      d0 + (p1 + a1);
      d0 + (d1 + p2);
      (d0 + d1) + p2;
    }
  }

  /** After shutdown nothing is accepted or taken any more, whatever comes next. */
  lemma {:induction false} ShutdownIsFinal(q: QueueState, reqs: seq<Request>)
    requires Inv(q) && WellFormed(q.argCap, reqs) && q.shutdown
    ensures Run(q, reqs) == Trace(q, [], [])
    decreases |reqs|
  {
    if reqs != [] {
      ShutdownIsFinal(q, reqs[1..]);
    }
  }

  /** A submission with a task function and an argument that fits. */
  predicate Admissible(argCap: int, req: Request) {
    req.Submit? && req.routine.Some? && req.argSize <= argCap && ArgReadable(argCap, req.taskArg, req.argSize)
  }

  /**
   * Capacity: on a running pool, admissible submissions are all accepted as
   * long as they fit in the free slots; the queue then holds that many more.
   */
  lemma {:induction false} SubmissionsFillQueue(q: QueueState, reqs: seq<Request>)
    requires Inv(q) && !q.shutdown
    requires forall i :: 0 <= i < |reqs| ==> Admissible(q.argCap, reqs[i])
    requires q.count + |reqs| <= |q.slots|
    ensures WellFormed(q.argCap, reqs)
    ensures |Run(q, reqs).accepted| == |reqs| && Run(q, reqs).delivered == []
    ensures Run(q, reqs).final.count == q.count + |reqs| && !Run(q, reqs).final.shutdown
    ensures |Run(q, reqs).final.slots| == |q.slots|
    decreases |reqs|
  {
    if reqs != [] {
      var s := Step(q, reqs[0]);
      assert forall i :: 0 <= i < |reqs[1..]| ==> reqs[1..][i] == reqs[i + 1];
      SubmissionsFillQueue(s.final, reqs[1..]);
    }
  }

  /** Once all `queue_size` slots are taken, the next admissible submission is refused as full. */
  lemma FullQueueRefuses(q: QueueState, req: Request)
    requires Inv(q) && !q.shutdown && q.count == |q.slots| && Admissible(q.argCap, req)
    ensures Add(q, req.routine, req.argument, req.taskArg, req.argSize, req.flags) == (QueueFull, q)
  {
  }
}
