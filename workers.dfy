/** The worker pool of src/workers.rs, modelled sequentially: a status that
    only moves forward, a FIFO work queue of `Close | Work(w)` messages, a
    FIFO result queue, the number of spawned threads and the number of those
    that have ended. A thread's loop is one `WorkerStep` at a time. */
module WorkerPool {
  import opened Wrappers

  datatype WorkersStatus = Created | Running | Stopped

  /** The position of a status in the lifecycle `Created -> Running -> Stopped`. */
  function StatusRank(s: WorkersStatus): (r: nat)
    ensures r <= 2
    ensures (r == 0 <==> s == Created) && (r == 2 <==> s == Stopped)
  {
    match s
    case Created => 0
    case Running => 1
    case Stopped => 2
  }

  /** A message on the work channel. */
  datatype Message<W> = Close | Work(work: W)

  /** `n` close messages. */
  function Closes<W>(n: nat): (r: seq<Message<W>>)
    ensures |r| == n && forall i :: 0 <= i < n ==> r[i] == Close
  {
    seq(n, i requires 0 <= i < n => Close)
  }

  /** The number of close messages in a queue. */
  function CloseCount<W>(q: seq<Message<W>>): nat {
    if q == [] then 0 else (if q[0].Close? then 1 else 0) + CloseCount(q[1..])
  }

  lemma {:induction false} CloseCountAppend<W>(p: seq<Message<W>>, q: seq<Message<W>>)
    ensures CloseCount(p + q) == CloseCount(p) + CloseCount(q)
    decreases |p|
  {
    if p == [] {
      assert p + q == q;
    } else {
      assert (p + q)[1..] == p[1..] + q;
      CloseCountAppend(p[1..], q);
    }
  }

  lemma {:induction false} CloseCountOfCloses<W>(n: nat)
    ensures CloseCount(Closes<W>(n)) == n
  {
    if n > 0 {
      assert Closes<W>(n)[1..] == Closes<W>(n - 1);
      CloseCountOfCloses<W>(n - 1);
    }
  }

  /** A queue with a close message has one at its head or further back. */
  lemma {:induction false} CloseCountPositive<W>(q: seq<Message<W>>)
    ensures CloseCount(q) > 0 <==> exists i :: 0 <= i < |q| && q[i].Close?
    decreases |q|
  {
    if q != [] {
      CloseCountPositive(q[1..]);
      if q[0].Work? && exists i :: 0 <= i < |q| && q[i].Close? {
        var i :| 0 <= i < |q| && q[i].Close?;
        assert q[1..][i - 1].Close?;
      }
      if exists i :: 0 <= i < |q[1..]| && q[1..][i].Close? {
        var i :| 0 <= i < |q[1..]| && q[1..][i].Close?;
        assert q[i + 1].Close?;
      }
    }
  }

  class Workers<C, W, R> {
    var status: WorkersStatus
    const context: C
    var workQueue: seq<Message<W>>
    var results: seq<R>
    /** The length of the `workers` handle vector. */
    var workers: nat
    /** How many of the spawned threads have returned. */
    var finished: nat

    /** The pool's invariant: no thread before `spin_up`; at least one after
        it; while running no thread has been told to close; once stopped,
        every thread has either ended or has a close message waiting. */
    predicate Valid()
      reads this
    {
      && finished <= workers
      && (status == Created ==> workers == 0 && workQueue == [])
      && (status != Created ==> workers >= 1)
      && (status == Running ==> finished == 0 && CloseCount(workQueue) == 0)
      && (status == Stopped ==> finished + CloseCount(workQueue) == workers)
    }

    /** `Workers::create` (src/workers.rs:33-45). */
    constructor Create(context: C)
      ensures Valid()
      ensures status == Created && this.context == context
      ensures workQueue == [] && results == [] && workers == 0 && finished == 0
    {
      status := Created;
      this.context := context;
      workQueue := [];
      results := [];
      workers := 0;
      finished := 0;
    }

    /** `Workers::spin_up` (src/workers.rs:47-107): fails and changes nothing
        unless the pool has just been created; otherwise spawns
        `threadCount` threads (the number of CPUs, at least one) and starts
        running. */
    method SpinUp(threadCount: nat) returns (r: Result<()>)
      requires Valid()
      requires threadCount >= 1
      modifies this
      ensures Valid()
      ensures old(status) != Created ==> r == Err && status == old(status) && workers == old(workers)
      ensures old(status) == Created ==> r == Ok(()) && status == Running && workers == old(workers) + threadCount
      ensures workers >= 1 || r == Err
      ensures workQueue == old(workQueue) && results == old(results) && finished == old(finished)
      ensures StatusRank(old(status)) <= StatusRank(status)
    {
      if status != Created {
        return Err;
      }
      for i := 0 to threadCount
        invariant workers == old(workers) + i
        invariant status == Created && workQueue == old(workQueue) && finished == old(finished)
        invariant results == old(results)
      {
        workers := workers + 1;
      }
      status := Running;
      r := Ok(());
    }

    /** `Workers::shut_down` (src/workers.rs:109-123): fails unless running;
        otherwise queues one close message per thread behind all queued work
        and stops. */
    method ShutDown() returns (r: Result<()>)
      requires Valid()
      modifies this
      ensures Valid()
      ensures old(status) != Running ==> r == Err && status == old(status) && workQueue == old(workQueue)
      ensures old(status) == Running ==> r == Ok(()) && status == Stopped && workQueue == old(workQueue) + Closes(workers)
      ensures workers == old(workers) && results == old(results) && finished == old(finished)
      ensures StatusRank(old(status)) <= StatusRank(status)
    {
      if status != Running {
        return Err;
      }
      for i := 0 to workers
        invariant workQueue == old(workQueue) + Closes(i)
        invariant status == Running && workers == old(workers)
        invariant finished == old(finished) && results == old(results)
      {
        assert Closes<W>(i + 1) == Closes<W>(i) + [Close];
        workQueue := workQueue + [Close];
      }
      CloseCountAppend(old(workQueue), Closes<W>(workers));
      CloseCountOfCloses<W>(workers);
      status := Stopped;
      r := Ok(());
    }

    /** `Workers::add_work` (src/workers.rs:125-134): fails and changes
        nothing unless running; otherwise appends exactly one work message. */
    method AddWork(w: W) returns (r: Result<()>)
      requires Valid()
      modifies this
      ensures Valid()
      ensures old(status) != Running ==> r == Err && workQueue == old(workQueue)
      ensures old(status) == Running ==> r == Ok(()) && workQueue == old(workQueue) + [Work(w)]
      ensures status == old(status) && workers == old(workers) && results == old(results) && finished == old(finished)
    {
      if status != Running {
        return Err;
      }
      CloseCountAppend(workQueue, [Work(w)]);
      workQueue := workQueue + [Work(w)];
      r := Ok(());
    }

    /** `Workers::try_receive_result` (src/workers.rs:140-158). The result
        channel never disconnects while the pool holds its sender, so the
        error branch does not arise. */
    method TryReceiveResult() returns (r: Result<Option<R>>)
      modifies this
      ensures old(results) == [] ==> r == Ok(None) && results == []
      ensures old(results) != [] ==> r == Ok(Some(old(results)[0])) && results == old(results)[1..]
      ensures status == old(status) && workQueue == old(workQueue)
      ensures workers == old(workers) && finished == old(finished)
    {
      if results == [] {
        return Ok(None);
      }
      r := Ok(Some(results[0]));
      results := results[1..];
    }

    /** `Workers::has_work_left` (src/workers.rs:160-162): as written, true
        exactly when the work queue is EMPTY. */
    function HasWorkLeft(): (b: bool)
      reads this
      ensures b <==> |workQueue| == 0
    {
      workQueue == []
    }

    /** `Workers::has_results` (src/workers.rs:164-166). */
    function HasResults(): (b: bool)
      reads this
      ensures b <==> |results| > 0
    {
      results != []
    }

    /** One turn of a worker thread's loop (src/workers.rs:68-99): a thread
        that has not ended takes the head message; `Close` ends it, and
        `Work(w)` appends `f(w, context)` to the results. A thread waiting on
        an empty queue blocks, so a step needs a message. */
    method WorkerStep(f: (W, C) -> R) returns (closed: bool)
      requires Valid()
      requires finished < workers && workQueue != []
      modifies this
      ensures Valid()
      ensures workQueue == old(workQueue)[1..]
      ensures closed <==> old(workQueue)[0].Close?
      ensures closed ==> finished == old(finished) + 1 && results == old(results)
      ensures !closed ==> finished == old(finished) && results == old(results) + [f(old(workQueue)[0].work, context)]
      ensures status == old(status) && workers == old(workers)
    {
      var m := workQueue[0];
      assert workQueue == [m] + workQueue[1..];
      CloseCountAppend([m], workQueue[1..]);
      workQueue := workQueue[1..];
      match m
      case Close =>
        finished := finished + 1;
        closed := true;
      case Work(w) =>
        results := results + [f(w, context)];
        closed := false;
    }

    /** Once the pool is stopped and its queue has drained, every thread has
        ended. */
    lemma DrainedStopMeansAllEnded()
      requires Valid() && status == Stopped && workQueue == []
      ensures finished == workers
    {
    }

    /** A stopped pool with a thread still alive has a close message queued
        for it, so that thread is never left blocking. */
    lemma LiveWorkerHasClose()
      requires Valid() && status == Stopped && finished < workers
      ensures exists i :: 0 <= i < |workQueue| && workQueue[i].Close?
    {
      CloseCountPositive(workQueue);
    }
  }
}
