/**
 * thread_pool: a fixed set of workers (std::jthread, each with its own stop
 * token) consuming a FIFO queue of tasks, run as one sequential state
 * machine. The mutex and condition variable disappear: each call below is one
 * atomic step (a worker pops and runs a task in one step, where the C++
 * worker unlocks before running it), and which worker runs next is the
 * caller's choice of `w`.
 * A task is the zero-argument closure `submit` builds; running it yields the
 * value or escaped exception that its std::future will hold.
 */
module ThreadPool {
  import opened Optional

  /** What a packaged_task stores in its future: a value or an exception. */
  datatype Outcome<V> = Value(value: V) | Raised(error: string)

  /** A queued closure, tagged with the handle (future) `submit` returned for it. */
  datatype Task<V> = Task(id: nat, run: () -> Outcome<V>)

  /** One jthread: stop requested on its token, its loop returned, still joinable. */
  datatype Worker = Worker(stopRequested: bool, exited: bool, joinable: bool)

  /** What one turn of a worker's loop did. */
  datatype Step = Exited | Waiting | Ran(id: nat)

  /** The handles of `ts`, in queue order. */
  function Ids<V>(ts: seq<Task<V>>): (r: seq<nat>)
    ensures |r| == |ts| && forall i :: 0 <= i < |ts| ==> r[i] == ts[i].id
  {
    if ts == [] then [] else [ts[0].id] + Ids(ts[1..])
  }

  /** The handles lo, lo + 1, ..., hi - 1. */
  function Range(lo: nat, hi: nat): (r: seq<nat>)
    requires lo <= hi
    ensures |r| == hi - lo && forall i :: 0 <= i < |r| ==> r[i] == lo + i
    decreases hi - lo
  {
    if lo == hi then [] else [lo] + Range(lo + 1, hi)
  }

  /** When every task's handle is its submission index, a suffix of the tasks has consecutive handles. */
  lemma IdsOfSuffix<V>(ts: seq<Task<V>>, lo: nat)
    requires lo <= |ts| && forall i :: 0 <= i < |ts| ==> ts[i].id == i
    ensures Ids(ts[lo..]) == Range(lo, |ts|)
  {
  }

  class Pool<V> {
    var workers: array<Worker>
    var tasks: seq<Task<V>>
    var results: map<nat, Outcome<V>>
    var nextHandle: nat
    /** Every task ever submitted, in submission order. */
    ghost var submitted: seq<Task<V>>
    /** How many tasks have been popped from the queue. */
    ghost var started: nat

    /**
     * The queue is the submitted tasks not yet popped, in submission order;
     * exactly the popped ones have a result, and it is what their closure
     * returns; a worker exits only after its stop was requested, and is
     * joined only after it exited.
     */
    ghost predicate Valid()
      reads this, workers
    {
      && workers.Length >= 1
      && |submitted| == nextHandle
      && (forall i :: 0 <= i < |submitted| ==> submitted[i].id == i)
      && started <= |submitted| && tasks == submitted[started..]
      && (forall i: nat :: i in results <==> i < started)
      && (forall i :: i in results && i < |submitted| ==> results[i] == submitted[i].run())
      && (forall w :: 0 <= w < workers.Length ==>
            (workers[w].exited ==> workers[w].stopRequested) && (!workers[w].joinable ==> workers[w].exited))
    }

    /** Every worker has been asked to stop. */
    ghost predicate AllStopRequested()
      reads this, workers
    {
      forall w :: 0 <= w < workers.Length ==> workers[w].stopRequested
    }

    /** The constructor: `capacity` (at least 1) running, joinable workers. */
    constructor(capacity: nat)
      requires capacity >= 1
      ensures Valid() && fresh(workers)
      ensures workers.Length == capacity
      ensures forall w :: 0 <= w < capacity ==> workers[w] == Worker(false, false, true)
      ensures tasks == [] && results == map[] && nextHandle == 0
    {
      var ws := new Worker[capacity];
      for i := 0 to capacity
        invariant forall j :: 0 <= j < i ==> ws[j] == Worker(false, false, true)
      {
        ws[i] := Worker(false, false, true);
      }
      workers := ws;
      tasks := [];
      results := map[];
      nextHandle := 0;
      submitted := [];
      started := 0;
    }

    /**
     * stop: request stop on every worker's token. Nothing else changes, and
     * a second stop changes nothing at all.
     */
    method Stop()
      requires Valid()
      modifies workers
      ensures Valid() && AllStopRequested()
      ensures forall w :: 0 <= w < workers.Length ==> workers[w] == old(workers[w]).(stopRequested := true)
      ensures old(AllStopRequested()) ==> workers[..] == old(workers[..])
    {
      for i := 0 to workers.Length
        invariant forall j :: 0 <= j < i ==> workers[j] == old(workers[j]).(stopRequested := true)
        invariant forall j :: i <= j < workers.Length ==> workers[j] == old(workers[j])
      {
        workers[i] := workers[i].(stopRequested := true);
      }
    }

    /**
     * join: wait for every joinable worker. Only a worker whose stop was
     * requested ever leaves its loop, so the C++ `join` hangs unless each
     * joinable worker was stopped; such a worker exits without popping a
     * task, so the queue and the results are untouched.
     */
    method Join()
      requires Valid()
      requires forall w :: 0 <= w < workers.Length && workers[w].joinable ==> workers[w].stopRequested
      modifies workers
      ensures Valid()
      ensures forall w :: 0 <= w < workers.Length ==>
                workers[w] == old(workers[w]).(exited := true, joinable := false)
    {
      for i := 0 to workers.Length
        invariant forall j :: 0 <= j < i ==> workers[j] == old(workers[j]).(exited := true, joinable := false)
        invariant forall j :: i <= j < workers.Length ==> workers[j] == old(workers[j])
      {
        if workers[i].joinable {
          workers[i] := workers[i].(exited := true, joinable := false);
        }
      }
    }

    /** The destructor: stop, then join. Every worker ends stopped, exited and joined. */
    method Destroy()
      requires Valid()
      modifies workers
      ensures Valid()
      ensures forall w :: 0 <= w < workers.Length ==> workers[w] == Worker(true, true, false)
    {
      Stop();
      Join();
    }

    /**
     * submit: append one task at the tail, whatever the stop state, and
     * return its handle, which is not yet fulfilled.
     */
    method Submit(job: () -> Outcome<V>) returns (handle: nat)
      requires Valid()
      modifies this
      ensures Valid() && workers == old(workers)
      ensures handle == old(nextHandle) && handle !in results
      ensures tasks == old(tasks) + [Task(handle, job)]
      ensures results == old(results) && started == old(started)
      ensures submitted == old(submitted) + [Task(handle, job)]
    {
      handle := nextHandle;
      tasks := tasks + [Task(handle, job)];
      submitted := submitted + [Task(handle, job)];
      nextHandle := nextHandle + 1;
    }

    /**
     * One turn of scheduled_run's loop for worker `w`: once its stop is
     * requested it exits without popping; with an empty queue it waits;
     * otherwise it pops the head task and runs it, fulfilling its handle.
     */
    method WorkerStep(w: nat) returns (s: Step)
      requires Valid() && w < workers.Length
      modifies this, workers
      ensures Valid() && workers == old(workers)
      ensures submitted == old(submitted) && nextHandle == old(nextHandle)
      ensures forall v :: 0 <= v < workers.Length && v != w ==> workers[v] == old(workers[v])
      ensures old(workers[w].stopRequested) ==>
                && s == Exited && tasks == old(tasks) && results == old(results) && started == old(started)
                && workers[w] == old(workers[w]).(exited := true)
      ensures !old(workers[w].stopRequested) && old(tasks) == [] ==>
                s == Waiting && tasks == old(tasks) && results == old(results) && workers[w] == old(workers[w])
      ensures !old(workers[w].stopRequested) && old(tasks) != [] ==>
                && s == Ran(old(tasks[0].id)) && s.id == old(started)
                && tasks == old(tasks[1..]) && started == old(started) + 1
                && results == old(results)[s.id := old(tasks[0].run())]
                && workers[w] == old(workers[w])
    {
      if workers[w].stopRequested {
        workers[w] := workers[w].(exited := true);
        s := Exited;
      } else if tasks == [] {
        s := Waiting;
      } else {
        var t := tasks[0];
        tasks := tasks[1..];
        started := started + 1;
        results := results[t.id := t.run()];
        s := Ran(t.id);
      }
    }

    /**
     * scheduled_run for worker `w` while nobody else acts: it pops and runs
     * the whole queue, front first, and then waits for work; once its stop is
     * requested it runs nothing and exits. Returns the handles it fulfilled.
     */
    method ScheduledRun(w: nat) returns (ran: seq<nat>)
      requires Valid() && w < workers.Length
      modifies this, workers
      ensures Valid() && workers == old(workers)
      ensures submitted == old(submitted) && nextHandle == old(nextHandle)
      ensures forall v :: 0 <= v < workers.Length && v != w ==> workers[v] == old(workers[v])
      ensures old(workers[w].stopRequested) ==>
                ran == [] && tasks == old(tasks) && results == old(results)
                && workers[w] == old(workers[w]).(exited := true)
      ensures !old(workers[w].stopRequested) ==>
                && ran == Ids(old(tasks)) && ran == Range(old(started), nextHandle)
                && tasks == [] && started == nextHandle && workers[w] == old(workers[w])
    {
      ran := [];
      if workers[w].stopRequested {
        var s := WorkerStep(w);
        return;
      }
      ghost var queue := tasks;
      while true
        invariant Valid() && workers == old(workers)
        invariant submitted == old(submitted) && nextHandle == old(nextHandle)
        invariant forall v :: 0 <= v < workers.Length ==> workers[v] == old(workers[v])
        invariant |ran| <= |queue| && tasks == queue[|ran|..] && started == old(started) + |ran|
        invariant ran == Ids(queue[..|ran|])
        decreases |tasks|
      {
        var s := WorkerStep(w);
        if !s.Ran? {
          break;
        }
        assert queue[..|ran| + 1] == queue[..|ran|] + [queue[|ran|]];
        ran := ran + [s.id];
      }
      assert queue[..|ran|] == queue;
      IdsOfSuffix(submitted, old(started));
    }

    /**
     * Reading a handle without blocking: the value or exception of its task
     * once a worker has popped and run it, and nothing while it is pending.
     */
    method Poll(handle: nat) returns (r: Option<Outcome<V>>)
      requires Valid()
      ensures handle < started ==> r == Some(submitted[handle].run())
      ensures handle >= started ==> r == None
    {
      if handle in results {
        r := Some(results[handle]);
      } else {
        r := None;
      }
    }
  }

  /** One worker, a task computing 1 + 1: its handle yields 2. */
  method SumScenario() returns (r: Option<Outcome<int>>)
    ensures r == Some(Value(2))
  {
    var pool := new Pool<int>(1);
    var h := pool.Submit(() => Value(1 + 1));
    var ran := pool.ScheduledRun(0);
    r := pool.Poll(h);
    pool.Destroy();
  }

  /**
   * Two workers; a task that throws is followed by a normal one. The first
   * handle surfaces the exact error and the pool goes on serving the second.
   */
  method FailureScenario(e: string) returns (first: Option<Outcome<int>>, second: Option<Outcome<int>>)
    ensures first == Some(Raised(e)) && second == Some(Value(7))
  {
    var pool := new Pool<int>(2);
    var h1 := pool.Submit(() => Raised(e));
    var s1 := pool.WorkerStep(1);
    var h2 := pool.Submit(() => Value(7));
    var s2 := pool.WorkerStep(1);
    first := pool.Poll(h1);
    second := pool.Poll(h2);
    pool.Destroy();
  }

  /**
   * One worker, two tasks; the worker pops the first, then the pool is
   * stopped and joined before the second is popped. The second handle is
   * never fulfilled and its task stays in the queue.
   */
  method AbandonScenario() returns (first: Option<Outcome<int>>, second: Option<Outcome<int>>, left: nat)
    ensures first == Some(Value(1)) && second == None && left == 1
  {
    var pool := new Pool<int>(1);
    var h1 := pool.Submit(() => Value(1));
    var h2 := pool.Submit(() => Value(2));
    var s := pool.WorkerStep(0);
    pool.Stop();
    pool.Join();
    first := pool.Poll(h1);
    second := pool.Poll(h2);
    left := |pool.tasks|;
  }

  /**
   * A submission after stop is still queued, but no worker runs it: its
   * handle stays pending.
   */
  method SubmitAfterStop() returns (queued: nat, r: Option<Outcome<int>>)
    ensures queued == 1 && r == None
  {
    var pool := new Pool<int>(1);
    pool.Stop();
    var h := pool.Submit(() => Value(3));
    queued := |pool.tasks|;
    var ran := pool.ScheduledRun(0);
    r := pool.Poll(h);
    pool.Join();
  }

  /** One worker runs three tasks in the order they were submitted. */
  method FifoScenario() returns (order: seq<nat>, h1: nat, h2: nat, h3: nat)
    ensures order == [h1, h2, h3]
  {
    var pool := new Pool<int>(1);
    h1 := pool.Submit(() => Value(10));
    h2 := pool.Submit(() => Value(20));
    h3 := pool.Submit(() => Value(30));
    order := pool.ScheduledRun(0);
    pool.Destroy();
  }
}
