/** A sequential model of the fixed-size thread pool `threadpool_example::ThreadPool`.

    Each critical section of the pool (a section of code run while holding
    `queueMutex`) is one atomic step of a state machine:
    - the stop check of `enqueue` and its push are two separate steps, so a
      stop arriving between them can be expressed;
    - one worker step is one pass through the worker's locked section: wait
      predicate, exit check, pop of the head; running the popped task is a
      further step of that worker;
    - `Stop` is the destructor's flag set, and `Destroy` the whole destructor
      (flag set, then the join loop, with the joined worker stepping until it
      returns).
    Tasks are opaque identifiers; what a task computes is not part of this
    module. */
module Threadpool {

  /** A queued job, reduced to an identifier. */
  type TaskId = nat

  /** Where the loop of one worker thread stands. */
  datatype Worker =
    | Waiting               // at the top of its `while (true)` loop, about to lock and wait
    | Running(task: TaskId) // holds a task it dequeued and runs it outside the lock
    | Exited                // its loop has returned; the thread is finished

  /** What one worker step did. */
  datatype StepOutcome =
    | Blocked               // the wait predicate is false: the worker keeps sleeping
    | Took(task: TaskId)    // it popped the head of the queue
    | Finished(task: TaskId)// it finished running its task and loops back
    | Exit                  // it saw the pool stopped with an empty queue and returned

  /** The answer of `enqueue`'s stop check: `Stopped` is the runtime_error it throws. */
  datatype EnqueueResult = Accepted | Stopped

  /** The condition under which a woken worker returns from its loop. It never
      holds while tasks remain, so a stopped pool is drained first. */
  predicate ShouldExit(isStop: bool, tasks: seq<TaskId>): (exit: bool)
    ensures exit ==> isStop
    ensures |tasks| > 0 ==> !exit
  {
    isStop && |tasks| == 0
  }

  /** The predicate a worker waits for: stop requested or work available. A
      worker that gets past it and does not exit has a task to pop, and the
      exit is only reached past it. */
  predicate WaitSatisfied(isStop: bool, tasks: seq<TaskId>): (ready: bool)
    ensures ready && !ShouldExit(isStop, tasks) ==> |tasks| > 0
    ensures ShouldExit(isStop, tasks) ==> ready
  {
    isStop || |tasks| > 0
  }

  predicate Distinct(s: seq<TaskId>)
  {
    forall i, j :: 0 <= i < j < |s| ==> s[i] != s[j]
  }

  /** Used as a termination measure: each worker step lowers it once the pool is stopped. */
  function Rank(w: Worker): (rank: nat)
  {
    match w
    case Exited => 0
    case Waiting => 1
    case Running(_) => 2
  }

  /** The pop log and the queue together are the push log (the invariant `Valid`
      keeps). Then the tasks taken so far are the first ones pushed, in push
      order, and when every pushed id is distinct no task is taken twice and no
      task taken is still queued. */
  lemma FifoHandOff(pushed: seq<TaskId>, popped: seq<TaskId>, tasks: seq<TaskId>)
    requires pushed == popped + tasks
    ensures popped == pushed[..|popped|] && tasks == pushed[|popped|..]
    ensures Distinct(pushed) ==> Distinct(popped) && Distinct(tasks)
    ensures Distinct(pushed) ==> forall t :: t in popped ==> t !in tasks
  {
    if Distinct(pushed) {
      forall a, b | 0 <= a < |popped| && 0 <= b < |tasks|
        ensures popped[a] != tasks[b]
      {
        assert pushed[a] == popped[a] && pushed[|popped| + b] == tasks[b];
      }
    }
  }

  class ThreadPool {
    var workers: seq<Worker>
    var tasks: seq<TaskId>
    var isStop: bool

    /** Every task ever pushed, in push order. */
    ghost var pushed: seq<TaskId>
    /** Every task ever taken by a worker, in the order they were taken. */
    ghost var popped: seq<TaskId>
    /** Number of `enqueue` calls that passed the stop check and have not yet pushed. */
    ghost var admitted: nat

    /** The pool's invariant: the queue holds exactly the pushed tasks not yet
        taken, in push order, and a running worker runs a task it took. */
    ghost predicate Valid()
      reads this
    {
      pushed == popped + tasks &&
      forall i :: 0 <= i < |workers| && workers[i].Running? ==> workers[i].task in popped
    }

    /** The pool's tasks are taken in push order, and with distinct ids none
        is taken twice and none taken is still queued. */
    lemma TakenInPushOrder()
      requires Valid()
      ensures popped == pushed[..|popped|] && tasks == pushed[|popped|..]
      ensures Distinct(pushed) ==> Distinct(popped) && Distinct(tasks)
      ensures Distinct(pushed) ==> forall t :: t in popped ==> t !in tasks
    {
      FifoHandOff(pushed, popped, tasks);
    }

    /** Once any worker has exited, the pool is stopped and its queue empty:
        nothing is left queued that no worker will ever take. */
    ghost predicate NoStrandedTasks()
      reads this
    {
      forall i :: 0 <= i < |workers| && workers[i].Exited? ==> isStop && tasks == []
    }

    /** Starts `numThreads` workers, each about to wait on the empty queue. A
        count of 0 is accepted, as the source does, and gives a pool that never
        runs anything. */
    constructor (numThreads: nat)
      ensures Valid() && NoStrandedTasks()
      ensures |workers| == numThreads
      ensures forall i :: 0 <= i < numThreads ==> workers[i] == Waiting
      ensures tasks == [] && !isStop
      ensures pushed == [] && popped == [] && admitted == 0
    {
      var ws: seq<Worker> := [];
      var i := 0;
      while i < numThreads
        invariant 0 <= i <= numThreads
        invariant |ws| == i
        invariant forall k :: 0 <= k < i ==> ws[k] == Waiting
      {
        ws := ws + [Waiting];
        i := i + 1;
      }
      workers := ws;
      tasks := [];
      isStop := false;
      pushed, popped, admitted := [], [], 0;
    }

    /** The first critical section of `enqueue`: reject when stopped. Nothing
        the workers see changes. */
    method EnqueueCheck() returns (r: EnqueueResult)
      requires Valid()
      modifies this`admitted
      ensures Valid()
      ensures r == Stopped <==> old(isStop)
      ensures admitted == if r == Accepted then old(admitted) + 1 else old(admitted)
      ensures old(NoStrandedTasks()) ==> NoStrandedTasks()
    {
      if isStop {
        r := Stopped;
      } else {
        r := Accepted;
        admitted := admitted + 1;
      }
    }

    /** The second critical section of `enqueue`: push the task at the tail.
        It runs for a call that passed the stop check, and does not look at
        `isStop` again. */
    method EnqueuePush(t: TaskId)
      requires Valid() && admitted > 0
      modifies this`tasks, this`pushed, this`admitted
      ensures Valid()
      ensures tasks == old(tasks) + [t]
      ensures pushed == old(pushed) + [t]
      ensures admitted == old(admitted) - 1
    {
      tasks := tasks + [t];
      pushed := pushed + [t];
      admitted := admitted - 1;
    }

    /** `enqueue` with its stop check and its push in one critical section:
        rejected when stopped, with nothing changed; otherwise the task goes
        to the tail. */
    method Enqueue(t: TaskId) returns (r: EnqueueResult)
      requires Valid()
      modifies this`tasks, this`pushed
      ensures Valid()
      ensures r == Stopped <==> old(isStop)
      ensures tasks == if r == Accepted then old(tasks) + [t] else old(tasks)
      ensures pushed == if r == Accepted then old(pushed) + [t] else old(pushed)
      ensures old(NoStrandedTasks()) ==> NoStrandedTasks()
    {
      if isStop {
        r := Stopped;
      } else {
        r := Accepted;
        tasks := tasks + [t];
        pushed := pushed + [t];
      }
    }

    /** The destructor's critical section: set the stop flag. It is never reset. */
    method Stop()
      requires Valid()
      modifies this`isStop
      ensures Valid() && isStop
      ensures old(NoStrandedTasks()) ==> NoStrandedTasks()
    {
      isStop := true;
    }

    /** One step of worker `i`. A running worker finishes its task and loops
        back. A waiting worker sleeps while the wait predicate is false; once
        it holds, the worker returns if the pool is stopped and the queue
        empty, and otherwise pops the head, even after stop, so the queue is
        drained. */
    method WorkerStep(i: nat) returns (out: StepOutcome)
      requires Valid() && i < |workers| && !workers[i].Exited?
      modifies this`workers, this`tasks, this`popped
      ensures Valid()
      ensures |workers| == old(|workers|)
      ensures forall k :: 0 <= k < |workers| && k != i ==> workers[k] == old(workers[k])
      ensures old(workers[i]).Running? ==>
                out == Finished(old(workers[i]).task) && workers[i] == Waiting &&
                tasks == old(tasks) && popped == old(popped)
      ensures old(workers[i]) == Waiting && !WaitSatisfied(old(isStop), old(tasks)) ==>
                out == Blocked && workers == old(workers) &&
                tasks == old(tasks) && popped == old(popped)
      ensures old(workers[i]) == Waiting && ShouldExit(old(isStop), old(tasks)) ==>
                out == Exit && workers[i] == Exited &&
                tasks == old(tasks) && popped == old(popped)
      ensures old(workers[i]) == Waiting && |old(tasks)| > 0 ==>
                out == Took(old(tasks)[0]) && workers[i] == Running(old(tasks)[0]) &&
                tasks == old(tasks)[1..] && popped == old(popped) + [old(tasks)[0]]
      ensures old(NoStrandedTasks()) ==> NoStrandedTasks()
    {
      match workers[i]
      case Running(t) =>
        out := Finished(t);
        workers := workers[i := Waiting];
      case Waiting =>
        if !WaitSatisfied(isStop, tasks) {
          out := Blocked;
        } else if ShouldExit(isStop, tasks) {
          out := Exit;
          workers := workers[i := Exited];
        } else {
          var t := tasks[0];
          tasks := tasks[1..];
          popped := popped + [t];
          workers := workers[i := Running(t)];
          out := Took(t);
        }
    }

    /** The destructor: set the stop flag, then join the workers one after the
        other; the worker being joined keeps stepping until it returns. The
        result lists the tasks dequeued during the joins, in order. With at
        least one worker and nothing stranded, everything that was queued is
        dequeued in FIFO order and the queue ends empty; with no worker, the
        queue is left as it was. */
    method Destroy() returns (drained: seq<TaskId>)
      requires Valid()
      modifies this`workers, this`tasks, this`popped, this`isStop
      ensures Valid() && isStop
      ensures |workers| == old(|workers|)
      ensures forall k :: 0 <= k < |workers| ==> workers[k] == Exited
      ensures popped == old(popped) + drained
      ensures drained + tasks == old(tasks)
      ensures old(NoStrandedTasks()) ==> NoStrandedTasks()
      ensures old(NoStrandedTasks()) && |workers| > 0 ==> drained == old(tasks) && tasks == []
      ensures |workers| == 0 ==> drained == [] && tasks == old(tasks)
    {
      ghost var clean := NoStrandedTasks();
      Stop();
      drained := [];
      var w := 0;
      while w < |workers|
        invariant 0 <= w <= |workers|
        invariant Valid() && isStop
        invariant |workers| == old(|workers|)
        invariant forall k :: 0 <= k < w ==> workers[k] == Exited
        invariant popped == old(popped) + drained
        invariant drained + tasks == old(tasks)
        invariant clean ==> NoStrandedTasks()
        invariant w == 0 ==> drained == []
      {
        while !workers[w].Exited?
          invariant Valid() && isStop
          invariant |workers| == old(|workers|)
          invariant forall k :: 0 <= k < w ==> workers[k] == Exited
          invariant popped == old(popped) + drained
          invariant drained + tasks == old(tasks)
          invariant clean ==> NoStrandedTasks()
          decreases 2 * |tasks| + Rank(workers[w])
        {
          var out := WorkerStep(w);
          if out.Took? {
            drained := drained + [out.task];
          }
        }
        w := w + 1;
      }
      if clean && |workers| > 0 {
        assert workers[0].Exited?;
        assert tasks == [] && drained + tasks == drained;
      }
    }
  }

  /** A client: a pool of `numThreads` workers, every id of `ids` submitted, then
      the pool destroyed. With at least one worker every task is dequeued
      exactly once and in submission order; with none, nothing is. */
  method SubmitAndShutdown(numThreads: nat, ids: seq<TaskId>) returns (ran: seq<TaskId>)
    ensures numThreads >= 1 ==> ran == ids
    ensures numThreads == 0 ==> ran == []
  {
    var pool := new ThreadPool(numThreads);
    var n := 0;
    while n < |ids|
      invariant 0 <= n <= |ids|
      invariant pool.Valid() && pool.NoStrandedTasks() && !pool.isStop
      invariant |pool.workers| == numThreads
      invariant pool.tasks == ids[..n]
    {
      var r := pool.Enqueue(ids[n]);
      assert ids[..n + 1] == ids[..n] + [ids[n]];
      n := n + 1;
    }
    assert ids[..|ids|] == ids;
    ran := pool.Destroy();
  }

  /** A schedule where workers take tasks while submissions go on: two
      workers, three tasks, each of the first two taken right after it is
      submitted, the third drained by the destructor. The tasks are still
      dequeued in submission order. */
  method InterleavedSubmit() returns (taken: seq<TaskId>)
    ensures taken == [1, 2, 3]
  {
    var pool := new ThreadPool(2);
    var r := pool.Enqueue(1);
    assert pool.tasks == [1] && pool.workers == [Waiting, Waiting];
    var first := pool.WorkerStep(0);
    assert first == Took(1) && pool.tasks == [];
    r := pool.Enqueue(2);
    assert pool.tasks == [2] && pool.workers[1] == Waiting;
    var second := pool.WorkerStep(1);
    assert second == Took(2) && pool.tasks == [];
    r := pool.Enqueue(3);
    assert pool.tasks == [3] && |pool.workers| == 2 && pool.NoStrandedTasks();
    var drained := pool.Destroy();
    assert drained == [3];
    taken := [first.task, second.task] + drained;
  }

  /** The interleaving the separate check and push of `enqueue` allow: the check
      passes, the destructor sets the stop flag, the only worker sees a stopped
      pool with an empty queue and returns, and then the push goes through. The
      task is queued after stop, and no worker is left to take it. */
  method StopBetweenCheckAndPush() returns (pushedAfterStop: bool, allExited: bool, left: seq<TaskId>)
    ensures pushedAfterStop && allExited && left == [7]
  {
    var pool := new ThreadPool(1);
    var r := pool.EnqueueCheck();
    assert r == Accepted;
    pool.Stop();
    var out := pool.WorkerStep(0);
    assert out == Exit;
    pool.EnqueuePush(7);
    pushedAfterStop := pool.isStop;
    allExited := pool.workers[0].Exited?;
    left := pool.tasks;
  }
}
