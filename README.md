# threadpool-example in Dafny

A model of the two pieces of sequential logic in `threadpool-example`. Both are proved in Dafny.

1. **The thread pool's queue-and-stop state machine** (module `Threadpool`, `threadpool.dfy`).
   The class `ThreadPool` has the fields of the C++ class:
   - `tasks`, a FIFO of opaque task ids;
   - `isStop`, the stop flag;
   - `workers`, one entry per worker thread, giving where that thread's loop stands (`Waiting`, `Running(task)` or `Exited`).

   Each critical section is one atomic method:
   - the stop check of `enqueue` (`EnqueueCheck`) and its push (`EnqueuePush`), as two separate steps;
   - one pass of a worker through its locked section (`WorkerStep`): wait predicate, exit check, pop;
   - the destructor's flag set (`Stop`).

   `Destroy` is the whole destructor: it sets the flag, then runs the join loop. In the join loop, the worker being joined takes steps until it returns. Ghost logs of every push and every pop give the invariant `pushed == popped + tasks`. From it follow FIFO order and the fact that no task is taken twice.

2. **The demo's row-partitioned matrix-vector product** (module `Demo`, `demo.dfy`).
   - A `Kernel` value holds what every task captures: the matrix and the vector (as flat sequences), their sizes, and `threadsNum`.
   - Task `i` writes rows `[i * R, (i + 1) * R)` with `R = rows / threadsNum`.
   - `RunTask` is the task's body, working in place on the shared `result` array.
   - `MultiplyRows` runs tasks one after another in any order given.
   - `RunDemo` chains the demo's steps:
     1. generate the matrix, then the vector;
     2. enqueue one task per worker;
     3. destroy the pool;
     4. run the tasks in the order the pool dequeued them.

   As in the source, remainder rows (`j >= threadsNum * R`) are never written and stay 0.

The model follows the code in two behaviours worth knowing:
- Workers drain the queue after stop. A worker returns only when `isStop` is set and the queue is empty. Queued tasks are not discarded.
- A thread count of 0 is accepted by the constructor. It gives a pool that never runs anything.

## Model

| member | source | states |
|---|---|---|
| `Threadpool.FifoHandOff` | include/threadpool_example/threadpool.hpp:58-59 | if the pop log followed by the queue is the push log, then the tasks taken are exactly the first ones pushed, in push order, and the queue is the rest; with distinct ids, no task is taken twice and no task taken is still queued |
| `Threadpool.ThreadPool.TakenInPushOrder` | include/threadpool_example/threadpool.hpp:58-59 | for a valid pool: the tasks taken are the first ones pushed, in push order, and the queue is the rest; with distinct ids, none is taken twice and none taken is still queued |
| `Threadpool.WaitSatisfied` | include/threadpool_example/threadpool.hpp:52 | the wait predicate: a worker past it that does not exit has a task to pop, and the exit check is only reached past it |
| `Threadpool.ShouldExit` | include/threadpool_example/threadpool.hpp:54 | the exit check: it implies the pool is stopped, and it never holds while tasks remain |
| `Threadpool.ThreadPool.constructor` | include/threadpool_example/threadpool.hpp:44-47 | exactly `numThreads` workers, all about to wait; empty queue; `isStop` false; the invariant holds |
| `Threadpool.ThreadPool.EnqueueCheck` | include/threadpool_example/threadpool.hpp:72-77 | rejected (the thrown error) exactly when the pool is stopped; queue, flag and workers unchanged |
| `Threadpool.ThreadPool.EnqueuePush` | include/threadpool_example/threadpool.hpp:83-87 | for a call that passed the check: the queue becomes `old(tasks) + [t]`, without `isStop` being looked at again |
| `Threadpool.ThreadPool.Enqueue` | include/threadpool_example/threadpool.hpp:68-91 | `enqueue` with check and push under one lock: rejected exactly when stopped, with the queue unchanged; otherwise the queue becomes `old(tasks) + [t]`; keeps `NoStrandedTasks` |
| `Threadpool.ThreadPool.Stop` | include/threadpool_example/threadpool.hpp:94-97 | sets `isStop`; no method clears it: only `Stop` and `Destroy` (which calls `Stop` and ensures `isStop`) have `isStop` in their frame |
| `Threadpool.ThreadPool.WorkerStep` | include/threadpool_example/threadpool.hpp:47-63 | a running worker finishes its task; a waiting worker stays blocked while neither stop nor work is there, exits only when stopped with an empty queue, and otherwise pops the head (also after stop), leaving the rest in order; the other workers and the worker count are unchanged |
| `Threadpool.ThreadPool.Destroy` | include/threadpool_example/threadpool.hpp:93-103 | afterwards every worker has exited and `isStop` is set; the tasks dequeued during the joins are a FIFO prefix of the old queue; with at least one worker and nothing stranded, they are the whole old queue and it ends empty; with no worker, nothing is dequeued |
| `Threadpool.SubmitAndShutdown` | src/threadpool_example/demo.cpp:82-95 | a pool of `numThreads` workers, the ids submitted, then destroyed: with at least one worker, the dequeue order is exactly the submission order, with each task dequeued once; with none, nothing is dequeued |
| `Threadpool.InterleavedSubmit` | include/threadpool_example/threadpool.hpp:44-103 | two workers taking tasks while submissions go on, then the destructor: the dequeue order is still the submission order `[1, 2, 3]` |
| `Threadpool.StopBetweenCheckAndPush` | include/threadpool_example/threadpool.hpp:72-87 | a reachable interleaving: the check passes, the pool stops, the only worker exits, and then the push lands a task in the queue of a stopped pool with no worker left |
| `Demo.Kernel.RowsPerThread` | src/threadpool_example/demo.cpp:84 | `R = rows / threadsNum` rounded down: `threadsNum * R <= rows < threadsNum * (R + 1)` |
| `Demo.Kernel.InTask` | src/threadpool_example/demo.cpp:87 | row `j` is in task `i`'s range `[i * R, (i + 1) * R)`; then `R > 0` and `i == j / R`, so each row has at most one owner |
| `Demo.Dot` | src/threadpool_example/demo.cpp:88-90 | the reference sum `sum_{k < n} matrix[base + k] * vector[k]`, accumulated in the inner loop's order |
| `Demo.Kernel.Task` | src/threadpool_example/demo.cpp:87-93 | the reference effect of task `i`: the dot product on its own rows, every other row as before |
| `Demo.Kernel.RunTasks` | src/threadpool_example/demo.cpp:86-94 | the reference effect of running a sequence of tasks one after another; the result keeps `rows` entries |
| `Demo.Kernel.Expected` | src/threadpool_example/demo.cpp:74-94 | the reference product: the dot product on rows below `threadsNum * R`, 0 on the remainder rows |
| `Demo.MatrixIndexInBounds` | src/threadpool_example/demo.cpp:90 | every matrix access `j * cols + k` with `j < rows`, `k < cols` is below `rows * cols`, the size `generate` gives the matrix |
| `Demo.TaskRowsInResult` | src/threadpool_example/demo.cpp:84-87 | every row a task writes is below `threadsNum * R`, and `threadsNum * R <= rows`, so it is within `result` |
| `Demo.TaskRange` | src/threadpool_example/demo.cpp:87 | task `i`'s row range `[i * R, (i + 1) * R)` is well ordered and ends within `result` |
| `Demo.TasksDisjoint` | src/threadpool_example/demo.cpp:85-87 | distinct tasks write disjoint row ranges |
| `Demo.CoveredRowOwner` | src/threadpool_example/demo.cpp:84-87 | every row below `threadsNum * R` lies in the range of some task `i < threadsNum` |
| `Demo.TasksCover` | src/threadpool_example/demo.cpp:85-87 | a row lies in some task's range if and only if it is below `threadsNum * R` |
| `Demo.RunTasksAt` | src/threadpool_example/demo.cpp:86-94 | after any sequence of tasks, a row holds its dot product if some task of the sequence owns it, and its initial value otherwise |
| `Demo.RemainderRowsUntouched` | src/threadpool_example/demo.cpp:84-87 | rows `j >= threadsNum * R` keep their initial value, whatever tasks run |
| `Demo.ScheduledRow` | src/threadpool_example/demo.cpp:86-94 | once every task has run at least once on a zeroed result, a covered row holds its dot product and a remainder row is 0 |
| `Demo.ScheduleIndependent` | src/threadpool_example/demo.cpp:86-94 | any order that runs every task at least once yields the same result, the demo's product |
| `Demo.Zeros` | src/threadpool_example/demo.cpp:74 | the freshly sized result: `rows` zeros |
| `Demo.TaskIndices` | src/threadpool_example/demo.cpp:85 | the task ids `0 .. threadsNum - 1`, in the order they are enqueued |
| `Demo.Generate` | src/threadpool_example/demo.cpp:118-121 | a vector of exactly `size` values whose `i`-th value is the generator's `i`-th output |
| `Demo.RowProduct` | src/threadpool_example/demo.cpp:88-91 | the inner loop's `currentResult` is `sum_{k < cols} matrix[j * cols + k] * vector[k]` |
| `Demo.RunTask` | src/threadpool_example/demo.cpp:86-94 | task `i` stores each of its rows' dot product into `result` in place, and changes no other row |
| `Demo.MultiplyRows` | src/threadpool_example/demo.cpp:74-95 | running the tasks of any order on a zeroed `result` gives the sequential composition of the tasks; when every task runs, the result is the product on covered rows and 0 on the remainder rows |
| `Demo.RunDemo` | src/threadpool_example/demo.cpp:71-95 | with the matrix and then the vector drawn from one generator, and the tasks run in the order the pool dequeues them, the result is the row-partitioned product of that matrix and vector |

## Left out

- Real threads, `std::mutex`, `std::condition_variable` (`notify_one`, `notify_all`, spurious wake-ups) and the blocking in `join`. Each critical section is one atomic method, and no concurrent execution is verified.
- Threadpool.ThreadPool.Destroy: the join loop lets only the worker being joined take steps. Other workers moving at the same time is not modelled. That is one admissible schedule, and any worker still waiting is stepped when its own join comes.
- Threadpool.ThreadPool.WorkerStep: requires that the worker has not exited, because a thread whose loop returned takes no further steps.
- `std::packaged_task` and `std::future`: result delivery and exception transport. Task results and failures inside tasks are not modelled, and tasks are opaque ids. In the demo, the pool model decides the dequeue order, and the kernel tasks then run one after another in that order. `MultiplyRows` is proved for every order.
- The `hardware_concurrency() - 1` default thread count, which is an environment query. A query returning 1 gives `threadsNum == 0` and the division by zero in `rows / threadsNum`, which is why `RunDemo` requires `threadsNum >= 1`. A query returning 0 wraps to `SIZE_MAX`, a huge count that the model's unbounded `nat` does not capture.
- Threadpool.SubmitAndShutdown: submits every id before any worker steps, which is one admissible schedule. Workers popping while the submissions go on are shown on one concrete schedule by `InterleavedSubmit` and are covered in general by the contracts of `Enqueue` and `WorkerStep`.
- C++ `int` overflow in `currentResult`, and `size_t` wrap-around of `matrixRows * matrixCols` and of the row indices. The model uses mathematical integers.
- `std::random_device`, `mt19937` and the `[-9, 9]` distribution. The generator is a parameter `gen: nat -> int` that gives its successive outputs.
- Option parsing (`boost::program_options`), `printMatrix`, `printVector`, the console messages of `main`, and its exception handlers.

## Findings

| source | as written | input that shows it | evidently intended | confidence | as-written member | corrected member |
|---|---|---|---|---|---|---|
| include/threadpool_example/threadpool.hpp:72-87 | `enqueue` checks `isStop` in one critical section and pushes in a second one, so a task can be pushed after stop | one worker: the check passes; the destructor sets `isStop`; the worker sees a stopped pool with an empty queue and returns; the push then queues a task that no worker will ever take. This needs a caller destroying the pool while another thread is still inside `enqueue`. The stranded `packaged_task` never runs: it is destroyed unrun with the `tasks` member after the destructor body, so its future becomes ready with `std::future_error` (`broken_promise`) instead of the task's result | no task is accepted once stop is set: check and push under one lock, as `Enqueue` does, which keeps `NoStrandedTasks` | medium: reachable only when `enqueue` overlaps the destructor; not executed | `Threadpool.StopBetweenCheckAndPush` | `Threadpool.ThreadPool.Enqueue` |
