/** The demo program's row-partitioned matrix-vector product.

    The matrix is a flat row-major sequence of `rows * cols` values, the
    vector has `cols` values and the result `rows`, all zero at first. Task
    `i` of `threadsNum` writes rows `[i * R, (i + 1) * R)`, where
    `R = rows / threadsNum`, with the dot product of that row of the matrix
    and the vector. Rows from `threadsNum * R` on belong to no task and stay 0.
    Tasks are run one after another on the shared result array, in whatever
    order the pool hands them out. */
module Demo {
  import opened Threadpool

  /** `a * c <= b * c` for `a <= b`. */
  lemma {:induction false} MulMonotone(a: nat, b: nat, c: nat)
    requires a <= b
    ensures a * c <= b * c
  {
    if c > 0 {
      MulMonotone(a, b, c - 1);
      assert a * c == a * (c - 1) + a;
      assert b * c == b * (c - 1) + b;
    }
  }

  /** Row `j < rows` of a flat `rows * cols` matrix ends inside the matrix. */
  lemma RowInMatrix(rows: nat, cols: nat, j: nat)
    requires j < rows
    ensures j * cols + cols <= rows * cols
  {
    MulMonotone(j + 1, rows, cols);
    assert (j + 1) * cols == j * cols + cols;
  }

  /** Every access `j * cols + k` the kernel makes lies inside a matrix of
      `rows * cols` values. */
  lemma MatrixIndexInBounds(rows: nat, cols: nat, j: nat, k: nat)
    requires j < rows && k < cols
    ensures j * cols + k < rows * cols
  {
    RowInMatrix(rows, cols, j);
  }

  /** `sum_{k < n} m[base + k] * v[k]`, accumulated from `k = 0` upwards as
      the kernel's inner loop does. */
  function Dot(m: seq<int>, base: nat, v: seq<int>, n: nat): (d: int)
    requires base + n <= |m| && n <= |v|
  {
    if n == 0 then 0 else Dot(m, base, v, n - 1) + m[base + n - 1] * v[n - 1]
  }

  function Zeros(n: nat): (z: seq<int>)
    ensures |z| == n && forall j :: 0 <= j < n ==> z[j] == 0
  {
    if n == 0 then [] else Zeros(n - 1) + [0]
  }

  /** The ids `0, 1, ..., n - 1` of the tasks the demo enqueues, in order. */
  function TaskIndices(n: nat): (s: seq<TaskId>)
    ensures |s| == n && forall i :: 0 <= i < n ==> s[i] == i
  {
    if n == 0 then [] else TaskIndices(n - 1) + [n - 1]
  }

  /** The values captured by every task: the matrix, the vector, their sizes
      and the number of tasks. */
  datatype Kernel = Kernel(matrix: seq<int>, vector: seq<int>, rows: nat, cols: nat, threadsNum: nat)
  {
    /** The sizes `generate` produces, and at least one task: with none,
        `rows / threadsNum` divides by zero. */
    predicate WellFormed()
    {
      |matrix| == rows * cols && |vector| == cols && threadsNum >= 1
    }

    /** `rows / threadsNum`, rounded down: the most rows each of the
        `threadsNum` tasks can get with all of them fitting in `rows`. */
    function RowsPerThread(): (r: nat)
      requires threadsNum >= 1
      ensures threadsNum * r <= rows < threadsNum * (r + 1)
    {
      assert rows == threadsNum * (rows / threadsNum) + rows % threadsNum;
      rows / threadsNum
    }

    /** The number of rows some task writes. */
    function Covered(): (c: nat)
      requires threadsNum >= 1
    {
      threadsNum * RowsPerThread()
    }

    /** Row `j` lies in the range task `i` writes; then task `i` is the one
        task `j / R` that owns the row. */
    predicate InTask(i: nat, j: nat): (b: bool)
      requires threadsNum >= 1
      ensures b ==> RowsPerThread() > 0 && j / RowsPerThread() == i
    {
      BlockOwner(i, j, RowsPerThread());
      i * RowsPerThread() <= j < (i + 1) * RowsPerThread()
    }

    /** The value the kernel stores into row `j`: the dot product of row `j`
        of the matrix, which starts at flat index `j * cols`, and the vector. */
    function RowValue(j: nat): (v: int)
      requires WellFormed() && j < rows
    {
      RowInMatrix(rows, cols, j);
      Dot(matrix, j * cols, vector, cols)
    }

    /** The result after task `i` runs on `result`. */
    function Task(i: nat, result: seq<int>): (r: seq<int>)
      requires WellFormed() && |result| == rows
    {
      seq(rows, j requires 0 <= j < rows => if InTask(i, j) then RowValue(j) else result[j])
    }

    /** The result after the tasks of `order` run one after another on `init`. */
    function RunTasks(order: seq<TaskId>, init: seq<int>): (r: seq<int>)
      requires WellFormed() && |init| == rows
      ensures |r| == rows
      decreases |order|
    {
      if order == [] then init
      else Task(order[|order| - 1], RunTasks(order[..|order| - 1], init))
    }

    /** The product the demo computes: the dot product on covered rows, 0 on
        the remainder rows. */
    function Expected(): (r: seq<int>)
      requires WellFormed()
    {
      seq(rows, j requires 0 <= j < rows => if j < Covered() then RowValue(j) else 0)
    }
  }

  /** No task writes outside `[0, threadsNum * R)`, and that range fits in the
      result: `threadsNum * (rows / threadsNum) <= rows`. */
  lemma TaskRowsInResult(kn: Kernel, i: nat, j: nat)
    requires kn.threadsNum >= 1 && i < kn.threadsNum && kn.InTask(i, j)
    ensures j < kn.Covered() <= kn.rows
  {
    var r := kn.RowsPerThread();
    MulMonotone(i + 1, kn.threadsNum, r);
    assert kn.rows == kn.threadsNum * r + kn.rows % kn.threadsNum;
  }

  /** Distinct tasks write disjoint row ranges. */
  lemma TasksDisjoint(kn: Kernel, i1: nat, i2: nat, j: nat)
    requires kn.threadsNum >= 1 && i1 != i2 && kn.InTask(i1, j)
    ensures !kn.InTask(i2, j)
  {
    var r := kn.RowsPerThread();
    if i1 < i2 {
      MulMonotone(i1 + 1, i2, r);
    } else {
      MulMonotone(i2 + 1, i1, r);
    }
  }

  /** The quotient and remainder of Euclidean division place `j` in the block
      of `r` values that starts at `(j / r) * r`. */
  lemma DivBlock(j: nat, r: nat)
    requires r > 0
    ensures (j / r) * r <= j < (j / r) * r + r
  {
    assert j == (j / r) * r + j % r;
  }

  /** The only block of `r` values that holds `j` is block `j / r`. */
  lemma BlockOwner(i: nat, j: nat, r: nat)
    ensures i * r <= j < (i + 1) * r ==> r > 0 && j / r == i
  {
    if i * r <= j < (i + 1) * r {
      assert (i + 1) * r == i * r + r;
      var q := j / r;
      DivBlock(j, r);
      assert (q + 1) * r == q * r + r;
      if q < i {
        MulMonotone(q + 1, i, r);
      } else if q > i {
        MulMonotone(i + 1, q, r);
      }
    }
  }

  /** Row `j < threadsNum * R` belongs to task `j / R`. */
  lemma CoveredRowOwner(kn: Kernel, j: nat) returns (i: nat)
    requires kn.threadsNum >= 1 && j < kn.Covered()
    ensures i < kn.threadsNum && kn.InTask(i, j)
  {
    var r := kn.RowsPerThread();
    var t := kn.threadsNum;
    assert t * r == kn.Covered();
    i := j / r;
    DivBlock(j, r);
    assert (i + 1) * r == i * r + r;
    if i >= t {
      MulMonotone(t, i, r);
      assert false;
    }
  }

  /** The tasks' ranges together are exactly `[0, threadsNum * R)`. */
  lemma TasksCover(kn: Kernel, j: nat)
    requires kn.threadsNum >= 1
    ensures j < kn.Covered() <==> exists i :: 0 <= i < kn.threadsNum && kn.InTask(i, j)
  {
    if j < kn.Covered() {
      var i := CoveredRowOwner(kn, j);
    } else {
      forall i | 0 <= i < kn.threadsNum
        ensures !kn.InTask(i, j)
      {
        if kn.InTask(i, j) {
          TaskRowsInResult(kn, i, j);
        }
      }
    }
  }

  /** After the tasks of `order` run, row `j` holds its dot product when some
      task of `order` owns it, and its initial value otherwise. */
  lemma {:induction false} RunTasksAt(kn: Kernel, order: seq<TaskId>, init: seq<int>, j: nat)
    requires kn.WellFormed() && |init| == kn.rows && j < kn.rows
    ensures kn.RunTasks(order, init)[j] ==
              if exists m :: 0 <= m < |order| && kn.InTask(order[m], j) then kn.RowValue(j) else init[j]
    decreases |order|
  {
    if order != [] {
      var front := order[..|order| - 1];
      var last := order[|order| - 1];
      RunTasksAt(kn, front, init, j);
      if kn.InTask(last, j) {
        assert kn.InTask(order[|order| - 1], j);
      } else {
        assert (exists m :: 0 <= m < |order| && kn.InTask(order[m], j)) <==>
               (exists m :: 0 <= m < |front| && kn.InTask(front[m], j)) by {
          forall m | 0 <= m < |order| && kn.InTask(order[m], j)
            ensures 0 <= m < |front| && kn.InTask(front[m], j)
          {
          }
          forall m | 0 <= m < |front| && kn.InTask(front[m], j)
            ensures kn.InTask(order[m], j)
          {
            assert front[m] == order[m];
          }
        }
      }
    }
  }

  /** Remainder rows `j >= threadsNum * R` are never written, whatever tasks run. */
  lemma RemainderRowsUntouched(kn: Kernel, order: seq<TaskId>, init: seq<int>, j: nat)
    requires kn.WellFormed() && |init| == kn.rows
    requires forall m :: 0 <= m < |order| ==> order[m] < kn.threadsNum
    requires kn.Covered() <= j < kn.rows
    ensures kn.RunTasks(order, init)[j] == init[j]
  {
    RunTasksAt(kn, order, init, j);
    TasksCover(kn, j);
  }

  /** Row `j` after every task has run at least once on the zeroed result. */
  lemma ScheduledRow(kn: Kernel, order: seq<TaskId>, j: nat)
    requires kn.WellFormed() && j < kn.rows
    requires forall m :: 0 <= m < |order| ==> order[m] < kn.threadsNum
    requires forall i :: 0 <= i < kn.threadsNum ==> i in order
    ensures kn.RunTasks(order, Zeros(kn.rows))[j] == if j < kn.Covered() then kn.RowValue(j) else 0
  {
    RunTasksAt(kn, order, Zeros(kn.rows), j);
    if j < kn.Covered() {
      var i := CoveredRowOwner(kn, j);
      assert i in order;
      var m :| 0 <= m < |order| && order[m] == i;
      assert kn.InTask(order[m], j);
    } else {
      TasksCover(kn, j);
    }
  }

  /** Running every task at least once, in any order, on the zeroed result
      gives the same result: the demo's product. */
  lemma ScheduleIndependent(kn: Kernel, order: seq<TaskId>)
    requires kn.WellFormed()
    requires forall m :: 0 <= m < |order| ==> order[m] < kn.threadsNum
    requires forall i :: 0 <= i < kn.threadsNum ==> i in order
    ensures kn.RunTasks(order, Zeros(kn.rows)) == kn.Expected()
  {
    forall j | 0 <= j < kn.rows
      ensures kn.RunTasks(order, Zeros(kn.rows))[j] == kn.Expected()[j]
    {
      ScheduledRow(kn, order, j);
    }
  }

  /** `generate`: a vector of `size` values, the `i`-th being the `i`-th value
      the generator yields (`gen(i)`). */
  method Generate(size: nat, gen: nat -> int) returns (r: seq<int>)
    ensures |r| == size
    ensures forall i :: 0 <= i < size ==> r[i] == gen(i)
  {
    var a := new int[size];
    var i := 0;
    while i < size
      invariant 0 <= i <= size
      invariant forall k :: 0 <= k < i ==> a[k] == gen(k)
    {
      a[i] := gen(i);
      i := i + 1;
    }
    r := a[..];
  }

  /** The inner loop of a task: the dot product of row `j` and the vector,
      accumulated in `currentResult`. */
  method RowProduct(kn: Kernel, j: nat) returns (currentResult: int)
    requires kn.WellFormed() && j < kn.rows
    ensures currentResult == kn.RowValue(j)
  {
    RowInMatrix(kn.rows, kn.cols, j);
    currentResult := 0;
    var k := 0;
    while k < kn.cols
      invariant 0 <= k <= kn.cols
      invariant currentResult == Dot(kn.matrix, j * kn.cols, kn.vector, k)
    {
      currentResult := currentResult + kn.matrix[j * kn.cols + k] * kn.vector[k];
      k := k + 1;
    }
  }

  /** Task `i` writes the rows `[i * R, (i + 1) * R)`, which fit in the result. */
  lemma TaskRange(kn: Kernel, i: nat)
    requires kn.threadsNum >= 1 && i < kn.threadsNum
    ensures i * kn.RowsPerThread() <= (i + 1) * kn.RowsPerThread() <= kn.rows
  {
    var r := kn.RowsPerThread();
    assert (i + 1) * r == i * r + r;
    if r > 0 {
      TaskRowsInResult(kn, i, (i + 1) * r - 1);
    }
  }

  /** The body of task `i`: for each of its rows, compute the row's product
      and store it. Nothing outside the task's rows changes. */
  method RunTask(kn: Kernel, i: nat, result: array<int>)
    requires kn.WellFormed() && i < kn.threadsNum && result.Length == kn.rows
    modifies result
    ensures result[..] == kn.Task(i, old(result[..]))
  {
    var rowsPerThread := kn.rows / kn.threadsNum;
    var first, last := i * rowsPerThread, (i + 1) * rowsPerThread;
    TaskRange(kn, i);
    ghost var before := result[..];
    var j := first;
    while j < last
      invariant first <= j <= last
      invariant forall m :: 0 <= m < kn.rows ==>
                  result[m] == if first <= m < j then kn.RowValue(m) else old(result[m])
    {
      result[j] := RowProduct(kn, j);
      j := j + 1;
    }
    forall m | 0 <= m < kn.rows
      ensures result[m] == kn.Task(i, before)[m]
    {
    }
  }

  /** Runs the tasks of `order` one after another on a zeroed result. Any
      order that runs every task gives the demo's product. */
  method MultiplyRows(kn: Kernel, order: seq<TaskId>) returns (result: seq<int>)
    requires kn.WellFormed()
    requires forall m :: 0 <= m < |order| ==> order[m] < kn.threadsNum
    ensures result == kn.RunTasks(order, Zeros(kn.rows))
    ensures (forall i :: 0 <= i < kn.threadsNum ==> i in order) ==> result == kn.Expected()
  {
    var a := new int[kn.rows](_ => 0);
    assert a[..] == Zeros(kn.rows);
    var m := 0;
    while m < |order|
      invariant 0 <= m <= |order|
      invariant a[..] == kn.RunTasks(order[..m], Zeros(kn.rows))
    {
      RunTask(kn, order[m], a);
      assert order[..m + 1][..m] == order[..m];
      m := m + 1;
    }
    assert order[..|order|] == order;
    result := a[..];
    if forall i :: 0 <= i < kn.threadsNum ==> i in order {
      ScheduleIndependent(kn, order);
    }
  }

  /** The demo without its option parsing and printing: generate the matrix
      and then the vector from one generator, create a pool of `threadsNum`
      workers, enqueue one task per worker, destroy the pool, and run the tasks
      in the order the pool dequeued them. */
  method RunDemo(threadsNum: nat, rows: nat, cols: nat, gen: nat -> int) returns (result: seq<int>)
    requires threadsNum >= 1
    ensures |result| == rows
    ensures forall j :: 0 <= j < rows ==>
              result[j] == Kernel(seq(rows * cols, k requires 0 <= k => gen(k)),
                                  seq(cols, k requires 0 <= k => gen(rows * cols + k)),
                                  rows, cols, threadsNum).Expected()[j]
  {
    var matrix := Generate(rows * cols, gen);
    var vector := Generate(cols, (k: nat) => gen(rows * cols + k));
    var kn := Kernel(matrix, vector, rows, cols, threadsNum);
    assert matrix == seq(rows * cols, k requires 0 <= k => gen(k));
    assert vector == seq(cols, k requires 0 <= k => gen(rows * cols + k));
    var ids := TaskIndices(threadsNum);
    var order := SubmitAndShutdown(threadsNum, ids);
    forall i | 0 <= i < threadsNum
      ensures i in order
    {
      assert order[i] == i;
    }
    result := MultiplyRows(kn, order);
  }
}
