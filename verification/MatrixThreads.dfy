/** The two threaded matrix products of matrix/matrix.c and pthread/multithread_example.c. */
module MatrixThreads {
  import opened Bytes
  import opened Sums

  /** Addition and multiplication, about which nothing is assumed: they may round. */
  datatype Ops<!V> = Ops(zero: V, add: (V, V) -> V, mul: (V, V) -> V)

  predicate Shape<V>(m: seq<seq<V>>, rows: nat, cols: nat) {
    |m| == rows && forall i :: 0 <= i < rows ==> |m[i]| == cols
  }

  /** The first `n` products of row i and column j, added up from left to right. */
  function Dot<V>(ops: Ops<V>, a: seq<seq<V>>, b: seq<seq<V>>, i: nat, j: nat, n: nat): V
    requires i < |a| && n <= |a[i]| && n <= |b| && forall k :: 0 <= k < n ==> j < |b[k]|
  {
    if n == 0 then ops.zero
    else ops.add(Dot(ops, a, b, i, j, n - 1), ops.mul(a[i][n - 1], b[n - 1][j]))
  }

  /** The order of the additions, on three products. */
  lemma LeftToRight<V>(ops: Ops<V>, a: seq<seq<V>>, b: seq<seq<V>>, i: nat, j: nat)
    requires i < |a| && 3 <= |a[i]| && 3 <= |b| && forall k :: 0 <= k < 3 ==> j < |b[k]|
    ensures var p, q, r := ops.mul(a[i][0], b[0][j]), ops.mul(a[i][1], b[1][j]), ops.mul(a[i][2], b[2][j]);
            Dot(ops, a, b, i, j, 3) == ops.add(ops.add(ops.add(ops.zero, p), q), r)
  {
    assert Dot(ops, a, b, i, j, 0) == ops.zero;
    assert Dot(ops, a, b, i, j, 1) == ops.add(ops.zero, ops.mul(a[i][0], b[0][j]));
  }

  function Exact(): Ops<real> { Ops(0.0, (x: real, y: real) => x + y, (x: real, y: real) => x * y) }

  function Unit(n: nat): (m: seq<seq<real>>)
    ensures Shape(m, n, n)
    ensures forall i, j :: 0 <= i < n && 0 <= j < n ==> m[i][j] == if i == j then 1.0 else 0.0
  {
    seq(n, i => seq(n, j => if i == j then 1.0 else 0.0))
  }

  /** Without rounding, the unit matrix on either side changes nothing. */
  lemma {:induction false} UnitRight(a: seq<seq<real>>, i: nat, j: nat, n: nat, k: nat)
    requires i < |a| && |a[i]| == n && j < n && k <= n
    ensures Dot(Exact(), a, Unit(n), i, j, k) == if j < k then a[i][j] else 0.0
  {
    hide Unit;
    if k > 0 { UnitRight(a, i, j, n, k - 1); }
  }

  lemma {:induction false} UnitLeft(b: seq<seq<real>>, i: nat, j: nat, n: nat, k: nat)
    requires |b| == n && i < n && k <= n && forall x :: 0 <= x < n ==> j < |b[x]|
    ensures Dot(Exact(), Unit(n), b, i, j, k) == if i < k then b[i][j] else 0.0
  {
    hide Unit;
    if k > 0 { UnitLeft(b, i, j, n, k - 1); }
  }

  // ----- splitting the rows -----

  datatype Range = Range(start: nat, end: nat)

  /** The ranges follow each other without gap or overlap, from row 0 to the last row. */
  ghost predicate Partition(ranges: seq<Range>, rows: nat) {
    && |ranges| > 0 && ranges[0].start == 0 && ranges[|ranges| - 1].end == rows
    && (forall t :: 0 <= t < |ranges| ==> ranges[t].start <= ranges[t].end)
    && forall t {:trigger ranges[t].end} :: 0 <= t < |ranges| - 1 ==> ranges[t].end == ranges[t + 1].start
  }

  lemma {:induction false} Ordered(ranges: seq<Range>, rows: nat, t: nat, u: nat)
    requires Partition(ranges, rows) && t < u < |ranges|
    ensures ranges[t].end <= ranges[u].start && ranges[u].end <= rows
    decreases |ranges| - t
  {
    assert ranges[t].end == ranges[t + 1].start;
    if t + 1 < u {
      Ordered(ranges, rows, t + 1, u);
    } else if u < |ranges| - 1 {
      assert ranges[u].end == ranges[u + 1].start;
      Ordered(ranges, rows, u, u + 1);
    }
  }

  /** Every row belongs to exactly one thread. */
  lemma OneOwner(ranges: seq<Range>, rows: nat, row: nat)
    requires Partition(ranges, rows) && row < rows
    ensures exists t :: 0 <= t < |ranges| && Owns(ranges[t], row)
    ensures forall t, u :: 0 <= t < u < |ranges| ==> !(Owns(ranges[t], row) && Owns(ranges[u], row))
  {
    OwnerUpTo(ranges, rows, row, |ranges|);
    forall t, u | 0 <= t < u < |ranges| ensures !(Owns(ranges[t], row) && Owns(ranges[u], row)) {
      Ordered(ranges, rows, t, u);
    }
  }

  /** No thread has more than one row more than another, and the longer ranges come first. */
  ghost predicate Balanced(ranges: seq<Range>) {
    forall t, u :: 0 <= t < u < |ranges| ==> Rows(ranges[u]) <= Rows(ranges[t]) <= Rows(ranges[u]) + 1
  }

  function Rows(r: Range): int { r.end - r.start }

  predicate Owns(r: Range, row: nat) { r.start <= row < r.end }

  lemma {:induction false} OwnerUpTo(ranges: seq<Range>, rows: nat, row: nat, n: nat)
    requires Partition(ranges, rows) && 0 < n <= |ranges| && row < ranges[n - 1].end
    ensures exists t :: 0 <= t < n && Owns(ranges[t], row)
  {
    if Owns(ranges[n - 1], row) {
    } else if n > 1 {
      assert ranges[n - 2].end == ranges[n - 1].start;
      OwnerUpTo(ranges, rows, row, n - 1);
    }
  }

  /** The number of threads that are really started. */
  function Threads(rows: nat, requested: int): (n: int)
    ensures rows > 0 ==> 1 <= n <= rows
    ensures n == 0 <==> rows == 0
  {
    var n := if requested <= 0 then 1 else requested;
    if n > rows then rows else n
  }

  /** The first row of the t-th thread, when the first `r` threads take one row more than `q`. */
  function FirstRow(q: nat, r: nat, t: nat): nat {
    q * t + if t < r then t else r
  }

  lemma FirstRows(q: nat, r: nat, t: nat)
    ensures FirstRow(q, r, 0) == 0
    ensures FirstRow(q, r, t + 1) == FirstRow(q, r, t) + q + if t < r then 1 else 0
  {
    NextProduct(q, t);
  }

  method Divide(rows: nat, n: nat) returns (q: nat, r: nat)
    requires n > 0
    ensures r < n && Times(n, q) <= rows && FirstRow(q, r, n) == rows
  {
    q, r := rows / n, rows % n;
  }

  ghost predicate Split(ranges: seq<Range>, q: nat, r: nat) {
    forall t {:trigger ranges[t]} :: 0 <= t < |ranges| ==>
      ranges[t] == Range(FirstRow(q, r, t), FirstRow(q, r, t) + q + if t < r then 1 else 0)
  }

  lemma SplitGrows(ranges: seq<Range>, q: nat, r: nat, range: Range)
    requires Split(ranges, q, r)
    requires range.start == FirstRow(q, r, |ranges|)
    requires range.end == range.start + q + if |ranges| < r then 1 else 0
    ensures Split(ranges + [range], q, r) && range.end == FirstRow(q, r, |ranges| + 1)
  {
    hide FirstRow;
    FirstRows(q, r, |ranges|);
  }

  lemma SplitIsPartition(ranges: seq<Range>, q: nat, r: nat, rows: nat)
    requires Split(ranges, q, r) && |ranges| > 0 && FirstRow(q, r, |ranges|) == rows
    ensures Partition(ranges, rows)
  {
    hide FirstRow;
    FirstRows(q, r, |ranges| - 1);
    forall t | 0 <= t < |ranges| - 1 ensures ranges[t].end == ranges[t + 1].start {
      FirstRows(q, r, t);
    }
  }

  lemma SplitIsBalanced(ranges: seq<Range>, q: nat, r: nat)
    requires Split(ranges, q, r)
    ensures Balanced(ranges)
  {
    hide FirstRow;
    forall t, u | 0 <= t < u < |ranges| ensures Rows(ranges[u]) <= Rows(ranges[t]) <= Rows(ranges[u]) + 1 {
      assert Rows(ranges[t]) == q + if t < r then 1 else 0;
      assert Rows(ranges[u]) == q + if u < r then 1 else 0;
    }
  }

  /** The row ranges of `multiplyMatricesOptimized_Parallel`: the first threads take one row more. */
  method SplitRows(rows: nat, requested: int) returns (ranges: seq<Range>)
    requires rows >= 1
    ensures |ranges| == Threads(rows, requested) && Partition(ranges, rows) && Balanced(ranges)
  {
    hide FirstRow, Times, Balanced, Partition, Split;
    var numThreads := Threads(rows, requested);
    var rowsPerThread, remainingRows := Divide(rows, numThreads);
    NothingSplit(rowsPerThread, remainingRows);
    ranges := [];
    var currentRow := 0;
    var i := 0;
    while i < numThreads
      invariant 0 <= i <= numThreads && |ranges| == i && currentRow == FirstRow(rowsPerThread, remainingRows, i)
      invariant Split(ranges, rowsPerThread, remainingRows)
    {
      var range := Range(currentRow, currentRow + rowsPerThread + if i < remainingRows then 1 else 0);
      SplitGrows(ranges, rowsPerThread, remainingRows, range);
      ranges := ranges + [range];
      currentRow := range.end;
      i := i + 1;
    }
    SplitIsPartition(ranges, rowsPerThread, remainingRows, rows);
    SplitIsBalanced(ranges, rowsPerThread, remainingRows);
  }

  lemma NothingSplit(q: nat, r: nat)
    ensures Split([], q, r) && FirstRow(q, r, 0) == 0
  {
  }

  lemma NextProduct(x: nat, i: nat)
    ensures x * (i + 1) == x * i + x
  {
  }

  /** The row ranges of `matrix_multiply_threaded`: the last thread takes what is left over. */
  method SplitRowsEvenly(rows: nat, numThreads: nat) returns (ranges: seq<Range>)
    requires numThreads >= 1
    ensures |ranges| == numThreads && Partition(ranges, rows)
  {
    hide Times;
    var rowsPerThread, _ := Divide(rows, numThreads);
    NextTimes(rowsPerThread, 0);
    ranges := [];
    var i := 0;
    while i < numThreads
      invariant 0 <= i <= numThreads && |ranges| == i
      invariant forall t :: 0 <= t < i ==>
                  && ranges[t].start == Times(t, rowsPerThread) <= ranges[t].end
                  && ranges[t].end == if t == numThreads - 1 then rows else Times(t + 1, rowsPerThread)
    {
      TimesIs(rowsPerThread, i);
      TimesIs(rowsPerThread, i + 1);
      NextTimes(rowsPerThread, i);
      TimesUpTo(rowsPerThread, i, numThreads);
      var start := i * rowsPerThread;
      var end := if i == numThreads - 1 then rows else (i + 1) * rowsPerThread;
      ranges := ranges + [Range(start, end)];
      i := i + 1;
    }
  }

  function Times(x: nat, y: nat): nat { x * y }

  lemma TimesIs(y: nat, x: nat)
    ensures Times(x, y) == x * y == y * x
  {
  }

  lemma NextTimes(y: nat, x: nat)
    ensures Times(0, y) == 0 && Times(x + 1, y) == Times(x, y) + y
  {
  }

  lemma TimesUpTo(y: nat, x: nat, n: nat)
    requires x <= n
    ensures Times(x, y) <= Times(n, y)
  {
  }

  // ----- the work that is left -----

  function Minus(x: nat, y: nat): nat { if y <= x then x - y else 0 }

  // ----- the workers of matrix.c, interleaved -----

  /** Where a worker is in its three loops; `Loaded` is between reading and writing one entry of C. */
  datatype Pc<V> = At(i: nat, k: nat, j: nat) | Loaded(i: nat, k: nat, j: nat, reg: V) | Done

  /** The product, while several workers are at it. */
  class Product<V(0)> {
    const ops: Ops<V>
    const a: seq<seq<V>>
    const b: seq<seq<V>>
    const rows: nat
    const inner: nat
    const cols: nat
    const c: array2<V>

    ghost predicate Shaped() {
      && Shape(a, rows, inner) && Shape(b, inner, cols)
      && c.Length0 == rows && c.Length1 == cols
    }

    /** `createMatrix` for the result: all entries zero. */
    constructor (ops: Ops<V>, a: seq<seq<V>>, b: seq<seq<V>>, rows: nat, inner: nat, cols: nat)
      requires Shape(a, rows, inner) && Shape(b, inner, cols)
      ensures Shaped() && fresh(c)
      ensures this.ops == ops && this.a == a && this.b == b
      ensures this.rows == rows && this.inner == inner && this.cols == cols
      ensures forall i, j :: 0 <= i < rows && 0 <= j < cols ==> c[i, j] == ops.zero
    {
      this.ops, this.a, this.b := ops, a, b;
      this.rows, this.inner, this.cols := rows, inner, cols;
      c := new V[rows, cols]((i, j) => ops.zero);
    }

    /** How many products entry (i, j) holds when its worker is at `pc`. */
    function Added(range: Range, pc: Pc<V>, i: nat, j: nat): (n: nat)
      ensures n <= inner
    {
      match pc
      case Done => inner
      case At(pi, pk, pj) => if i < pi then inner else if i > pi then 0 else Part(pk, if j < pj then 1 else 0)
      case Loaded(pi, pk, pj, _) => if i < pi then inner else if i > pi then 0 else Part(pk, if j < pj then 1 else 0)
    }

    function Part(k: nat, one: nat): (n: nat)
      ensures n <= inner
    {
      if k + one <= inner then k + one else inner
    }

    /** A worker is inside its rows, and what it has read is still what stands there. */
    ghost predicate InPlace(range: Range, pc: Pc<V>)
      requires Shaped()
      reads c
    {
      match pc
      case Done => true
      case At(i, k, j) =>
        range.start <= i <= range.end && k <= inner && j <= cols && (k == inner ==> j == 0)
        && (i == range.end ==> k == 0 && j == 0)
      case Loaded(i, k, j, reg) =>
        range.start <= i < range.end <= rows && k < inner && j < cols && reg == c[i, j]
    }

    /** The rows of one worker hold partial sums up to where the worker is. */
    ghost predicate RowsHold(range: Range, pc: Pc<V>)
      requires Shaped()
      reads c
    {
      forall i, j :: range.start <= i < range.end && 0 <= i < rows && 0 <= j < cols ==>
                       c[i, j] == Dot(ops, a, b, i, j, Added(range, pc, i, j))
    }

    /** Work left to a worker: an upper bound on its remaining steps. */
    function Work(range: Range, pc: Pc<V>): nat {
      var line := 2 * cols + 1;
      var row := Times(inner, line) + 2 * cols + 2;
      match pc
      case Done => 0
      case At(i, k, j) => Times(Minus(range.end, i), row) + Times(Minus(inner, k), line) + 2 * Minus(cols, j) + 1
      case Loaded(i, k, j, _) => Times(Minus(range.end, i), row) + Times(Minus(inner, k), line) + 2 * Minus(cols, j)
    }

    lemma LessWork(range: Range, pc: Pc<V>, next: Pc<V>)
      requires match pc
               case Done => false
               case Loaded(i, k, j, _) => j < cols && next == At(i, k, j + 1)
               case At(i, k, j) =>
                 if i == range.end then next == Done
                 else i < range.end && if k == inner then j == 0 && next == At(i + 1, 0, 0)
                 else k < inner && if j == cols then next == At(i, k + 1, 0)
                 else j < cols && next.Loaded? && next.i == i && next.k == k && next.j == j
      ensures Work(range, next) < Work(range, pc)
    {
      hide Times;
      var line := 2 * cols + 1;
      var row := Times(inner, line) + 2 * cols + 2;
      if pc.At? && next.At? {
        if next.i == pc.i + 1 {
          NextTimes(row, Minus(range.end, next.i));
          NextTimes(line, 0);
        } else {
          NextTimes(line, Minus(inner, next.k));
        }
      }
    }

    /** One step of one worker: advance a loop, read an entry of C, or write it back. */
    method Step(range: Range, pc: Pc<V>) returns (next: Pc<V>)
      requires Shaped() && range.end <= rows
      requires InPlace(range, pc) && RowsHold(range, pc) && pc != Done
      modifies c
      ensures InPlace(range, next) && RowsHold(range, next)
      ensures forall i, j :: 0 <= i < rows && 0 <= j < cols && !Owns(range, i) ==> c[i, j] == old(c[i, j])
      ensures Work(range, next) < Work(range, pc)
    {
      match pc {
        case At(i, k, j) =>
          if i == range.end {
            next := Done;
          } else if k == inner {
            next := At(i + 1, 0, 0);
          } else if j == cols {
            next := At(i, k + 1, 0);
          } else {
            next := Loaded(i, k, j, c[i, j]);
          }
        case Loaded(i, k, j, reg) =>
          c[i, j] := ops.add(reg, ops.mul(a[i][k], b[k][j]));
          next := At(i, k, j + 1);
      }
      LessWork(range, pc, next);
    }

    ghost predicate AllInPlace(ranges: seq<Range>, pcs: seq<Pc<V>>)
      requires Shaped() && |pcs| == |ranges|
      reads c
    {
      forall t :: 0 <= t < |ranges| ==> InPlace(ranges[t], pcs[t]) && RowsHold(ranges[t], pcs[t])
    }

    function TotalWork(ranges: seq<Range>, pcs: seq<Pc<V>>): nat
      requires |pcs| == |ranges|
    {
      Sum(seq(|pcs|, t requires 0 <= t < |pcs| => Work(ranges[t], pcs[t])))
    }

    lemma LessTotalWork(ranges: seq<Range>, pcs: seq<Pc<V>>, t: nat, next: Pc<V>)
      requires |pcs| == |ranges| && t < |pcs| && Work(ranges[t], next) < Work(ranges[t], pcs[t])
      ensures TotalWork(ranges, pcs[t := next]) < TotalWork(ranges, pcs)
    {
      hide Work;
      var works := seq(|pcs|, u requires 0 <= u < |pcs| => Work(ranges[u], pcs[u]));
      SumUpdated(works, t, Work(ranges[t], next));
      assert seq(|pcs|, u requires 0 <= u < |pcs| => Work(ranges[u], pcs[t := next][u]))
          == works[t := Work(ranges[t], next)];
    }

    /** One step of some worker disturbs no other. */
    method StepOf(ranges: seq<Range>, pcs: seq<Pc<V>>, t: nat) returns (next: seq<Pc<V>>)
      requires Shaped() && Partition(ranges, rows) && |pcs| == |ranges|
      requires AllInPlace(ranges, pcs) && t < |pcs| && pcs[t] != Done
      modifies c
      ensures |next| == |pcs| && AllInPlace(ranges, next)
      ensures TotalWork(ranges, next) < TotalWork(ranges, pcs)
    {
      hide Work, Partition, TotalWork;
      RangesInside(ranges, rows, t);
      label Before:
      var pc := Step(ranges[t], pcs[t]);
      next := pcs[t := pc];
      LessTotalWork(ranges, pcs, t, pc);
      forall u | 0 <= u < |ranges| ensures InPlace(ranges[u], next[u]) && RowsHold(ranges[u], next[u]) {
        if u != t {
          RangesInside(ranges, rows, u);
          Disjoint(ranges, rows, t, u);
          assert old@Before(InPlace(ranges[u], pcs[u]) && RowsHold(ranges[u], pcs[u]));
          assert forall i, j :: ranges[u].start <= i < ranges[u].end && 0 <= j < cols ==> c[i, j] == old(c[i, j]);
        }
      }
    }

    /**
     * Some schedule of the workers, one step at a time, until all are done: it comes to an end,
     * and the result is the sequential product.
     */
    method Run(ranges: seq<Range>)
      requires Shaped() && Partition(ranges, rows)
      requires forall i, j :: 0 <= i < rows && 0 <= j < cols ==> c[i, j] == ops.zero
      modifies c
      ensures forall i, j :: 0 <= i < rows && 0 <= j < cols ==> c[i, j] == Dot(ops, a, b, i, j, inner)
    {
      hide Partition, TotalWork, Work;
      var pcs := seq(|ranges|, t requires 0 <= t < |ranges| => At(ranges[t].start, 0, 0));
      forall t | 0 <= t < |ranges| ensures InPlace(ranges[t], pcs[t]) && RowsHold(ranges[t], pcs[t]) {
        RangesInside(ranges, rows, t);
      }
      while exists t :: 0 <= t < |pcs| && pcs[t] != Done
        invariant |pcs| == |ranges| && AllInPlace(ranges, pcs)
        decreases TotalWork(ranges, pcs)
      {
        var t :| 0 <= t < |pcs| && pcs[t] != Done;
        pcs := StepOf(ranges, pcs, t);
      }
      forall i, j | 0 <= i < rows && 0 <= j < cols ensures c[i, j] == Dot(ops, a, b, i, j, inner) {
        OneOwner(ranges, rows, i);
        var t :| 0 <= t < |ranges| && Owns(ranges[t], i);
        assert pcs[t] == Done && RowsHold(ranges[t], pcs[t]);
      }
    }
  }

  lemma RangesInside(ranges: seq<Range>, rows: nat, t: nat)
    requires Partition(ranges, rows) && t < |ranges|
    ensures ranges[t].start <= ranges[t].end <= rows
  {
    if t < |ranges| - 1 { Ordered(ranges, rows, t, |ranges| - 1); }
  }

  lemma Disjoint(ranges: seq<Range>, rows: nat, t: nat, u: nat)
    requires Partition(ranges, rows) && t < |ranges| && u < |ranges| && t != u
    ensures ranges[t].end <= ranges[u].start || ranges[u].end <= ranges[t].start
  {
    if t < u { Ordered(ranges, rows, t, u); } else { Ordered(ranges, rows, u, t); }
  }

  /** `multiplyMatricesOptimized_Parallel`: None when the shapes do not fit. */
  method MultiplyParallel<V(0)>(ops: Ops<V>, a: seq<seq<V>>, b: seq<seq<V>>, rows: nat, aCols: nat,
                                bRows: nat, cols: nat, numThreads: int)
      returns (c: Option<array2<V>>)
    requires Shape(a, rows, aCols) && Shape(b, bRows, cols) && rows >= 1
    ensures c.None? <==> aCols != bRows
    ensures c.Some? ==>
              && fresh(c.value) && c.value.Length0 == rows && c.value.Length1 == cols
              && forall i, j :: 0 <= i < rows && 0 <= j < cols ==> c.value[i, j] == Dot(ops, a, b, i, j, aCols)
  {
    if aCols != bRows { return None; }
    var product := new Product(ops, a, b, rows, aCols, cols);
    var ranges := SplitRows(rows, numThreads);
    product.Run(ranges);
    return Some(product.c);
  }

  // ----- the product with a transposed copy, interleaved -----

  /** Where a worker is in its three loops, with its running sum. */
  datatype Cursor<V> = Summing(i: nat, j: nat, k: nat, sum: V) | Finished

  class Transposed<V(0)> {
    const ops: Ops<V>
    const a: seq<seq<V>>
    const b: seq<seq<V>>
    const rows: nat
    const inner: nat
    const cols: nat
    const bT: array2<V>
    const c: array2<V>

    ghost predicate Shaped() {
      && Shape(a, rows, inner) && Shape(b, inner, cols) && bT != c
      && bT.Length0 == cols && bT.Length1 == inner && c.Length0 == rows && c.Length1 == cols
    }

    constructor (ops: Ops<V>, a: seq<seq<V>>, b: seq<seq<V>>, rows: nat, inner: nat, cols: nat,
                 bT: array2<V>, c: array2<V>)
      ensures this.ops == ops && this.a == a && this.b == b && this.bT == bT && this.c == c
      ensures this.rows == rows && this.inner == inner && this.cols == cols
    {
      this.ops, this.a, this.b := ops, a, b;
      this.rows, this.inner, this.cols := rows, inner, cols;
      this.bT, this.c := bT, c;
    }

    ghost predicate Copied()
      requires Shaped()
      reads bT
    {
      forall i, j :: 0 <= i < inner && 0 <= j < cols ==> bT[j, i] == b[i][j]
    }

    /** `transpose_B`. */
    method Transpose()
      requires Shaped()
      modifies bT
      ensures Copied()
    {
      var i := 0;
      while i < inner
        invariant 0 <= i <= inner
        invariant forall x, y :: 0 <= x < i && 0 <= y < cols ==> bT[y, x] == b[x][y]
      {
        var j := 0;
        while j < cols
          invariant 0 <= j <= cols
          invariant forall x, y :: 0 <= x < i && 0 <= y < cols ==> bT[y, x] == b[x][y]
          invariant forall y :: 0 <= y < j ==> bT[y, i] == b[i][y]
        {
          bT[j, i] := b[i][j];
          j := j + 1;
        }
        i := i + 1;
      }
    }

    /** A worker is inside its rows and holds the first `k` products of its entry. */
    ghost predicate InPlace(range: Range, at: Cursor<V>)
      requires Shaped() && range.end <= rows
    {
      match at
      case Finished => true
      case Summing(i, j, k, sum) =>
        && range.start <= i <= range.end && j <= cols && k <= inner && (j == cols ==> k == 0)
        && (i == range.end ==> j == 0 && k == 0)
        && (i < range.end && j < cols ==> sum == Dot(ops, a, b, i, j, k))
    }

    predicate Written(at: Cursor<V>, i: nat, j: nat) {
      at.Finished? || i < at.i || (i == at.i && j < at.j)
    }

    /** The entries a worker has written hold their sums. */
    ghost predicate RowsHold(range: Range, at: Cursor<V>)
      requires Shaped()
      reads c
    {
      forall i, j :: range.start <= i < range.end && 0 <= i < rows && 0 <= j < cols && Written(at, i, j) ==>
                       c[i, j] == Dot(ops, a, b, i, j, inner)
    }

    /** Work left to a worker: an upper bound on its remaining steps. */
    function Work(range: Range, at: Cursor<V>): nat {
      var row := Times(cols, inner + 1) + 1;
      match at
      case Finished => 0
      case Summing(i, j, k, _) =>
        Times(Minus(range.end, i), row) + Times(Minus(cols, j), inner + 1) + Minus(inner, k) + 1
    }

    /** One step of one worker: add one product, write one entry, or go on to the next row. */
    method Step(range: Range, at: Cursor<V>) returns (next: Cursor<V>)
      requires Shaped() && Copied() && range.start <= range.end <= rows
      requires InPlace(range, at) && RowsHold(range, at) && at != Finished
      modifies c
      ensures InPlace(range, next) && RowsHold(range, next)
      ensures forall i, j :: 0 <= i < rows && 0 <= j < cols && !Owns(range, i) ==> c[i, j] == old(c[i, j])
      ensures Work(range, next) < Work(range, at)
    {
      hide Times;
      var Summing(i, j, k, sum) := at;
      if i == range.end {
        next := Finished;
      } else if j == cols {
        next := Summing(i + 1, 0, 0, ops.zero);
        NextTimes(Times(cols, inner + 1) + 1, Minus(range.end, i + 1));
      } else if k < inner {
        next := Summing(i, j, k + 1, ops.add(sum, ops.mul(a[i][k], bT[j, k])));
      } else {
        c[i, j] := sum;
        next := Summing(i, j + 1, 0, ops.zero);
        NextTimes(inner + 1, Minus(cols, j + 1));
      }
    }

    ghost predicate AllInPlace(ranges: seq<Range>, ats: seq<Cursor<V>>)
      requires Shaped() && Partition(ranges, rows) && |ats| == |ranges|
      reads c
    {
      forall t :: 0 <= t < |ranges| ==>
        ranges[t].end <= rows && InPlace(ranges[t], ats[t]) && RowsHold(ranges[t], ats[t])
    }

    function TotalWork(ranges: seq<Range>, ats: seq<Cursor<V>>): nat
      requires |ats| == |ranges|
    {
      Sum(seq(|ats|, t requires 0 <= t < |ats| => Work(ranges[t], ats[t])))
    }

    lemma LessTotalWork(ranges: seq<Range>, ats: seq<Cursor<V>>, t: nat, next: Cursor<V>)
      requires |ats| == |ranges| && t < |ats| && Work(ranges[t], next) < Work(ranges[t], ats[t])
      ensures TotalWork(ranges, ats[t := next]) < TotalWork(ranges, ats)
    {
      hide Work;
      var works := seq(|ats|, u requires 0 <= u < |ats| => Work(ranges[u], ats[u]));
      SumUpdated(works, t, Work(ranges[t], next));
      assert seq(|ats|, u requires 0 <= u < |ats| => Work(ranges[u], ats[t := next][u]))
          == works[t := Work(ranges[t], next)];
    }

    /** One step of some worker disturbs no other. */
    method StepOf(ranges: seq<Range>, ats: seq<Cursor<V>>, t: nat) returns (next: seq<Cursor<V>>)
      requires Shaped() && Copied() && Partition(ranges, rows) && |ats| == |ranges|
      requires AllInPlace(ranges, ats) && t < |ats| && ats[t] != Finished
      modifies c
      ensures |next| == |ats| && AllInPlace(ranges, next)
      ensures TotalWork(ranges, next) < TotalWork(ranges, ats)
    {
      hide Work, Partition, TotalWork;
      RangesInside(ranges, rows, t);
      label Before:
      var at := Step(ranges[t], ats[t]);
      next := ats[t := at];
      LessTotalWork(ranges, ats, t, at);
      forall u | 0 <= u < |ranges|
        ensures ranges[u].end <= rows && InPlace(ranges[u], next[u]) && RowsHold(ranges[u], next[u])
      {
        if u != t {
          RangesInside(ranges, rows, u);
          Disjoint(ranges, rows, t, u);
          assert old@Before(InPlace(ranges[u], ats[u]) && RowsHold(ranges[u], ats[u]));
          assert forall i, j :: ranges[u].start <= i < ranges[u].end && 0 <= j < cols ==> c[i, j] == old(c[i, j]);
        }
      }
    }

    /** Some schedule of the workers, one step at a time, until all are done. */
    method Run(ranges: seq<Range>)
      requires Shaped() && Copied() && Partition(ranges, rows)
      modifies c
      ensures forall i, j :: 0 <= i < rows && 0 <= j < cols ==> c[i, j] == Dot(ops, a, b, i, j, inner)
    {
      hide Partition, TotalWork, Work;
      var ats := seq(|ranges|, t requires 0 <= t < |ranges| => Summing(ranges[t].start, 0, 0, ops.zero));
      forall t | 0 <= t < |ranges|
        ensures ranges[t].end <= rows && InPlace(ranges[t], ats[t]) && RowsHold(ranges[t], ats[t])
      {
        RangesInside(ranges, rows, t);
      }
      while exists t :: 0 <= t < |ats| && ats[t] != Finished
        invariant |ats| == |ranges| && Copied() && AllInPlace(ranges, ats)
        decreases TotalWork(ranges, ats)
      {
        var t :| 0 <= t < |ats| && ats[t] != Finished;
        ats := StepOf(ranges, ats, t);
      }
      forall i, j | 0 <= i < rows && 0 <= j < cols ensures c[i, j] == Dot(ops, a, b, i, j, inner) {
        OneOwner(ranges, rows, i);
        var t :| 0 <= t < |ranges| && Owns(ranges[t], i);
        assert ats[t] == Finished && RowsHold(ranges[t], ats[t]);
      }
    }
  }

  /** `matrix_multiply_threaded`: the same product as the other program's, however the workers interleave. */
  method MultiplyTransposed<V(0)>(ops: Ops<V>, a: seq<seq<V>>, b: seq<seq<V>>, bT: array2<V>, c: array2<V>,
                                  rows: nat, inner: nat, cols: nat, numThreads: nat)
    requires Shape(a, rows, inner) && Shape(b, inner, cols) && c.Length0 == rows && c.Length1 == cols
    requires bT.Length0 == cols && bT.Length1 == inner && bT != c && numThreads >= 1
    modifies bT, c
    ensures forall i, j :: 0 <= i < rows && 0 <= j < cols ==> c[i, j] == Dot(ops, a, b, i, j, inner)
  {
    var product := new Transposed(ops, a, b, rows, inner, cols, bT, c);
    product.Transpose();
    var ranges := SplitRowsEvenly(rows, numThreads);
    product.Run(ranges);
  }
}
