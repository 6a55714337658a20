/**
 * The C program, c_code/matrix_mul.c: the row-width check of read_matrix
 * over lines that are already split into tokens, the serial product written
 * cell by cell into a flat row-major buffer, and the parallel product in
 * which each worker fills its own block of rows of a shared buffer. The
 * forked workers run here one after another, in an arbitrary order given
 * by `schedule`.
 */
module CMatrixMul {
  import opened Wrappers
  import opened Matrices
  import opened Partition

  // ---- read_matrix: the column count check ----

  /** Lines 0 to r-1 have no tokens. */
  predicate LeadingEmpty(lines: seq<seq<string>>, r: nat) {
    forall q :: 0 <= q < r && q < |lines| ==> lines[q] == []
  }

  /** The token count of the first line that has tokens; 0 when no line has any. */
  function FirstWidth(lines: seq<seq<string>>): nat {
    if lines == [] then 0
    else if lines[0] != [] then |lines[0]|
    else FirstWidth(lines[1..])
  }

  /** Line `r` passes the check: no line before it has tokens, or it has as many as the first line that does. */
  predicate RowAccepted(lines: seq<seq<string>>, r: nat)
    requires r < |lines|
  {
    LeadingEmpty(lines, r) || |lines[r]| == FirstWidth(lines)
  }

  /** Every line after the leading empty ones has the token count of the first non-empty line. */
  predicate WidthsAgree(lines: seq<seq<string>>) {
    forall r :: 0 <= r < |lines| ==> RowAccepted(lines, r)
  }

  /** Skipping leading empty lines does not change the first width. */
  lemma {:induction false} FirstWidthSkip(lines: seq<seq<string>>, i: nat)
    requires i <= |lines| && LeadingEmpty(lines, i)
    ensures FirstWidth(lines) == FirstWidth(lines[i..])
  {
    if i > 0 {
      assert lines[0] == [];
      assert LeadingEmpty(lines[1..], i - 1) by {
        forall q | 0 <= q < i - 1 ensures lines[1..][q] == [] {
          assert lines[1..][q] == lines[q + 1];
        }
      }
      FirstWidthSkip(lines[1..], i - 1);
      assert lines[1..][i - 1..] == lines[i..];
    }
  }

  /**
   * The check of read_matrix, c_code/matrix_mul.c lines 60-72, run over every
   * line: `colCount` stays 0 until a line has tokens and is then fixed; a
   * later line with a different count stops the read with `rowCount` at that
   * line. On success `rowCount` counts every line, the leading empty ones too.
   */
  method CheckRowWidths(lines: seq<seq<string>>) returns (ok: bool, rowCount: nat, colCount: nat)
    ensures ok <==> WidthsAgree(lines)
    ensures ok ==> rowCount == |lines| && colCount == FirstWidth(lines)
    ensures !ok ==> rowCount < |lines| && !RowAccepted(lines, rowCount)
    ensures !ok ==> forall r :: 0 <= r < rowCount ==> RowAccepted(lines, r)
  {
    rowCount, colCount := 0, 0;
    while rowCount < |lines|
      invariant rowCount <= |lines|
      invariant colCount == 0 <==> LeadingEmpty(lines, rowCount)
      invariant colCount != 0 ==> colCount == FirstWidth(lines)
      invariant forall r :: 0 <= r < rowCount ==> RowAccepted(lines, r)
    {
      var colIdx := |lines[rowCount]|;
      if colCount == 0 {
        if colIdx != 0 {
          FirstWidthSkip(lines, rowCount);
          assert lines[rowCount..][0] == lines[rowCount];
        }
        colCount := colIdx;
      } else if colIdx != colCount {
        assert !RowAccepted(lines, rowCount);
        return false, rowCount, colCount;
      }
      rowCount := rowCount + 1;
    }
    if colCount == 0 {
      FirstWidthSkip(lines, |lines|);
    }
    ok := true;
  }

  /** A line without tokens after a line with tokens makes the check fail. */
  lemma EmptyLineRejected(lines: seq<seq<string>>, q: nat, r: nat)
    requires q < r < |lines| && lines[q] != [] && lines[r] == []
    ensures !WidthsAgree(lines)
  {
    FirstWidthPositive(lines, q);
    assert !RowAccepted(lines, r);
  }

  lemma {:induction false} FirstWidthPositive(lines: seq<seq<string>>, q: nat)
    requires q < |lines| && lines[q] != []
    ensures FirstWidth(lines) > 0
  {
    if lines[0] == [] {
      assert lines[1..][q - 1] == lines[q];
      FirstWidthPositive(lines[1..], q - 1);
    }
  }

  /** Lines that all carry `w` tokens pass the check with `w` columns. */
  lemma {:induction false} UniformAccepted(lines: seq<seq<string>>, w: nat)
    requires forall r :: 0 <= r < |lines| ==> |lines[r]| == w
    ensures WidthsAgree(lines)
    ensures FirstWidth(lines) == if lines == [] then 0 else w
  {
    if lines != [] && lines[0] == [] {
      UniformAccepted(lines[1..], w);
    }
  }

  /**
   * As written, a file whose first line has no tokens passes the check: the
   * empty line leaves `colCount` at 0, and the following lines fix it. The
   * empty line is still counted as row 0, which read_matrix stores as NULL,
   * so row 0 holds none of the `colCount` entries both kernels read from it.
   */
  lemma LeadingEmptyAccepted(lines: seq<seq<string>>, w: nat)
    requires |lines| >= 2 && lines[0] == [] && w >= 1
    requires forall r :: 1 <= r < |lines| ==> |lines[r]| == w
    ensures WidthsAgree(lines) && FirstWidth(lines) == w
    ensures |lines[0]| < FirstWidth(lines)
  {
    assert FirstWidth(lines) == w by {
      assert lines[1..][0] == lines[1];
    }
    forall r | 0 <= r < |lines| ensures RowAccepted(lines, r) {
      if r == 0 {
        assert LeadingEmpty(lines, 0);
      }
    }
  }

  /** Every line has as many tokens as the first one. */
  predicate Uniform(lines: seq<seq<string>>) {
    forall r :: 0 <= r < |lines| ==> |lines[r]| == |lines[0]|
  }

  /**
   * The evidently intended check: the first line fixes the column count even
   * when it has no tokens, so an accepted file has `colCount` entries in
   * every row, the shape both kernels read.
   */
  method CheckRowWidthsFixed(lines: seq<seq<string>>) returns (ok: bool, rowCount: nat, colCount: nat)
    ensures ok <==> Uniform(lines)
    ensures ok ==> rowCount == |lines| && forall r :: 0 <= r < |lines| ==> |lines[r]| == colCount
    ensures !ok ==> 0 < rowCount < |lines| && |lines[rowCount]| != |lines[0]|
  {
    rowCount, colCount := 0, 0;
    while rowCount < |lines|
      invariant rowCount <= |lines|
      invariant rowCount > 0 ==> colCount == |lines[0]|
      invariant forall r :: 0 <= r < rowCount ==> |lines[r]| == |lines[0]|
    {
      var colIdx := |lines[rowCount]|;
      if rowCount == 0 {
        colCount := colIdx;
      } else if colIdx != colCount {
        return false, rowCount, colCount;
      }
      rowCount := rowCount + 1;
    }
    if lines == [] {
      colCount := 0;
    }
    ok := true;
  }

  /** On files that do not start with an empty line, the corrected check accepts exactly what the original accepts. */
  lemma FixedAgrees(lines: seq<seq<string>>)
    requires lines == [] || lines[0] != []
    ensures WidthsAgree(lines) <==> Uniform(lines)
  {
    if lines != [] {
      assert FirstWidth(lines) == |lines[0]|;
      forall r | 0 <= r < |lines| ensures RowAccepted(lines, r) <==> |lines[r]| == |lines[0]| {
        if r == 0 {
          assert LeadingEmpty(lines, 0);
        } else {
          assert !LeadingEmpty(lines, r) by {
            assert lines[0] != [];
          }
        }
      }
    }
  }

  // ---- index arithmetic of the flat row-major buffer ----

  lemma RowRange(lo: nat, hi: nat, rows: nat, cols: nat)
    requires lo <= hi <= rows
    ensures lo * cols <= hi * cols <= rows * cols
  {
    assert hi * cols - lo * cols == (hi - lo) * cols;
    assert rows * cols - hi * cols == (rows - hi) * cols;
  }

  /** Cell (r, j) of a buffer with `cols` columns sits at index r*cols + j, inside row r's stretch. */
  lemma CellOf(r: nat, j: nat, cols: nat)
    requires j < cols
    ensures (r * cols + j) / cols == r && (r * cols + j) % cols == j
    ensures r * cols + j < (r + 1) * cols
  {
    var x := r * cols + j;
    var d := x / cols;
    assert x == d * cols + x % cols;
    if d > r {
      RowRange(r + 1, d, d, cols);
    } else if d < r {
      RowRange(d + 1, r, r, cols);
    }
    assert (r + 1) * cols == r * cols + cols;
  }

  lemma CellBounds(rows: nat, cols: nat, q: nat)
    requires q < rows * cols
    ensures cols > 0 && q / cols < rows
  {
    if cols > 0 && q / cols >= rows {
      RowRange(rows, q / cols, q / cols, cols);
    }
  }

  /** A cell whose row lies in [lo, hi) has its index in [lo*cols, hi*cols). */
  lemma CellInBlock(q: nat, cols: nat, lo: nat, hi: nat)
    requires cols > 0 && lo <= q / cols < hi
    ensures lo * cols <= q < hi * cols
  {
    assert q == (q / cols) * cols + q % cols;
    RowRange(lo, q / cols, q / cols, cols);
    RowRange(q / cols + 1, hi, hi, cols);
  }

  // ---- the product, cell by cell ----

  /** What cell `q` of the row-major product must hold: row q / c of `a` times column q % c of `b`. */
  function Expected(a: Matrix, b: Matrix, k: nat, c: nat, q: nat): int
    requires MulDefined(a, b, k, c) && q < |a| * c
  {
    CellBounds(|a|, c, q);
    Dot(a[q / c], b, q % c, k)
  }

  /** Cells `from` to `to - 1` of `buf` hold their entries of the product. */
  predicate Filled(buf: seq<int>, a: Matrix, b: Matrix, k: nat, c: nat, from: nat, to: nat)
    requires MulDefined(a, b, k, c) && to <= |a| * c && |buf| == |a| * c
  {
    forall q :: from <= q < to ==> buf[q] == Expected(a, b, k, c, q)
  }

  /** The product, flattened row by row, holds `Expected` in every cell. */
  lemma ExpectedIsFlatten(a: Matrix, b: Matrix, k: nat, c: nat)
    requires MulDefined(a, b, k, c)
    ensures |Flatten(Mul(a, b, k, c))| == |a| * c
    ensures forall q :: 0 <= q < |a| * c ==> Flatten(Mul(a, b, k, c))[q] == Expected(a, b, k, c, q)
  {
    var p := Mul(a, b, k, c);
    MulShape(a, b, k, c);
    FlattenLength(p, c);
    forall q | 0 <= q < |a| * c ensures Flatten(p)[q] == Expected(a, b, k, c, q) {
      FlattenAt(p, c, q);
    }
  }

  /** Index `q` of a flattened matrix with `cols` columns is entry (q / cols, q % cols). */
  lemma FlattenAt(m: Matrix, cols: nat, q: nat)
    requires Rectangular(m, cols) && q < |m| * cols
    ensures cols > 0 && q / cols < |m|
    ensures |Flatten(m)| == |m| * cols && Flatten(m)[q] == m[q / cols][q % cols]
  {
    CellBounds(|m|, cols, q);
    var i, j := q / cols, q % cols;
    DivMod(q, cols);
    FlattenCell(m, cols, i, j);
  }

  lemma DivMod(q: nat, cols: nat)
    requires cols > 0
    ensures q == (q / cols) * cols + q % cols && q % cols < cols
  {
  }

  /** A buffer filled everywhere is the flattened product. */
  lemma FilledIsFlatten(buf: seq<int>, a: Matrix, b: Matrix, k: nat, c: nat)
    requires MulDefined(a, b, k, c) && |buf| == |a| * c && Filled(buf, a, b, k, c, 0, |a| * c)
    ensures buf == Flatten(Mul(a, b, k, c))
  {
    ExpectedIsFlatten(a, b, k, c);
  }

  /**
   * Rows `lo` to `hi - 1` of the product written into `out`, exactly as the
   * loops at c_code/matrix_mul.c lines 173-183 (serial) and 125-135 (one
   * worker) do: each cell is set to 0 and then accumulates
   * a[r][i]*b[i][col] for i from 0 to k - 1. Nothing outside the rows' cells
   * changes.
   */
  method FillRows(out: array<int>, a: Matrix, b: Matrix, k: nat, c: nat, lo: nat, hi: nat)
    requires MulDefined(a, b, k, c) && out.Length == |a| * c && lo <= hi <= |a|
    modifies out
    ensures lo * c <= hi * c <= |a| * c
    ensures Filled(out[..], a, b, k, c, lo * c, hi * c)
    ensures forall q :: 0 <= q < out.Length && !(lo * c <= q < hi * c) ==> out[q] == old(out[q])
  {
    RowRange(lo, hi, |a|, c);
    var r := lo;
    while r < hi
      invariant lo <= r <= hi
      invariant lo * c <= r * c <= hi * c
      invariant Filled(out[..], a, b, k, c, lo * c, r * c)
      invariant forall q :: 0 <= q < out.Length && !(lo * c <= q < r * c) ==> out[q] == old(out[q])
    {
      RowRange(r + 1, hi, |a|, c);
      var col := 0;
      while col < c
        invariant col <= c
        invariant Filled(out[..], a, b, k, c, lo * c, r * c + col)
        invariant forall q :: 0 <= q < out.Length && !(lo * c <= q < r * c + col) ==> out[q] == old(out[q])
      {
        var cell := r * c + col;
        CellOf(r, col, c);
        out[cell] := 0;
        var i := 0;
        while i < k
          invariant i <= k
          invariant out[cell] == Dot(a[r], b, col, i)
          invariant Filled(out[..], a, b, k, c, lo * c, cell)
          invariant forall q :: 0 <= q < out.Length && !(lo * c <= q <= cell) ==> out[q] == old(out[q])
        {
          out[cell] := out[cell] + a[r][i] * b[i][col];
          i := i + 1;
        }
        assert out[cell] == Expected(a, b, k, c, cell);
        col := col + 1;
      }
      assert r * c + c == (r + 1) * c;
      r := r + 1;
    }
  }

  /**
   * matrix_multiply_serial, c_code/matrix_mul.c lines 157-185: no buffer
   * (NULL) when A's column count differs from B's row count, otherwise a new
   * a_rows*b_cols buffer holding the product row by row.
   */
  method MultiplySerial(matA: Matrix, matB: Matrix, aRows: nat, aCols: nat, bRows: nat, bCols: nat)
    returns (result: Option<array<int>>)
    requires Shaped(matA, aRows, aCols) && Shaped(matB, bRows, bCols)
    ensures result.None? <==> aCols != bRows
    ensures result.Some? ==> fresh(result.value) && result.value[..] == Flatten(Mul(matA, matB, aCols, bCols))
  {
    if aCols != bRows {
      return None;
    }
    var resultArray := new int[aRows * bCols];
    FillRows(resultArray, matA, matB, aCols, bCols, 0, aRows);
    FilledIsFlatten(resultArray[..], matA, matB, aCols, bCols);
    result := Some(resultArray);
  }

  // ---- matrix_multiply_parallel ----

  /** Worker `w`'s block, as C computes it, is Partition's block `w`. */
  lemma WorkerBlock(rows: nat, n: nat, w: nat)
    requires 0 < n && w < n
    ensures w * (rows / n) + Min(w, rows % n) == Begin(rows, n, w)
    ensures rows / n + (if w < rows % n then 1 else 0) == Size(rows, n, w)
    ensures Begin(rows, n, w) + Size(rows, n, w) <= rows
  {
    BeginFormula(rows, n, w);
    BlockBounds(rows, n, w);
  }

  /**
   * The cells a worker writes lie in its own stretch of the buffer, which is
   * inside the buffer, and a lower-numbered worker's stretch ends before a
   * higher-numbered one's begins: no two workers write the same cell.
   */
  lemma WorkerSlicesDisjoint(rows: nat, n: nat, cols: nat, v: nat, w: nat)
    requires v < w < n
    ensures (Begin(rows, n, w) + Size(rows, n, w)) * cols <= rows * cols
    ensures (Begin(rows, n, v) + Size(rows, n, v)) * cols <= Begin(rows, n, w) * cols
  {
    var endV, beginW, endW := Begin(rows, n, v) + Size(rows, n, v), Begin(rows, n, w), Begin(rows, n, w) + Size(rows, n, w);
    assert endW <= rows by {
      BlockBounds(rows, n, w);
    }
    assert endV <= beginW by {
      Disjoint(rows, n, v, w);
    }
    RowRange(endW, rows, rows, cols);
    RowRange(endV, beginW, beginW, cols);
  }

  /** Every cell of the buffer belongs to the block of some worker. */
  lemma CellOwner(rows: nat, n: nat, cols: nat, q: nat) returns (w: nat)
    requires 0 < n && q < rows * cols
    ensures w < n
    ensures Begin(rows, n, w) * cols <= q < (Begin(rows, n, w) + Size(rows, n, w)) * cols
  {
    CellBounds(rows, cols, q);
    Tiling(rows, n, 0);
    w := Covered(rows, n, 0, q / cols);
    CellInBlock(q, cols, Begin(rows, n, w), Begin(rows, n, w) + Size(rows, n, w));
  }

  /** Every worker from 0 to n - 1 runs once, in the order `schedule` gives. */
  predicate Schedule(schedule: seq<nat>, n: nat) {
    |schedule| == n
    && (forall s :: 0 <= s < |schedule| ==> schedule[s] < n)
    && (forall w :: 0 <= w < n ==> w in schedule)
  }

  /** The cells of worker `w`'s rows lie in the buffer and hold their entries of the product. */
  predicate WorkerFilled(buf: seq<int>, a: Matrix, b: Matrix, k: nat, c: nat, n: nat, w: nat)
    requires MulDefined(a, b, k, c) && n > 0 && |buf| == |a| * c
  {
    var lo, hi := Begin(|a|, n, w), Begin(|a|, n, w) + Size(|a|, n, w);
    hi * c <= |a| * c && Filled(buf, a, b, k, c, lo * c, hi * c)
  }

  /** Cells that were filled stay filled when a write fills another stretch and leaves the rest alone. */
  lemma FilledKept(before: seq<int>, after: seq<int>, a: Matrix, b: Matrix, k: nat, c: nat, from: nat, to: nat, lo: nat, hi: nat)
    requires MulDefined(a, b, k, c) && |before| == |after| == |a| * c && to <= |a| * c && hi <= |a| * c
    requires Filled(before, a, b, k, c, from, to) && Filled(after, a, b, k, c, lo, hi)
    requires forall q :: 0 <= q < |after| && !(lo <= q < hi) ==> after[q] == before[q]
    ensures Filled(after, a, b, k, c, from, to)
  {
  }

  /** Workers that had filled their rows still have after another worker writes its own stretch. */
  lemma WorkersKept(before: seq<int>, after: seq<int>, a: Matrix, b: Matrix, k: nat, c: nat, n: nat, done: seq<nat>,
                    lo: nat, hi: nat)
    requires MulDefined(a, b, k, c) && n > 0 && |before| == |after| == |a| * c && hi <= |a| * c
    requires forall v :: v in done ==> WorkerFilled(before, a, b, k, c, n, v)
    requires Filled(after, a, b, k, c, lo, hi)
    requires forall q :: 0 <= q < |after| && !(lo <= q < hi) ==> after[q] == before[q]
    ensures forall v :: v in done ==> WorkerFilled(after, a, b, k, c, n, v)
  {
    forall v | v in done ensures WorkerFilled(after, a, b, k, c, n, v) {
      assert WorkerFilled(before, a, b, k, c, n, v);
      var from, to := Begin(|a|, n, v) * c, (Begin(|a|, n, v) + Size(|a|, n, v)) * c;
      FilledKept(before, after, a, b, k, c, from, to, lo, hi);
    }
  }

  /** Once every worker of the schedule has filled its rows, the buffer is the flattened product. */
  lemma AllWorkersFill(buf: seq<int>, a: Matrix, b: Matrix, k: nat, c: nat, n: nat, schedule: seq<nat>)
    requires MulDefined(a, b, k, c) && n > 0 && |buf| == |a| * c && Schedule(schedule, n)
    requires forall v :: v in schedule ==> WorkerFilled(buf, a, b, k, c, n, v)
    ensures buf == Flatten(Mul(a, b, k, c))
  {
    forall q | 0 <= q < |a| * c ensures buf[q] == Expected(a, b, k, c, q) {
      var w := CellOwner(|a|, n, c, q);
      assert WorkerFilled(buf, a, b, k, c, n, w);
    }
    FilledIsFlatten(buf, a, b, k, c);
  }

  /**
   * matrix_multiply_parallel, c_code/matrix_mul.c lines 82-147, with the
   * forked workers run one after another in the order `schedule`: NULL when
   * A's column count differs from B's row count, checked before anything is
   * allocated; otherwise worker w computes rows
   * [w*rows_per_worker + min(w, leftover), + current_rows) of the shared
   * buffer, and once all have run the buffer is the product, whatever the
   * order, which is also what matrix_multiply_serial returns.
   */
  method MultiplyParallel(matA: Matrix, matB: Matrix, numWorkers: nat, aRows: nat, aCols: nat, bRows: nat, bCols: nat,
                          schedule: seq<nat>)
    returns (result: Option<array<int>>)
    requires numWorkers > 0 && Schedule(schedule, numWorkers)
    requires Shaped(matA, aRows, aCols) && Shaped(matB, bRows, bCols)
    ensures result.None? <==> aCols != bRows
    ensures result.Some? ==> fresh(result.value) && result.value[..] == Flatten(Mul(matA, matB, aCols, bCols))
  {
    if aCols != bRows {
      return None;
    }
    var rowsPerWorker := aRows / numWorkers;
    var leftover := aRows % numWorkers;
    var sharedResult := new int[aRows * bCols];
    for s := 0 to |schedule|
      invariant forall v :: v in schedule[..s] ==> WorkerFilled(sharedResult[..], matA, matB, aCols, bCols, numWorkers, v)
    {
      var w := schedule[s];
      var begin := w * rowsPerWorker + (if w < leftover then w else leftover);
      var currentRows := rowsPerWorker + (if w < leftover then 1 else 0);
      WorkerBlock(aRows, numWorkers, w);
      ghost var before := sharedResult[..];
      FillRows(sharedResult, matA, matB, aCols, bCols, begin, begin + currentRows);
      assert WorkerFilled(sharedResult[..], matA, matB, aCols, bCols, numWorkers, w);
      WorkersKept(before, sharedResult[..], matA, matB, aCols, bCols, numWorkers, schedule[..s],
                  begin * bCols, (begin + currentRows) * bCols);
      assert schedule[..s + 1] == schedule[..s] + [w];
    }
    assert schedule[..|schedule|] == schedule;
    AllWorkersFill(sharedResult[..], matA, matB, aCols, bCols, numWorkers, schedule);
    result := Some(sharedResult);
  }
}
