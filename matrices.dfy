/**
 * Dense matrices as row sequences and the textbook product, shared by the
 * Go program (nested slices) and the C program (a flat row-major buffer).
 * Entries are integers, so sums of products are exact.
 */
module Matrices {

  type Row = seq<int>
  type Matrix = seq<Row>

  /** Every row of `m` has exactly `cols` entries. */
  predicate Rectangular(m: Matrix, cols: nat) {
    forall i :: 0 <= i < |m| ==> |m[i]| == cols
  }

  /** `m` has `rows` rows of `cols` entries each: what the C code's dimension arguments describe. */
  predicate Shaped(m: Matrix, rows: nat, cols: nat) {
    |m| == rows && Rectangular(m, cols)
  }

  /** The entries that a dot product of `row` with column `j` of `b` over `k` terms reads exist. */
  predicate DotDefined(row: Row, b: Matrix, j: nat, k: nat) {
    k <= |row| && k <= |b| && forall t :: 0 <= t < k ==> j < |b[t]|
  }

  /**
   * row[0]*b[0][j] + ... + row[k-1]*b[k-1][j], accumulated from index 0
   * upwards, exactly as both kernels' innermost loops add.
   */
  function Dot(row: Row, b: Matrix, j: nat, k: nat): int
    requires DotDefined(row, b, j, k)
  {
    if k == 0 then 0 else Dot(row, b, j, k - 1) + row[k - 1] * b[k - 1][j]
  }

  /** The product is defined when every row of `a` has `k` terms and the first `k` rows of `b` have `c` columns. */
  predicate MulDefined(a: Matrix, b: Matrix, k: nat, c: nat) {
    (forall i :: 0 <= i < |a| ==> k <= |a[i]|)
    && k <= |b|
    && (forall t :: 0 <= t < k ==> c <= |b[t]|)
  }

  /** The reference product: entry (i, j) is the dot product of row i of `a` with column j of `b` over `k` terms. */
  function Mul(a: Matrix, b: Matrix, k: nat, c: nat): (p: Matrix)
    requires MulDefined(a, b, k, c)
  {
    seq(|a|, i requires 0 <= i < |a| => seq(c, j requires 0 <= j < c => Dot(a[i], b, j, k)))
  }

  lemma MulShape(a: Matrix, b: Matrix, k: nat, c: nat)
    requires MulDefined(a, b, k, c)
    ensures |Mul(a, b, k, c)| == |a| && Rectangular(Mul(a, b, k, c), c)
  {
  }

  /** The product distributes over splitting `a` into a top and a bottom block of rows. */
  lemma {:induction false} MulAppend(x: Matrix, y: Matrix, b: Matrix, k: nat, c: nat)
    requires MulDefined(x, b, k, c) && MulDefined(y, b, k, c)
    ensures MulDefined(x + y, b, k, c)
    ensures Mul(x + y, b, k, c) == Mul(x, b, k, c) + Mul(y, b, k, c)
  {
    var xy := x + y;
    assert forall i :: 0 <= i < |x| ==> xy[i] == x[i];
    assert forall i :: |x| <= i < |xy| ==> xy[i] == y[i - |x|];
  }

  /** The rows of `m`, one after another: C's row-major layout. */
  function Flatten(m: Matrix): seq<int> {
    if m == [] then [] else m[0] + Flatten(m[1..])
  }

  /** Flattening an `r`-by-`c` matrix gives `r*c` entries, entry (i, j) at index `i*c + j`. */
  lemma {:induction false} FlattenCell(m: Matrix, cols: nat, i: nat, j: nat)
    requires Rectangular(m, cols) && i < |m| && j < cols
    ensures |Flatten(m)| == |m| * cols
    ensures i * cols + j < |m| * cols
    ensures Flatten(m)[i * cols + j] == m[i][j]
  {
    FlattenLength(m, cols);
    if i > 0 {
      FlattenCell(m[1..], cols, i - 1, j);
      assert (i - 1) * cols + j + cols == i * cols + j;
    }
  }

  lemma {:induction false} FlattenLength(m: Matrix, cols: nat)
    requires Rectangular(m, cols)
    ensures |Flatten(m)| == |m| * cols
  {
    if m != [] {
      FlattenLength(m[1..], cols);
      assert (|m| - 1) * cols + cols == |m| * cols;
    }
  }
}
