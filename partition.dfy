/**
 * Row partitioning shared by both programs: `rows` rows are handed to `n`
 * workers in contiguous blocks; the first `rows % n` blocks hold one extra
 * row. Go's splitMatrixRows reaches each block's start by adding up the sizes
 * before it, which is `Begin` below; C's matrix_multiply_parallel computes
 * the same start with the closed formula of `BeginFormula`.
 */
module Partition {

  function Min(x: int, y: int): int { if x <= y then x else y }

  /** Number of rows of block `w`: `rows/n`, plus one for the first `rows % n` blocks. */
  function Size(rows: nat, n: nat, w: nat): nat
    requires n > 0
  {
    rows / n + (if w < rows % n then 1 else 0)
  }

  /** First row of block `w`: the sizes of the blocks before it, added up. */
  function Begin(rows: nat, n: nat, w: nat): nat
    requires n > 0
  {
    if w == 0 then 0 else Begin(rows, n, w - 1) + Size(rows, n, w - 1)
  }

  /** C's closed form of a block start: `w*(rows/n) + min(w, rows % n)`. */
  lemma {:induction false} BeginFormula(rows: nat, n: nat, w: nat)
    requires n > 0
    ensures Begin(rows, n, w) == w * (rows / n) + Min(w, rows % n)
  {
    if w > 0 {
      BeginFormula(rows, n, w - 1);
      assert w * (rows / n) == (w - 1) * (rows / n) + rows / n;
    }
  }

  /** Consecutive blocks abut, the first starts at row 0 and the last ends at row `rows`. */
  lemma Tiling(rows: nat, n: nat, w: nat)
    requires n > 0
    ensures Begin(rows, n, 0) == 0
    ensures Begin(rows, n, w) + Size(rows, n, w) == Begin(rows, n, w + 1)
    ensures Begin(rows, n, n) == rows
  {
    BeginFormula(rows, n, n);
    assert n * (rows / n) + rows % n == rows;
  }

  /**
   * Block `w` has `rows/n + 1` rows exactly when `w < rows % n`, never lies
   * beyond row `rows`, and is empty when there are more workers than rows and
   * `w` is at least `rows`.
   */
  lemma {:induction false} BlockBounds(rows: nat, n: nat, w: nat)
    requires n > 0 && w < n
    ensures Size(rows, n, w) == rows / n + 1 <==> w < rows % n
    ensures Size(rows, n, w) == rows / n <==> w >= rows % n
    ensures Begin(rows, n, w) + Size(rows, n, w) <= rows
    ensures rows < n && rows <= w ==> Size(rows, n, w) == 0
    ensures n <= rows ==> Size(rows, n, w) >= 1
  {
    Ordered(rows, n, w + 1, n);
    Tiling(rows, n, w);
    Tiling(rows, n, n);
    if rows < n {
      FewerRows(rows, n);
    } else {
      EnoughRows(rows, n);
    }
  }

  lemma EnoughRows(rows: nat, n: nat)
    requires 0 < n <= rows
    ensures rows / n >= 1
  {
    assert rows == n * (rows / n) + rows % n;
  }

  /** With more workers than rows, each of the first `rows` workers gets one row and the others none. */
  lemma FewerRowsThanWorkers(rows: nat, n: nat, w: nat)
    requires rows < n
    ensures Begin(rows, n, w) == Min(w, rows)
    ensures Size(rows, n, w) == if w < rows then 1 else 0
  {
    BeginFormula(rows, n, w);
    FewerRows(rows, n);
  }

  lemma FewerRows(rows: nat, n: nat)
    requires rows < n
    ensures rows / n == 0 && rows % n == rows
  {
  }

  /** Block starts never decrease. */
  lemma {:induction false} Ordered(rows: nat, n: nat, v: nat, w: nat)
    requires n > 0 && v <= w
    ensures Begin(rows, n, v) <= Begin(rows, n, w)
    decreases w - v
  {
    if v < w {
      Ordered(rows, n, v, w - 1);
    }
  }

  /** Distinct blocks share no row: block `v` ends at or before block `w` begins. */
  lemma Disjoint(rows: nat, n: nat, v: nat, w: nat)
    requires n > 0 && v < w
    ensures Begin(rows, n, v) + Size(rows, n, v) <= Begin(rows, n, w)
  {
    Ordered(rows, n, v + 1, w);
  }

  /** Every row `r < rows` lies in some block `w` at or after block `from`, when it is not before that block. */
  lemma {:induction false} Covered(rows: nat, n: nat, from: nat, r: nat) returns (w: nat)
    requires n > 0 && from <= n && Begin(rows, n, from) <= r < rows
    ensures from <= w < n
    ensures Begin(rows, n, w) <= r < Begin(rows, n, w) + Size(rows, n, w)
    decreases n - from
  {
    Tiling(rows, n, from);
    if from == n {
      assert false;
    } else if r < Begin(rows, n, from) + Size(rows, n, from) {
      w := from;
    } else {
      w := Covered(rows, n, from + 1, r);
    }
  }
}
