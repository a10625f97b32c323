/** The few facts about products and quotients of variables that the index computations need. */
module Arith {
  lemma MulAtLeast(a: int, b: int, n: nat)
    requires a <= b
    ensures a * n <= b * n
  {
  }

  /** Quotient and remainder are unique. */
  lemma DivModUnique(a: nat, q: int, r: int, n: nat)
    requires 0 <= r < n && a == q * n + r
    ensures a / n == q && a % n == r
  {
    var q' := a / n;
    assert a == q' * n + a % n;
    if q' < q {
      MulAtLeast(q' + 1, q, n);
    } else if q < q' {
      MulAtLeast(q + 1, q', n);
    }
  }

  lemma DivModBounds(a: nat, n: nat, k: nat)
    requires 0 < n
    ensures a == a / n * n + a % n && 0 <= a % n < n && 0 <= a / n
    ensures a < k * n <==> a / n < k
  {
    if a / n < k {
      MulAtLeast(a / n + 1, k, n);
    } else {
      MulAtLeast(k, a / n, n);
    }
  }

  /** Numbering the cells of a table row by row. */
  lemma RowMajor(row: nat, col: nat, rows: nat, cols: nat)
    requires row < rows && col < cols
    ensures 0 <= row * cols + col < rows * cols
    ensures (row * cols + col) / cols == row && (row * cols + col) % cols == col
  {
    MulAtLeast(0, row, cols);
    MulAtLeast(row + 1, rows, cols);
    DivModUnique(row * cols + col, row, col, cols);
  }
}
