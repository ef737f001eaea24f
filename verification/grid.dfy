/**
  Row-major index arithmetic for an n-by-n grid stored as a flat sequence.

  Row, column and flat index are defined by repeated subtraction and addition of n,
  so the verifier sees them one row at a time; the lemmas below tie them to Java's
  `/`, `%` and `*` on non-negative operands, and to each other.
 */
module Grid {

  /** The row of flat cell `i` (Board.getRow: i / n); never more than `i` itself. */
  function Row(i: nat, n: nat): (row: nat)
    requires n > 0
    ensures row <= i
    ensures i < n <==> row == 0
    decreases i
  {
    if i < n then 0 else 1 + Row(i - n, n)
  }

  /** The column of flat cell `i` (Board.getColumn: i % n). */
  function Col(i: nat, n: nat): (col: nat)
    requires n > 0
    ensures col < n
    decreases i
  {
    if i < n then i else Col(i - n, n)
  }

  /**
    The flat index of cell (row, col) (Board.i: row * n + col): at least `col`, and at
    least n beyond the first row.
   */
  function Index(row: nat, col: nat, n: nat): (i: nat)
    ensures col <= i
    ensures row > 0 ==> n <= i
    decreases row
  {
    if row == 0 then col else n + Index(row - 1, col, n)
  }

  /** |x|, as Math.abs on the small differences between rows or columns. */
  function Abs(x: int): nat
  {
    if x < 0 then -x else x
  }

  /** Row and column are Java's quotient and remainder of a non-negative index. */
  lemma {:induction false} RowColAreDivMod(i: nat, n: nat)
    requires n > 0
    ensures Row(i, n) == i / n && Col(i, n) == i % n
    decreases i
  {
    if i >= n {
      RowColAreDivMod(i - n, n);
      DivModStep(i, n);
    }
  }

  /** Subtracting the divisor once lowers the quotient by one and keeps the remainder. */
  lemma DivModStep(i: nat, n: nat)
    requires 0 < n <= i
    ensures i / n == 1 + (i - n) / n && i % n == (i - n) % n
  {
    var q, m := (i - n) / n, (i - n) % n;
    assert i == (q + 1) * n + m;
    UniqueDivMod(i, n, q + 1, m);
  }

  /** A quotient and remainder in range are the ones Euclidean division gives. */
  lemma UniqueDivMod(i: nat, n: nat, q: nat, m: nat)
    requires n > 0 && m < n && i == q * n + m
    ensures i / n == q && i % n == m
  {
    var q', m' := i / n, i % n;
    assert q' * n + m' == i;
    assert (q' - q) * n == m - m';
    if q' > q {
      MulAtLeast(q' - q, n);
    } else if q' < q {
      MulAtLeast(q - q', n);
    }
  }

  /** The flat index is Java's row * n + col. */
  lemma {:induction false} IndexIsProduct(row: nat, col: nat, n: nat)
    ensures Index(row, col, n) == row * n + col
    decreases row
  {
    if row > 0 {
      IndexIsProduct(row - 1, col, n);
      assert row * n == (row - 1) * n + n;
    }
  }

  /** Multiplying by a positive factor does not shrink a natural number. */
  lemma MulAtLeast(a: int, n: nat)
    requires a >= 1
    ensures a * n >= n
  {
    assert a * n == (a - 1) * n + n;
    assert (a - 1) * n >= 0;
  }

  /** Splitting a flat index into row and column and joining them again gives it back. */
  lemma {:induction false} IndexOfCell(i: nat, n: nat)
    requires n > 0
    ensures Index(Row(i, n), Col(i, n), n) == i
    ensures Col(i, n) < n
    decreases i
  {
    if i >= n {
      IndexOfCell(i - n, n);
    }
  }

  /** Joining a row and an in-range column and splitting them again gives them back. */
  lemma {:induction false} CellOfIndex(row: nat, col: nat, n: nat)
    requires col < n
    ensures Row(Index(row, col, n), n) == row
    ensures Col(Index(row, col, n), n) == col
    decreases row
  {
    if row > 0 {
      CellOfIndex(row - 1, col, n);
    }
  }

  /** A flat index below n*n lies in a row below n. */
  lemma RowInRange(i: nat, n: nat)
    requires i < n * n
    ensures n > 0 && Row(i, n) < n
  {
    assert n != 0;
    RowBelow(i, n, n);
  }

  /** A flat index below m*n lies in a row below m. */
  lemma {:induction false} RowBelow(i: nat, n: nat, m: nat)
    requires n > 0 && i < m * n
    ensures Row(i, n) < m
    decreases i
  {
    assert m != 0;
    if i >= n {
      assert m * n == (m - 1) * n + n;
      RowBelow(i - n, n, m - 1);
    }
  }

  /** An in-range cell has an in-range flat index. */
  lemma IndexInRange(row: nat, col: nat, n: nat)
    requires row < n && col < n
    ensures Index(row, col, n) < n * n
  {
    IndexIsProduct(row, col, n);
    MulAtLeast(n - row, n);
    assert (n - row) * n == n * n - row * n;
  }

  /** Every in-range cell of an n-by-n grid has an in-range flat index. */
  lemma AllIndicesInRange(n: nat)
    ensures forall row: nat, col: nat :: row < n && col < n ==> Index(row, col, n) < n * n
  {
    forall row: nat, col: nat | row < n && col < n
      ensures Index(row, col, n) < n * n
    {
      IndexInRange(row, col, n);
    }
  }

  /** Two flat cells with the same row and column are the same cell. */
  lemma SameCell(i: nat, j: nat, n: nat)
    requires n > 0
    requires Row(i, n) == Row(j, n) && Col(i, n) == Col(j, n)
    ensures i == j
  {
    IndexOfCell(i, n);
    IndexOfCell(j, n);
  }
}
