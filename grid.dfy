/**
 * The 256 x 256 co-occurrence table and sums over it.
 *
 * A `Term` gives the summand at a cell (i, j); `Total(f)` is the sum of `f`
 * over every cell in row-major order, which is the order of the nested
 * `for(i) for(j)` loops that accumulate over the table.
 */
module Grid {

  /** GRAY_LEVELS: the number of gray levels, and the table's side length. */
  const GrayLevels: nat := 256

  /**
   * The step of the sums' recursion. It is a named constant rather than the
   * literal 1 so that a sum over the fixed 256 x 256 table is unfolded only on
   * demand and never evaluated term by term.
   */
  const One: nat := 1

  type Term = (int, int) -> real

  /** A table of reals, indexed table[i][j] like `double glcm[GRAY_LEVELS][GRAY_LEVELS]`. */
  type Table = seq<seq<real>>

  predicate InGrid(i: int, j: int)
  {
    0 <= i < GrayLevels && 0 <= j < GrayLevels
  }

  /** Total accessor: the entry at (i, j), and 0 outside the table. */
  function Cell(t: Table, i: int, j: int): real
  {
    if 0 <= i < |t| && 0 <= j < |t[i]| then t[i][j] else 0.0
  }

  function CellTerm(t: Table): Term
  {
    (i: int, j: int) => Cell(t, i, j)
  }

  /** The table held by a 256 x 256 array. */
  function Snapshot(m: array2<real>): (t: Table)
    requires m.Length0 == GrayLevels && m.Length1 == GrayLevels
    reads m
    ensures |t| == GrayLevels
    ensures forall i, j :: InGrid(i, j) ==> Cell(t, i, j) == m[i, j]
  {
    seq(GrayLevels, (i: int) requires 0 <= i < GrayLevels reads m =>
      seq(GrayLevels, (j: int) requires 0 <= j < GrayLevels reads m => m[i, j]))
  }

  /** Sum of f(i, 0), ..., f(i, n - 1). */
  function RowSum(f: Term, i: int, n: nat): real
  {
    if n == 0 then 0.0 else RowSum(f, i, n - One) + f(i, n - One)
  }

  /** Sum of f over the first m full rows. */
  function RowsSum(f: Term, m: nat): real
  {
    if m == 0 then 0.0 else RowsSum(f, m - One) + RowSum(f, m - One, GrayLevels)
  }

  /** Sum of f over the whole table. */
  function Total(f: Term): real
  {
    RowsSum(f, GrayLevels)
  }

  /** One more column of row i. */
  lemma RowSumNext(f: Term, i: int, n: nat)
    ensures RowSum(f, i, n + 1) == RowSum(f, i, n) + f(i, n)
  {
  }

  /** One more full row. */
  lemma RowsSumNext(f: Term, m: nat)
    ensures RowsSum(f, m + 1) == RowsSum(f, m) + RowSum(f, m, GrayLevels)
  {
  }

  // ---- Zero, sign, linearity -------------------------------------------------

  lemma {:induction false} RowSumZero(f: Term, i: int, n: nat)
    requires forall j :: 0 <= j < n ==> f(i, j) == 0.0
    ensures RowSum(f, i, n) == 0.0
  {
    if n > 0 { RowSumZero(f, i, n - 1); }
  }

  lemma {:induction false} RowsSumZero(f: Term, m: nat)
    requires m <= GrayLevels
    requires forall i, j :: 0 <= i < m && 0 <= j < GrayLevels ==> f(i, j) == 0.0
    ensures RowsSum(f, m) == 0.0
  {
    if m > 0 {
      RowsSumZero(f, m - 1);
      RowSumZero(f, m - 1, GrayLevels);
    }
  }

  /** A sum whose every summand is zero is zero. */
  lemma TotalZero(f: Term)
    requires forall i, j :: InGrid(i, j) ==> f(i, j) == 0.0
    ensures Total(f) == 0.0
  {
    RowsSumZero(f, GrayLevels);
  }

  lemma {:induction false} RowSumNonNegative(f: Term, i: int, n: nat)
    requires forall j :: 0 <= j < n ==> f(i, j) >= 0.0
    ensures RowSum(f, i, n) >= 0.0
  {
    if n > 0 { RowSumNonNegative(f, i, n - 1); }
  }

  lemma {:induction false} RowsSumNonNegative(f: Term, m: nat)
    requires m <= GrayLevels
    requires forall i, j :: 0 <= i < m && 0 <= j < GrayLevels ==> f(i, j) >= 0.0
    ensures RowsSum(f, m) >= 0.0
  {
    if m > 0 {
      RowsSumNonNegative(f, m - 1);
      RowSumNonNegative(f, m - 1, GrayLevels);
    }
  }

  /** A sum of nonnegative summands is nonnegative. */
  lemma TotalNonNegative(f: Term)
    requires forall i, j :: InGrid(i, j) ==> f(i, j) >= 0.0
    ensures Total(f) >= 0.0
  {
    RowsSumNonNegative(f, GrayLevels);
  }

  lemma {:induction false} RowSumAdd(f: Term, g: Term, h: Term, i: int, n: nat)
    requires forall j :: 0 <= j < n ==> f(i, j) == g(i, j) + h(i, j)
    ensures RowSum(f, i, n) == RowSum(g, i, n) + RowSum(h, i, n)
  {
    if n > 0 { RowSumAdd(f, g, h, i, n - 1); }
  }

  lemma {:induction false} RowsSumAdd(f: Term, g: Term, h: Term, m: nat)
    requires m <= GrayLevels
    requires forall i, j :: 0 <= i < m && 0 <= j < GrayLevels ==> f(i, j) == g(i, j) + h(i, j)
    ensures RowsSum(f, m) == RowsSum(g, m) + RowsSum(h, m)
  {
    if m > 0 {
      RowsSumAdd(f, g, h, m - 1);
      RowSumAdd(f, g, h, m - 1, GrayLevels);
    }
  }

  /** The sum of pointwise sums is the sum of the sums. */
  lemma TotalAdd(f: Term, g: Term, h: Term)
    requires forall i, j :: InGrid(i, j) ==> f(i, j) == g(i, j) + h(i, j)
    ensures Total(f) == Total(g) + Total(h)
  {
    RowsSumAdd(f, g, h, GrayLevels);
  }

  /** Division distributes over a sum. */
  lemma DivAdd(x: real, y: real, c: real)
    requires c != 0.0
    ensures (x + y) / c == x / c + y / c
  {
  }

  lemma {:induction false} RowSumDivide(f: Term, g: Term, c: real, i: int, n: nat)
    requires c != 0.0
    requires forall j :: 0 <= j < n ==> f(i, j) == g(i, j) / c
    ensures RowSum(f, i, n) == RowSum(g, i, n) / c
  {
    if n > 0 {
      RowSumDivide(f, g, c, i, n - 1);
      DivAdd(RowSum(g, i, n - 1), g(i, n - 1), c);
    }
  }

  lemma {:induction false} RowsSumDivide(f: Term, g: Term, c: real, m: nat)
    requires c != 0.0
    requires m <= GrayLevels
    requires forall i, j :: 0 <= i < m && 0 <= j < GrayLevels ==> f(i, j) == g(i, j) / c
    ensures RowsSum(f, m) == RowsSum(g, m) / c
  {
    if m > 0 {
      RowsSumDivide(f, g, c, m - 1);
      RowSumDivide(f, g, c, m - 1, GrayLevels);
      DivAdd(RowsSum(g, m - 1), RowSum(g, m - 1, GrayLevels), c);
    }
  }

  /** Dividing every summand by c divides the sum by c. */
  lemma TotalDivide(f: Term, g: Term, c: real)
    requires c != 0.0
    requires forall i, j :: InGrid(i, j) ==> f(i, j) == g(i, j) / c
    ensures Total(f) == Total(g) / c
  {
    RowsSumDivide(f, g, c, GrayLevels);
  }

  // ---- Sparse sums --------------------------------------------------------------

  lemma {:induction false} RowSumPoint(f: Term, i: int, b: int, n: nat)
    requires 0 <= b < n
    requires forall j :: 0 <= j < n && j != b ==> f(i, j) == 0.0
    ensures RowSum(f, i, n) == f(i, b)
  {
    if n - 1 == b {
      RowSumZero(f, i, n - 1);
    } else {
      RowSumPoint(f, i, b, n - 1);
    }
  }

  lemma {:induction false} RowsSumPoint(f: Term, a: int, b: int, m: nat)
    requires 0 <= a < m <= GrayLevels && 0 <= b < GrayLevels
    requires forall i, j :: 0 <= i < m && 0 <= j < GrayLevels && (i != a || j != b) ==> f(i, j) == 0.0
    ensures RowsSum(f, m) == f(a, b)
  {
    if m - 1 == a {
      RowsSumZero(f, m - 1);
      RowSumPoint(f, a, b, GrayLevels);
    } else {
      RowsSumPoint(f, a, b, m - 1);
      RowSumZero(f, m - 1, GrayLevels);
    }
  }

  /** A sum with a single possibly nonzero summand is that summand. */
  lemma TotalPoint(f: Term, a: int, b: int)
    requires InGrid(a, b)
    requires forall i, j :: InGrid(i, j) && (i != a || j != b) ==> f(i, j) == 0.0
    ensures Total(f) == f(a, b)
  {
    RowsSumPoint(f, a, b, GrayLevels);
  }

  /** A sum with two possibly nonzero summands, at distinct cells, is their sum. */
  lemma TotalTwoPoints(f: Term, a: int, b: int, c: int, d: int)
    requires InGrid(a, b) && InGrid(c, d) && (a != c || b != d)
    requires forall i, j :: InGrid(i, j) && (i != a || j != b) && (i != c || j != d) ==> f(i, j) == 0.0
    ensures Total(f) == f(a, b) + f(c, d)
  {
    var g: Term := (i: int, j: int) => if i == a && j == b then f(i, j) else 0.0;
    var h: Term := (i: int, j: int) => if i == a && j == b then 0.0 else f(i, j);
    TotalAdd(f, g, h);
    TotalPoint(g, a, b);
    TotalPoint(h, c, d);
  }

  /** Sums of pointwise-equal summands are equal. */
  lemma TotalEqual(f: Term, g: Term)
    requires forall i, j :: InGrid(i, j) ==> f(i, j) == g(i, j)
    ensures Total(f) == Total(g)
  {
    var zero: Term := (i: int, j: int) => 0.0;
    TotalAdd(f, g, zero);
    TotalZero(zero);
  }

  // ---- Scaling and order ------------------------------------------------------------

  /** Multiplication distributes over a sum. */
  lemma MulAdd(c: real, x: real, y: real)
    ensures c * (x + y) == c * x + c * y
  {
  }

  lemma {:induction false} RowSumScale(f: Term, g: Term, c: real, i: int, n: nat)
    requires forall j :: 0 <= j < n ==> f(i, j) == c * g(i, j)
    ensures RowSum(f, i, n) == c * RowSum(g, i, n)
  {
    if n > 0 {
      RowSumScale(f, g, c, i, n - 1);
      MulAdd(c, RowSum(g, i, n - 1), g(i, n - 1));
    }
  }

  lemma {:induction false} RowsSumScale(f: Term, g: Term, c: real, m: nat)
    requires m <= GrayLevels
    requires forall i, j :: 0 <= i < m && 0 <= j < GrayLevels ==> f(i, j) == c * g(i, j)
    ensures RowsSum(f, m) == c * RowsSum(g, m)
  {
    if m > 0 {
      RowsSumScale(f, g, c, m - 1);
      RowSumScale(f, g, c, m - 1, GrayLevels);
      MulAdd(c, RowsSum(g, m - 1), RowSum(g, m - 1, GrayLevels));
    }
  }

  /** Multiplying every summand by c multiplies the sum by c. */
  lemma TotalScale(f: Term, g: Term, c: real)
    requires forall i, j :: InGrid(i, j) ==> f(i, j) == c * g(i, j)
    ensures Total(f) == c * Total(g)
  {
    RowsSumScale(f, g, c, GrayLevels);
  }

  lemma {:induction false} RowSumMonotone(f: Term, g: Term, i: int, n: nat)
    requires forall j :: 0 <= j < n ==> f(i, j) <= g(i, j)
    ensures RowSum(f, i, n) <= RowSum(g, i, n)
  {
    if n > 0 { RowSumMonotone(f, g, i, n - 1); }
  }

  lemma {:induction false} RowsSumMonotone(f: Term, g: Term, m: nat)
    requires m <= GrayLevels
    requires forall i, j :: 0 <= i < m && 0 <= j < GrayLevels ==> f(i, j) <= g(i, j)
    ensures RowsSum(f, m) <= RowsSum(g, m)
  {
    if m > 0 {
      RowsSumMonotone(f, g, m - 1);
      RowSumMonotone(f, g, m - 1, GrayLevels);
    }
  }

  /** Pointwise smaller summands give a smaller sum. */
  lemma TotalMonotone(f: Term, g: Term)
    requires forall i, j :: InGrid(i, j) ==> f(i, j) <= g(i, j)
    ensures Total(f) <= Total(g)
  {
    RowsSumMonotone(f, g, GrayLevels);
  }

  /** In a sum of nonnegative summands, each summand is at most the sum. */
  lemma TotalAtLeastPoint(f: Term, a: int, b: int)
    requires forall i, j :: InGrid(i, j) ==> f(i, j) >= 0.0
    requires InGrid(a, b)
    ensures f(a, b) <= Total(f)
  {
    var p: Term := (i: int, j: int) => if i == a && j == b then f(i, j) else 0.0;
    TotalPoint(p, a, b);
    TotalMonotone(p, f);
  }

  /** A sum of nonnegative summands is zero exactly when every summand is zero. */
  lemma TotalZeroIff(f: Term)
    requires forall i, j :: InGrid(i, j) ==> f(i, j) >= 0.0
    ensures Total(f) == 0.0 <==> forall i, j :: InGrid(i, j) ==> f(i, j) == 0.0
  {
    if Total(f) == 0.0 {
      forall i, j | InGrid(i, j) ensures f(i, j) == 0.0 {
        TotalAtLeastPoint(f, i, j);
      }
    } else if forall i, j :: InGrid(i, j) ==> f(i, j) == 0.0 {
      TotalZero(f);
    }
  }
}
