/** The summed-area table ("integral image") of a rectangular grid of samples,
    as plain mathematics. The builders in module IntegralImage are proved to
    produce IntegralTable of their input; the padded builder produces it of
    the input with every sample truncated by (int), which is the same table
    on integral samples (TruncatedTableIntegral). */
module IntegralSpec {

  /** A grid is row-major: g[x][y] is the sample in row x, column y. */
  type Grid = seq<seq<real>>

  /** Every row of g holds exactly cols samples. */
  predicate IsRect(g: Grid, cols: nat) {
    forall x :: 0 <= x < |g| ==> |g[x]| == cols
  }

  /** The first nx rows of g exist and each holds at least ny samples. */
  predicate Covers(g: Grid, nx: nat, ny: nat) {
    nx <= |g| && forall x :: 0 <= x < nx ==> ny <= |g[x]|
  }

  /** Sum of the first n samples of a row. */
  function RowSum(row: seq<real>, n: nat): real
    requires n <= |row|
  {
    if n == 0 then 0.0 else RowSum(row, n - 1) + row[n - 1]
  }

  /** Sum of g[ix][iy] over 0 <= ix < nx and 0 <= iy < ny, rows outermost. */
  function RectSum(g: Grid, nx: nat, ny: nat): real
    requires Covers(g, nx, ny)
  {
    if nx == 0 then 0.0 else RectSum(g, nx - 1, ny) + RowSum(g[nx - 1], ny)
  }

  /** The integral image of g: cell (x, y) holds the sum of every sample in
      the rectangle [0, x] x [0, y], both ends inclusive. */
  function IntegralTable(g: Grid, cols: nat): (t: Grid)
    requires IsRect(g, cols)
    ensures |t| == |g| && IsRect(t, cols)
  {
    seq(|g|, x requires 0 <= x < |g| =>
      seq(cols, y requires 0 <= y < cols => RectSum(g, x + 1, y + 1)))
  }

  // ---------------------------------------------------------------------
  // The recurrences the fast builders rely on

  /** Row recurrence: the first row of the table is the running sum of the
      first input row, and every later cell is the cell above it plus the
      running sum of its own input row. */
  lemma RowRecurrence(g: Grid, cols: nat, x: nat, y: nat)
    requires IsRect(g, cols) && x < |g| && y < cols
    ensures
      var t := IntegralTable(g, cols);
      t[x][y] == if x == 0 then RowSum(g[0], y + 1)
                 else t[x - 1][y] + RowSum(g[x], y + 1)
  {
    var t := IntegralTable(g, cols);
    assert t[x][y] == RectSum(g, x + 1, y + 1);
    if x > 0 {
      assert t[x - 1][y] == RectSum(g, x, y + 1);
    }
  }

  /** A rectangle with no rows or with no columns sums to zero. */
  lemma {:induction false} EmptyRectangle(g: Grid, nx: nat, ny: nat)
    requires Covers(g, nx, ny)
    ensures RectSum(g, 0, ny) == 0.0
    ensures RectSum(g, nx, 0) == 0.0
  {
    if nx > 0 {
      EmptyRectangle(g, nx - 1, ny);
    }
  }

  /** The table extended by a zero row 0 and a zero column 0: cell (i, j)
      holds the sum of the rectangle of i rows and j columns. Cell (x + 1,
      y + 1) is cell (x, y) of IntegralTable. */
  function PaddedTable(g: Grid, cols: nat): (p: Grid)
    requires IsRect(g, cols)
    ensures |p| == |g| + 1 && IsRect(p, cols + 1)
  {
    seq(|g| + 1, i requires 0 <= i <= |g| =>
      seq(cols + 1, j requires 0 <= j <= cols => RectSum(g, i, j)))
  }

  /** Row 0 and column 0 of the padded table are zero sentinels, and the
      rest of it is the integral table shifted by one row and one column. */
  lemma PaddedTableCell(g: Grid, cols: nat, i: nat, j: nat)
    requires IsRect(g, cols) && i <= |g| && j <= cols
    ensures i == 0 || j == 0 ==> PaddedTable(g, cols)[i][j] == 0.0
    ensures 1 <= i && 1 <= j ==> PaddedTable(g, cols)[i][j] == IntegralTable(g, cols)[i - 1][j - 1]
  {
    assert PaddedTable(g, cols)[i][j] == RectSum(g, i, j);
    EmptyRectangle(g, i, j);
  }

  /** The branch-free update of the padded builder: each cell past the
      sentinels is the running sum of its input row plus the cell above. */
  lemma PaddedRecurrence(g: Grid, cols: nat, x: nat, y: nat)
    requires IsRect(g, cols) && x < |g| && y < cols
    ensures PaddedTable(g, cols)[x + 1][y + 1] == RowSum(g[x], y + 1) + PaddedTable(g, cols)[x][y + 1]
  {
    assert PaddedTable(g, cols)[x + 1][y + 1] == RectSum(g, x + 1, y + 1);
    assert PaddedTable(g, cols)[x][y + 1] == RectSum(g, x, y + 1);
  }

  /** The classic inclusion-exclusion form of the summed-area recurrence. */
  lemma InclusionExclusion(g: Grid, nx: nat, ny: nat)
    requires Covers(g, nx + 1, ny + 1)
    ensures RectSum(g, nx + 1, ny + 1) ==
            RectSum(g, nx, ny + 1) + RectSum(g, nx + 1, ny) - RectSum(g, nx, ny) + g[nx][ny]
  {
  }

  // ---------------------------------------------------------------------
  // The order of summation does not matter

  /** Sum of column y over the first n rows. */
  function ColumnSum(g: Grid, y: nat, n: nat): real
    requires n <= |g| && forall x :: 0 <= x < n ==> y < |g[x]|
  {
    if n == 0 then 0.0 else ColumnSum(g, y, n - 1) + g[n - 1][y]
  }

  /** The same rectangle sum as RectSum, columns outermost. */
  function ColumnFirstSum(g: Grid, nx: nat, ny: nat): real
    requires Covers(g, nx, ny)
  {
    if ny == 0 then 0.0 else ColumnFirstSum(g, nx, ny - 1) + ColumnSum(g, ny - 1, nx)
  }

  lemma {:induction false} ColumnFirstSumNoRows(g: Grid, ny: nat)
    requires Covers(g, 0, ny)
    ensures ColumnFirstSum(g, 0, ny) == 0.0
  {
    if ny > 0 {
      ColumnFirstSumNoRows(g, ny - 1);
    }
  }

  lemma {:induction false} ColumnFirstSumLastRow(g: Grid, nx: nat, ny: nat)
    requires 1 <= nx && Covers(g, nx, ny)
    ensures ColumnFirstSum(g, nx, ny) == ColumnFirstSum(g, nx - 1, ny) + RowSum(g[nx - 1], ny)
  {
    if ny > 0 {
      ColumnFirstSumLastRow(g, nx, ny - 1);
    }
  }

  /** Summing rows first or columns first gives the same rectangle sum, so
      the table does not depend on the order RectSum happens to use. */
  lemma {:induction false} SummationOrder(g: Grid, nx: nat, ny: nat)
    requires Covers(g, nx, ny)
    ensures RectSum(g, nx, ny) == ColumnFirstSum(g, nx, ny)
  {
    if nx == 0 {
      ColumnFirstSumNoRows(g, ny);
    } else {
      SummationOrder(g, nx - 1, ny);
      ColumnFirstSumLastRow(g, nx, ny);
    }
  }

  // ---------------------------------------------------------------------
  // Monotonicity on non-negative grids

  predicate NonNegative(g: Grid) {
    forall x, y :: 0 <= x < |g| && 0 <= y < |g[x]| ==> 0.0 <= g[x][y]
  }

  lemma {:induction false} RowSumNonNegative(row: seq<real>, n: nat)
    requires n <= |row| && forall y :: 0 <= y < |row| ==> 0.0 <= row[y]
    ensures 0.0 <= RowSum(row, n)
  {
    if n > 0 {
      RowSumNonNegative(row, n - 1);
    }
  }

  lemma {:induction false} RectSumGrowsRightward(g: Grid, nx: nat, ny: nat)
    requires NonNegative(g) && Covers(g, nx, ny + 1)
    ensures RectSum(g, nx, ny) <= RectSum(g, nx, ny + 1)
  {
    if nx > 0 {
      RectSumGrowsRightward(g, nx - 1, ny);
    }
  }

  /** On a grid of non-negative samples every cell of the table is at least
      the cell above it and the cell to its left. */
  lemma TableMonotone(g: Grid, cols: nat, x: nat, y: nat)
    requires IsRect(g, cols) && NonNegative(g) && x < |g| && y < cols
    ensures var t := IntegralTable(g, cols);
      (1 <= x ==> t[x - 1][y] <= t[x][y]) && (1 <= y ==> t[x][y - 1] <= t[x][y])
  {
    var t := IntegralTable(g, cols);
    assert t[x][y] == RectSum(g, x + 1, y + 1);
    RowSumNonNegative(g[x], y + 1);
    if 1 <= x {
      assert t[x - 1][y] == RectSum(g, x, y + 1);
    }
    if 1 <= y {
      assert t[x][y - 1] == RectSum(g, x + 1, y);
      RectSumGrowsRightward(g, x + 1, y);
    }
  }

  // ---------------------------------------------------------------------
  // Small tables

  /** The first cell of the table of a non-empty grid is its first sample;
      in particular a 1 x 1 grid is its own table. */
  lemma FirstCell(g: Grid, cols: nat)
    requires IsRect(g, cols) && 1 <= |g| && 1 <= cols
    ensures IntegralTable(g, cols)[0][0] == g[0][0]
    ensures |g| == 1 && cols == 1 ==> IntegralTable(g, cols) == g
  {
    var t := IntegralTable(g, cols);
    assert t[0][0] == RectSum(g, 1, 1) == RowSum(g[0], 1);
    if |g| == 1 && cols == 1 {
      assert t[0] == g[0];
    }
  }

  /** The n x n identity matrix (cv::Mat::eye). */
  function Eye(n: nat): (g: Grid)
    ensures |g| == n && IsRect(g, n)
  {
    seq(n, x requires 0 <= x < n => seq(n, y requires 0 <= y < n => if x == y then 1.0 else 0.0))
  }

  lemma {:induction false} EyeRowSum(n: nat, x: nat, m: nat)
    requires x < n && m <= n
    ensures RowSum(Eye(n)[x], m) == if x < m then 1.0 else 0.0
  {
    if m > 0 {
      EyeRowSum(n, x, m - 1);
    }
  }

  lemma {:induction false} EyeRectSum(n: nat, nx: nat, ny: nat)
    requires nx <= n && ny <= n
    ensures RectSum(Eye(n), nx, ny) == (if nx <= ny then nx else ny) as real
  {
    if nx > 0 {
      EyeRectSum(n, nx - 1, ny);
      EyeRowSum(n, nx - 1, ny);
    }
  }

  /** The table of the identity matrix counts the diagonal ones above and to
      the left: cell (x, y) is min(x, y) + 1. For n = 3 this is
      [[1,1,1],[1,2,2],[1,2,3]]; for n = 5000 the last cell is 5000. */
  lemma EyeTable(n: nat, x: nat, y: nat)
    requires x < n && y < n
    ensures IntegralTable(Eye(n), n)[x][y] == (if x <= y then x + 1 else y + 1) as real
  {
    EyeRectSum(n, x + 1, y + 1);
  }

  /** The rows x cols grid of ones. */
  function Ones(rows: nat, cols: nat): (g: Grid)
    ensures |g| == rows && IsRect(g, cols)
  {
    seq(rows, x requires 0 <= x < rows => seq(cols, y requires 0 <= y < cols => 1.0))
  }

  lemma {:induction false} OnesRowSum(rows: nat, cols: nat, x: nat, m: nat)
    requires x < rows && m <= cols
    ensures RowSum(Ones(rows, cols)[x], m) == m as real
  {
    if m > 0 {
      OnesRowSum(rows, cols, x, m - 1);
    }
  }

  lemma {:induction false} OnesRectSum(rows: nat, cols: nat, nx: nat, ny: nat)
    requires nx <= rows && ny <= cols
    ensures RectSum(Ones(rows, cols), nx, ny) == (nx * ny) as real
  {
    if nx > 0 {
      OnesRectSum(rows, cols, nx - 1, ny);
      OnesRowSum(rows, cols, nx - 1, ny);
      assert (nx - 1) * ny + ny == nx * ny;
    }
  }

  /** The table of a grid of ones counts the cells of each rectangle: cell
      (x, y) is (x + 1) * (y + 1); for a 5000 x 5000 grid the last cell is
      25000000. */
  lemma OnesTable(rows: nat, cols: nat, x: nat, y: nat)
    requires x < rows && y < cols
    ensures IntegralTable(Ones(rows, cols), cols)[x][y] == ((x + 1) * (y + 1)) as real
    ensures rows == 5000 && cols == 5000 && x == 4999 && y == 4999 ==>
      IntegralTable(Ones(rows, cols), cols)[x][y] == 25000000.0
  {
    OnesRectSum(rows, cols, x + 1, y + 1);
  }

  // ---------------------------------------------------------------------
  // The truncating cast of the padded builder

  /** The C++ conversion (int)v of a finite double: the fractional part is
      dropped, rounding toward zero (not toward minus infinity). */
  function TruncToInt(v: real): (r: int)
    ensures 0.0 <= v ==> r as real <= v < r as real + 1.0
    ensures v < 0.0 ==> r as real - 1.0 < v <= r as real
  {
    if 0.0 <= v then v.Floor else -((-v).Floor)
  }

  /** v has no fractional part. */
  predicate IsIntegral(v: real) {
    v == v.Floor as real
  }

  /** Rounding toward zero and flooring differ on negative non-integers. */
  lemma TruncIsNotFloor()
    ensures TruncToInt(-0.5) == 0 && (-0.5).Floor == -1
  {
  }

  /** g with every sample passed through (int) and back. */
  function Truncated(g: Grid): (tg: Grid)
    ensures |tg| == |g|
    ensures forall x :: 0 <= x < |g| ==> |tg[x]| == |g[x]|
  {
    seq(|g|, x requires 0 <= x < |g| =>
      seq(|g[x]|, y requires 0 <= y < |g[x]| => TruncToInt(g[x][y]) as real))
  }

  lemma TruncatedAt(g: Grid, x: nat, y: nat)
    requires x < |g| && y < |g[x]|
    ensures Truncated(g)[x][y] == TruncToInt(g[x][y]) as real
  {
  }

  predicate AllIntegral(g: Grid) {
    forall x, y :: 0 <= x < |g| && 0 <= y < |g[x]| ==> IsIntegral(g[x][y])
  }

  /** On integral samples the cast is the identity, so truncating the grid
      changes nothing. */
  lemma TruncatedIntegral(g: Grid)
    requires AllIntegral(g)
    ensures Truncated(g) == g
  {
    forall x | 0 <= x < |g|
      ensures Truncated(g)[x] == g[x]
    {
      forall y | 0 <= y < |g[x]|
        ensures Truncated(g)[x][y] == g[x][y]
      {
        TruncOfIntegral(g[x][y]);
      }
    }
  }

  lemma TruncOfIntegral(v: real)
    requires IsIntegral(v)
    ensures TruncToInt(v) as real == v
  {
    if v < 0.0 {
      assert -v == (-(v.Floor)) as real;
      assert (-v).Floor == -(v.Floor);
    }
  }

  /** g with every sample rounded toward minus infinity. */
  function Floored(g: Grid): (fg: Grid)
    ensures |fg| == |g|
    ensures forall x :: 0 <= x < |g| ==> |fg[x]| == |g[x]|
  {
    seq(|g|, x requires 0 <= x < |g| =>
      seq(|g[x]|, y requires 0 <= y < |g[x]| => g[x][y].Floor as real))
  }

  /** On non-negative samples the cast and flooring agree, so truncating the
      grid is flooring it. */
  lemma TruncatedNonNegative(g: Grid)
    requires NonNegative(g)
    ensures Truncated(g) == Floored(g)
  {
    forall x | 0 <= x < |g|
      ensures Truncated(g)[x] == Floored(g)[x]
    {
      forall y | 0 <= y < |g[x]|
        ensures Truncated(g)[x][y] == Floored(g)[x][y]
      {
        assert 0.0 <= g[x][y];
      }
    }
  }

  /** On integral samples the table of the truncated grid, which the padded
      builder produces, is the table of the grid itself. */
  lemma TruncatedTableIntegral(g: Grid, cols: nat)
    requires IsRect(g, cols) && AllIntegral(g)
    ensures IsRect(Truncated(g), cols)
    ensures IntegralTable(Truncated(g), cols) == IntegralTable(g, cols)
  {
    TruncatedIntegral(g);
  }
}
