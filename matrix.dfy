/** A single-channel matrix header in the manner of cv::Mat: a window of
    rows x cols samples over shared row-major storage. Row i of the window
    starts at data[offset + i * step]; a region of interest (cv::Rect) is a
    second header over the same storage, not a copy. */
module Matrix {

  datatype Mat = Mat(data: array<real>, offset: nat, step: nat, rows: nat, cols: nat)
  {
    /** Rows do not overlap and the whole window lies inside data. */
    predicate Valid() {
      cols <= step && (rows == 0 || Index(rows - 1, cols) <= data.Length)
    }

    /** Row i + 1 starts right where row i ends, so a row cursor advanced by
        cols visits every row (cv::Mat::isContinuous; one row always is). */
    predicate IsContinuous() {
      rows <= 1 || step == cols
    }

    /** Distance in data from the start of row 0 to the start of row i of a
        window with the given step: i * step, accumulated one row at a time so
        that the verifier meets it as a sum rather than as a product. */
    static function RowStart(step: nat, i: nat): nat {
      if i == 0 then 0 else RowStart(step, i - 1) + step
    }

    static lemma {:induction false} RowStartIsProduct(step: nat, i: nat)
      ensures RowStart(step, i) == i * step
    {
      if i > 0 {
        RowStartIsProduct(step, i - 1);
      }
    }

    static lemma {:induction false} RowStartAdds(step: nat, i: nat, k: nat)
      ensures RowStart(step, i + k) == RowStart(step, i) + RowStart(step, k)
      decreases k
    {
      if k > 0 {
        RowStartAdds(step, i, k - 1);
      }
    }

    /** Position in data of cell (i, j). */
    function Index(i: nat, j: nat): nat {
      offset + RowStart(step, i) + j
    }

    /** The cell one row down is one step further in data. */
    lemma IndexNextRow(i: nat, j: nat)
      ensures Index(i + 1, j) == Index(i, j) + step
    {
    }

    /** Moving right within a row moves forward in data by as many cells. */
    lemma IndexShift(i: nat, j: nat, k: nat)
      ensures Index(i, j) + k == Index(i, j + k)
    {
    }

    lemma {:induction false} IndexMonotone(i: nat, j: nat, i': nat, j': nat)
      requires i <= i' && j <= j'
      ensures Index(i, j) <= Index(i', j')
      decreases i' - i
    {
      if i < i' {
        IndexMonotone(i, j, i' - 1, j');
      }
    }

    lemma IndexInRange()
      requires Valid()
      ensures forall i: nat, j: nat :: i < rows && j < cols ==> Index(i, j) < data.Length
    {
      forall i: nat, j: nat | i < rows && j < cols
        ensures Index(i, j) < data.Length
      {
        IndexShift(i, j, 1);
        IndexMonotone(i, j + 1, rows - 1, cols);
      }
    }

    /** Cells of different coordinates live at different positions of data. */
    lemma IndexSeparates(x: nat, y: nat)
      requires cols <= step && y < cols
      ensures forall i: nat, j: nat :: j < cols && (i != x || j != y) ==> Index(i, j) != Index(x, y)
    {
      forall i: nat, j: nat | j < cols && (i != x || j != y)
        ensures Index(i, j) != Index(x, y)
      {
        if i == x {
          IndexDistinctColumns(x, y, j);
        } else if i < x {
          IndexDistinctRows(i, j, x, y);
        } else {
          IndexDistinctRows(x, y, i, j);
        }
      }
    }

    lemma IndexDistinctColumns(x: nat, y: nat, j: nat)
      requires y != j
      ensures Index(x, j) != Index(x, y)
    {
    }

    /** Every cell of an earlier row lies before every cell of a later one. */
    lemma IndexDistinctRows(i: nat, j: nat, x: nat, y: nat)
      requires cols <= step && j < cols && i < x
      ensures Index(i, j) < Index(x, y)
    {
      IndexShift(i, j, step - j);
      IndexMonotone(i + 1, 0, x, y);
    }

    /** Element access, cv::Mat::at(i, j). */
    function At(i: nat, j: nat): real
      requires Valid() && i < rows && j < cols
      reads data
    {
      IndexInRange();
      data[Index(i, j)]
    }

    /** The samples of the window, as a grid value. */
    function Elements(): (g: seq<seq<real>>)
      requires Valid()
      reads data
      ensures |g| == rows
      ensures forall i :: 0 <= i < rows ==> |g[i]| == cols
      ensures forall i, j :: 0 <= i < rows && 0 <= j < cols ==> g[i][j] == At(i, j)
    {
      seq(rows, i requires 0 <= i < rows reads data =>
        seq(cols, j requires 0 <= j < cols reads data => At(i, j)))
    }

    /** Row x of the window lies in data from ptr = Index(x, 0) on. */
    lemma ElementsRow(x: nat, ptr: nat)
      requires Valid() && x < rows && ptr == Index(x, 0)
      ensures ptr + cols <= data.Length
      ensures forall j :: 0 <= j < cols ==> data[ptr + j] == Elements()[x][j]
    {
      IndexMonotone(x, cols, rows - 1, cols);
      forall j | 0 <= j < cols
        ensures data[ptr + j] == Elements()[x][j]
      {
        assert Elements()[x][j] == At(x, j);
      }
    }

    /** A window whose cells hold the values of t is that grid value. */
    lemma ElementsAre(t: seq<seq<real>>)
      requires Valid() && |t| == rows
      requires forall i :: 0 <= i < rows ==> |t[i]| == cols
      requires forall i, j :: 0 <= i < rows && 0 <= j < cols ==> At(i, j) == t[i][j]
      ensures Elements() == t
    {
      var g := Elements();
      forall i | 0 <= i < rows
        ensures g[i] == t[i]
      {
      }
    }

    /** The region of interest cv::Rect(x, y, width, height): a header over
        the same storage whose cell (i, j) is cell (y + i, x + j) of this one.
        Note that x counts columns and y counts rows. As in cv::Mat, a
        rectangle with no width or no height gives an empty 0 x 0 header. */
    function Roi(x: nat, y: nat, width: nat, height: nat): (v: Mat)
      requires Valid() && y + height <= rows && x + width <= cols
      ensures v.Valid() && v.data == data && v.step == step && v.offset == Index(y, x)
      ensures width == 0 || height == 0 ==> v.rows == 0 && v.cols == 0
      ensures 0 < width && 0 < height ==> v.rows == height && v.cols == width
      ensures forall i: nat, j: nat :: i < v.rows && j < v.cols ==> v.Index(i, j) == Index(y + i, x + j)
      ensures forall i, j :: 0 <= i < v.rows && 0 <= j < v.cols ==> v.At(i, j) == At(y + i, x + j)
    {
      if width == 0 || height == 0 then
        Mat(data, Index(y, x), step, 0, 0)
      else
        var v := Mat(data, Index(y, x), step, height, width);
        RoiIndex(v, x, y, width, height);
        v
    }

    lemma RoiIndex(v: Mat, x: nat, y: nat, width: nat, height: nat)
      requires Valid() && y + height <= rows && x + width <= cols
      requires v == Mat(data, Index(y, x), step, height, width)
      ensures v.Valid()
      ensures forall i: nat, j: nat :: v.Index(i, j) == Index(y + i, x + j)
    {
      forall i: nat, j: nat
        ensures v.Index(i, j) == Index(y + i, x + j)
      {
        RowStartAdds(step, y, i);
      }
      if height > 0 {
        IndexMonotone(y + height - 1, x + width, rows - 1, cols);
      }
    }

  }

  // -----------------------------------------------------------------------
  // A buffer being filled in row-major order

  /** Cell (i, j) comes before cell (x, y) in row-major order. */
  predicate Before(i: nat, j: nat, x: nat, y: nat) {
    i < x || (i == x && j < y)
  }

  /** Cell (i, j) of the window of m, read from s, a snapshot of its storage. */
  function Cell(m: Mat, s: seq<real>, i: nat, j: nat): real {
    if m.Index(i, j) < |s| then s[m.Index(i, j)] else 0.0
  }

  /** s, the contents of the storage of m, holds t[i][j] in every cell (i, j)
      of the window of m that comes before (x, y), and 0 in every later one.
      The cells are reached through Cell only, so that the fact is used where
      a lemma below asks for it and nowhere else. */
  ghost predicate FilledUpTo(m: Mat, s: seq<real>, t: seq<seq<real>>, x: nat, y: nat) {
    m.Valid() && |s| == m.data.Length && |t| == m.rows &&
    (forall i :: 0 <= i < m.rows ==> |t[i]| == m.cols) &&
    forall i: nat, j: nat {:trigger Cell(m, s, i, j)} :: i < m.rows && j < m.cols ==>
      Cell(m, s, i, j) == if Before(i, j, x, y) then t[i][j] else 0.0
  }

  /** What a cell of a partly filled buffer holds. */
  lemma FilledAt(m: Mat, s: seq<real>, t: seq<seq<real>>, x: nat, y: nat, i: nat, j: nat)
    requires FilledUpTo(m, s, t, x, y) && i < m.rows && j < m.cols
    ensures m.Index(i, j) < |s|
    ensures s[m.Index(i, j)] == if Before(i, j, x, y) then t[i][j] else 0.0
  {
    m.IndexInRange();
    assert Cell(m, s, i, j) == if Before(i, j, x, y) then t[i][j] else 0.0;
  }

  /** A zero-filled buffer is filled up to any cell before which t is zero. */
  lemma FilledFromZeros(m: Mat, s: seq<real>, t: seq<seq<real>>, x: nat, y: nat)
    requires m.Valid() && |s| == m.data.Length && |t| == m.rows
    requires forall i :: 0 <= i < m.rows ==> |t[i]| == m.cols
    requires forall k :: 0 <= k < |s| ==> s[k] == 0.0
    requires forall i, j :: 0 <= i < m.rows && 0 <= j < m.cols && Before(i, j, x, y) ==> t[i][j] == 0.0
    ensures FilledUpTo(m, s, t, x, y)
  {
    m.IndexInRange();
    forall i: nat, j: nat | i < m.rows && j < m.cols
      ensures Cell(m, s, i, j) == if Before(i, j, x, y) then t[i][j] else 0.0
    {
    }
  }

  /** Writing t[x][y] into cell (x, y), and nothing else, moves the frontier
      one cell on. s is the storage before the write, s' after it. */
  lemma FilledWrite(m: Mat, s: seq<real>, s': seq<real>, t: seq<seq<real>>, x: nat, y: nat)
    requires FilledUpTo(m, s, t, x, y) && x < m.rows && y < m.cols
    requires |s'| == |s| && m.Index(x, y) < |s| && s'[m.Index(x, y)] == t[x][y]
    requires forall k :: 0 <= k < |s| && k != m.Index(x, y) ==> s'[k] == s[k]
    ensures FilledUpTo(m, s', t, x, y + 1)
  {
    m.IndexInRange();
    m.IndexSeparates(x, y);
    forall i: nat, j: nat | i < m.rows && j < m.cols
      ensures Cell(m, s', i, j) == if Before(i, j, x, y + 1) then t[i][j] else 0.0
    {
      if i != x || j != y {
        assert Cell(m, s', i, j) == Cell(m, s, i, j);
      }
    }
  }

  /** A cell that t leaves zero needs no write to pass the frontier. */
  lemma FilledSkip(m: Mat, s: seq<real>, t: seq<seq<real>>, x: nat, y: nat)
    requires FilledUpTo(m, s, t, x, y) && x < m.rows && y < m.cols && t[x][y] == 0.0
    ensures FilledUpTo(m, s, t, x, y + 1)
  {
  }

  /** The end of one row is the start of the next. */
  lemma FilledNextRow(m: Mat, s: seq<real>, t: seq<seq<real>>, x: nat)
    requires FilledUpTo(m, s, t, x, m.cols)
    ensures FilledUpTo(m, s, t, x + 1, 0)
  {
  }

  /** A buffer filled past its last row holds t. */
  lemma FilledElements(m: Mat, t: seq<seq<real>>)
    requires FilledUpTo(m, m.data[..], t, m.rows, 0)
    ensures m.Elements() == t
  {
    forall i, j | 0 <= i < m.rows && 0 <= j < m.cols
      ensures m.At(i, j) == t[i][j]
    {
      FilledAt(m, m.data[..], t, m.rows, 0, i, j);
    }
    m.ElementsAre(t);
  }

  /** A fresh, zero-filled, continuous matrix (cv::Mat::zeros). */
  method Zeros(rows: nat, cols: nat) returns (m: Mat)
    ensures m.Valid() && m.IsContinuous() && fresh(m.data)
    ensures m.rows == rows && m.cols == cols && m.offset == 0 && m.step == cols
    ensures forall k :: 0 <= k < m.data.Length ==> m.data[k] == 0.0
  {
    var data := new real[rows * cols](_ => 0.0);
    m := Mat(data, 0, cols, rows, cols);
    if rows > 0 {
      Mat.RowStartIsProduct(cols, rows - 1);
      assert (rows - 1) * cols + cols == rows * cols;
    }
  }
}
