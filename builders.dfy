/** The three integral-image builders. Each reads its input matrix only (none
    has a modifies clause), allocates fresh storage for its output, and
    returns a matrix of the input's shape (for the padded builder, 0 x 0 when
    the input has no rows or no columns) whose samples are IntegralTable of
    the input; for the padded builder, of the input with every sample
    truncated by (int), which is the same table on integral samples
    (TruncatedTableIntegral). */
module IntegralImage {
  import opened IntegralSpec
  import opened Matrix

  /** Direct evaluation of the definition: every output cell re-sums its
      whole rectangle with four nested loops. Works on any view, because it
      reads the input through at(ix, iy). */
  method ComputeNaive(image: Mat) returns (iimage: Mat)
    requires image.Valid()
    ensures iimage.Valid() && iimage.IsContinuous()
    ensures iimage.rows == image.rows && iimage.cols == image.cols
    ensures fresh(iimage.data) && iimage.data != image.data
    ensures iimage.Elements() == IntegralTable(image.Elements(), image.cols)
  {
    ghost var g := image.Elements();
    ghost var t := IntegralTable(g, image.cols);
    iimage := Zeros(image.rows, image.cols);
    FilledFromZeros(iimage, iimage.data[..], t, 0, 0);

    for x := 0 to image.rows
      invariant FilledUpTo(iimage, iimage.data[..], t, x, 0)
    {
      for y := 0 to image.cols
        invariant FilledUpTo(iimage, iimage.data[..], t, x, y)
        invariant g == image.Elements()
      {
        NaiveCell(image, iimage, x, y, t);
      }
      FilledNextRow(iimage, iimage.data[..], t, x);
    }
    FilledElements(iimage, t);
  }

  /** Cell (x, y) of ComputeNaive: the two inner loops, which add up every
      input sample (ix, iy) with ix <= x and iy <= y into the zero cell. */
  method NaiveCell(image: Mat, iimage: Mat, x: nat, y: nat, ghost t: seq<seq<real>>)
    requires image.Valid() && x < image.rows && y < image.cols
    requires iimage.data != image.data
    requires iimage.rows == image.rows && iimage.cols == image.cols
    requires t == IntegralTable(image.Elements(), image.cols)
    requires FilledUpTo(iimage, iimage.data[..], t, x, y)
    modifies iimage.data
    ensures FilledUpTo(iimage, iimage.data[..], t, x, y + 1)
  {
    ghost var g := image.Elements();
    ghost var s := iimage.data[..];
    var k := iimage.Index(x, y);
    FilledAt(iimage, s, t, x, y, x, y);
    for ix := 0 to x + 1
      invariant iimage.data[k] == RectSum(g, ix, y + 1)
      invariant forall q :: 0 <= q < iimage.data.Length && q != k ==> iimage.data[q] == s[q]
    {
      NaiveAddRow(image, iimage, k, ix, y, g);
    }
    FilledWrite(iimage, s, iimage.data[..], t, x, y);
  }

  /** The innermost loop of ComputeNaive: adds samples (ix, 0) .. (ix, y) of
      the input to position k of the output storage, and changes nothing else. */
  method NaiveAddRow(image: Mat, iimage: Mat, k: nat, ix: nat, y: nat, ghost g: Grid)
    requires image.Valid() && ix < image.rows && y < image.cols
    requires iimage.data != image.data && k < iimage.data.Length
    requires g == image.Elements()
    modifies iimage.data
    ensures iimage.data[k] == old(iimage.data[k]) + RowSum(g[ix], y + 1)
    ensures forall q :: 0 <= q < iimage.data.Length && q != k ==> iimage.data[q] == old(iimage.data[q])
  {
    for iy := 0 to y + 1
      invariant iimage.data[k] == old(iimage.data[k]) + RowSum(g[ix], iy)
      invariant forall q :: 0 <= q < iimage.data.Length && q != k ==> iimage.data[q] == old(iimage.data[q])
    {
      assert image.At(ix, iy) == g[ix][iy];
      // add sample (ix, iy) to output cell (x, y)
      iimage.data[k] := iimage.data[k] + image.At(ix, iy);
    }
  }

  /** One pass with the row recurrence: a running sum yxSum of the current
      input row, reset at every row, plus the finished cell one row up (read
      at iimagePtr[y - stride]) from the second row on. Both buffers are
      walked row by row, imagePtr and iimagePtr advancing by a stride of
      cols, so the input must be continuous. */
  method ComputeUsingPrev(image: Mat) returns (iimage: Mat)
    requires image.Valid() && image.IsContinuous()
    ensures iimage.Valid() && iimage.IsContinuous()
    ensures iimage.rows == image.rows && iimage.cols == image.cols
    ensures fresh(iimage.data) && iimage.data != image.data
    ensures iimage.Elements() == IntegralTable(image.Elements(), image.cols)
  {
    ghost var g := image.Elements();
    ghost var t := IntegralTable(g, image.cols);
    iimage := Zeros(image.rows, image.cols);
    FilledFromZeros(iimage, iimage.data[..], t, 0, 0);

    var stride := iimage.cols;
    var imagePtr := image.offset;   // image.ptr(0)
    var istride := image.cols;
    var iimagePtr := iimage.offset; // iimage.ptr(0)

    for x := 0 to image.rows
      invariant x < image.rows ==> imagePtr == image.Index(x, 0)
      invariant iimagePtr == iimage.Index(x, 0)
      invariant FilledUpTo(iimage, iimage.data[..], t, x, 0)
      invariant g == image.Elements()
    {
      image.ElementsRow(x, imagePtr);
      PrevRow(image, iimage, x, imagePtr, iimagePtr, stride, g, t);
      iimage.IndexNextRow(x, 0);
      image.IndexNextRow(x, 0);
      iimagePtr := iimagePtr + stride;
      imagePtr := imagePtr + istride;
    }
    FilledElements(iimage, t);
  }

  /** Row x of ComputeUsingPrev: the inner loop over y. g is the input as a
      grid value, whose row x starts at imagePtr in the storage of image. */
  method PrevRow(image: Mat, iimage: Mat, x: nat, imagePtr: nat, iimagePtr: nat, stride: nat,
                 ghost g: Grid, ghost t: Grid)
    requires IsRect(g, image.cols) && x < |g|
    requires imagePtr + image.cols <= image.data.Length
    requires forall j :: 0 <= j < image.cols ==> image.data[imagePtr + j] == g[x][j]
    requires iimage.data != image.data && iimage.IsContinuous()
    requires iimage.rows == |g| && iimage.cols == image.cols && stride == iimage.cols
    requires iimagePtr == iimage.Index(x, 0)
    requires t == IntegralTable(g, image.cols)
    requires FilledUpTo(iimage, iimage.data[..], t, x, 0)
    modifies iimage.data
    ensures FilledUpTo(iimage, iimage.data[..], t, x + 1, 0)
  {
    var nh := x - 1;
    var yxSum := 0.0;
    for y := 0 to image.cols
      invariant yxSum == RowSum(g[x], y)
      invariant FilledUpTo(iimage, iimage.data[..], t, x, y)
    {
      ghost var s := iimage.data[..];
      PrevCell(iimage, s, g, t, x, y, iimagePtr, stride);
      if nh >= 0 {
        iimage.data[iimagePtr + y] := iimage.data[iimagePtr + y] + iimage.data[iimagePtr + y - stride];
      }
      yxSum := yxSum + image.data[imagePtr + y];
      iimage.data[iimagePtr + y] := iimage.data[iimagePtr + y] + yxSum;
      FilledWrite(iimage, s, iimage.data[..], t, x, y);
    }
    FilledNextRow(iimage, iimage.data[..], t, x);
  }

  /** Where the body of the loop over y in PrevRow reads and writes, and why
      the value it leaves in cell (x, y) is the next cell of IntegralTable. */
  lemma PrevCell(iimage: Mat, s: seq<real>, g: Grid, t: Grid,
                 x: nat, y: nat, iimagePtr: nat, stride: nat)
    requires iimage.IsContinuous() && IsRect(g, iimage.cols)
    requires x < |g| && y < iimage.cols
    requires iimage.rows == |g| && stride == iimage.cols
    requires iimagePtr == iimage.Index(x, 0)
    requires t == IntegralTable(g, iimage.cols)
    requires FilledUpTo(iimage, s, t, x, y)
    ensures iimagePtr + y == iimage.Index(x, y) && iimagePtr + y < |s| && s[iimagePtr + y] == 0.0
    ensures x >= 1 ==> stride <= iimagePtr + y && s[iimagePtr + y - stride] == t[x - 1][y]
    ensures RowSum(g[x], y + 1) == RowSum(g[x], y) + g[x][y]
    ensures t[x][y] == (if x >= 1 then t[x - 1][y] else 0.0) + RowSum(g[x], y + 1)
  {
    FilledAt(iimage, s, t, x, y, x, y);
    if x >= 1 {
      iimage.IndexNextRow(x - 1, y);
      FilledAt(iimage, s, t, x, y, x - 1, y);
    }
    RowRecurrence(g, iimage.cols, x, y);
  }

  /** The same recurrence over a (rows + 1) x (cols + 1) zero-filled buffer:
      writing starts at cell (1, 1), so the cell one row up always exists and
      the loop has no branch. The row sum ySum is an int fed with (int) of
      each sample. The result is the rows x cols view of the buffer at
      (1, 1), which is 0 x 0 when the input has no rows or no columns, as a
      cv::Mat view of an empty rectangle is; the whole buffer is PaddedTable of the truncated input, so its
      row 0 and column 0 are still zero. */
  method ComputeUsingPadding(image: Mat) returns (iimage: Mat)
    requires image.Valid() && image.IsContinuous()
    ensures iimage.Valid() && fresh(iimage.data) && iimage.data != image.data
    ensures 0 < image.rows && 0 < image.cols ==> iimage.rows == image.rows && iimage.cols == image.cols
    ensures image.rows == 0 || image.cols == 0 ==> iimage.rows == 0 && iimage.cols == 0
    ensures iimage.offset == image.cols + 2 && iimage.step == image.cols + 1
    ensures 0 < image.cols ==> iimage.Elements() == IntegralTable(Truncated(image.Elements()), image.cols)
    ensures var buffer := Mat(iimage.data, 0, image.cols + 1, image.rows + 1, image.cols + 1);
      buffer.Valid() && buffer.Elements() == PaddedTable(Truncated(image.Elements()), image.cols)
  {
    ghost var g := image.Elements();
    ghost var tg := Truncated(g);
    ghost var p := PaddedTable(tg, image.cols);
    iimage := Zeros(image.rows + 1, image.cols + 1);
    PaddedBorder(tg, image.cols);
    FilledFromZeros(iimage, iimage.data[..], p, 1, 0);

    var istride := iimage.cols;
    var iimagePtr := istride + 1;   // iimage.ptr(1) + 1, cell (1, 1)
    iimage.IndexNextRow(0, 1);
    var stride := image.cols;
    var imagePtr := image.offset;   // image.ptr(0)

    for x := 0 to image.rows
      invariant x < image.rows ==> imagePtr == image.Index(x, 0)
      invariant iimagePtr == iimage.Index(x + 1, 1)
      invariant FilledUpTo(iimage, iimage.data[..], p, x + 1, 0)
      invariant g == image.Elements()
    {
      image.ElementsRow(x, imagePtr);
      PaddingRow(image, iimage, x, imagePtr, iimagePtr, istride, g, p);
      image.IndexNextRow(x, 0);
      iimage.IndexNextRow(x + 1, 1);
      imagePtr := imagePtr + stride;
      iimagePtr := iimagePtr + istride;
    }
    FilledElements(iimage, p);
    PaddedView(iimage, tg, image.cols);
    iimage := iimage.Roi(1, 1, image.cols, image.rows);
  }

  /** The sentinel row and column of PaddedTable are zero. */
  lemma PaddedBorder(g: Grid, cols: nat)
    requires IsRect(g, cols)
    ensures forall j :: 0 <= j <= cols ==> PaddedTable(g, cols)[0][j] == 0.0
    ensures forall i :: 0 <= i <= |g| ==> PaddedTable(g, cols)[i][0] == 0.0
  {
    forall j | 0 <= j <= cols
      ensures PaddedTable(g, cols)[0][j] == 0.0
    {
      PaddedTableCell(g, cols, 0, j);
    }
    forall i | 0 <= i <= |g|
      ensures PaddedTable(g, cols)[i][0] == 0.0
    {
      PaddedTableCell(g, cols, i, 0);
    }
  }

  /** A buffer holding PaddedTable of g holds the integral table of g in its
      view at (1, 1) (an empty view when there are no columns), and zeros in
      its first row and first column. */
  lemma PaddedView(buffer: Mat, g: Grid, cols: nat)
    requires IsRect(g, cols) && buffer.Valid()
    requires buffer.rows == |g| + 1 && buffer.cols == cols + 1
    requires buffer.Elements() == PaddedTable(g, cols)
    ensures 0 < cols ==> buffer.Roi(1, 1, cols, |g|).Elements() == IntegralTable(g, cols)
    ensures cols == 0 ==> buffer.Roi(1, 1, cols, |g|).Elements() == []
    ensures forall j :: 0 <= j <= cols ==> buffer.At(0, j) == 0.0
    ensures forall i :: 0 <= i <= |g| ==> buffer.At(i, 0) == 0.0
  {
    var view := buffer.Roi(1, 1, cols, |g|);
    if 0 < cols {
      var t := IntegralTable(g, cols);
      forall i, j | 0 <= i < |g| && 0 <= j < cols
        ensures view.At(i, j) == t[i][j]
      {
        PaddedTableCell(g, cols, i + 1, j + 1);
      }
      view.ElementsAre(t);
    }
    PaddedBorder(g, cols);
  }

  /** Row x of ComputeUsingPadding: the inner loop over y, writing row x + 1
      of the buffer from column 1 on. g is the input as a grid value, whose
      row x starts at imagePtr in the storage of image. */
  method PaddingRow(image: Mat, iimage: Mat, x: nat, imagePtr: nat, iimagePtr: nat, istride: nat,
                    ghost g: Grid, ghost p: Grid)
    requires IsRect(g, image.cols) && x < |g|
    requires imagePtr + image.cols <= image.data.Length
    requires forall j :: 0 <= j < image.cols ==> image.data[imagePtr + j] == g[x][j]
    requires iimage.data != image.data && iimage.IsContinuous()
    requires iimage.rows == |g| + 1 && iimage.cols == image.cols + 1 && istride == iimage.cols
    requires iimagePtr == iimage.Index(x + 1, 1)
    requires p == PaddedTable(Truncated(g), image.cols)
    requires FilledUpTo(iimage, iimage.data[..], p, x + 1, 0)
    modifies iimage.data
    ensures FilledUpTo(iimage, iimage.data[..], p, x + 2, 0)
  {
    ghost var tg := Truncated(g);
    PaddedTableCell(tg, image.cols, x + 1, 0);
    FilledSkip(iimage, iimage.data[..], p, x + 1, 0);
    var ySum: int := 0;
    for y := 0 to image.cols
      invariant ySum as real == RowSum(tg[x], y)
      invariant FilledUpTo(iimage, iimage.data[..], p, x + 1, y + 1)
    {
      ghost var s := iimage.data[..];
      PaddingCell(iimage, s, g, p, x, y, iimagePtr, istride);
      ySum := ySum + TruncToInt(image.data[imagePtr + y]);
      iimage.data[iimagePtr + y] := ySum as real + iimage.data[iimagePtr + y - istride];
      FilledWrite(iimage, s, iimage.data[..], p, x + 1, y + 1);
    }
    FilledNextRow(iimage, iimage.data[..], p, x + 1);
  }

  /** Where the body of the loop over y in PaddingRow reads and writes, and
      why the value it writes is the next cell of PaddedTable. */
  lemma PaddingCell(iimage: Mat, s: seq<real>, g: Grid, p: Grid,
                    x: nat, y: nat, iimagePtr: nat, istride: nat)
    requires iimage.IsContinuous() && 0 < iimage.cols && IsRect(g, iimage.cols - 1)
    requires x < |g| && y < iimage.cols - 1
    requires iimage.rows == |g| + 1 && istride == iimage.cols
    requires iimagePtr == iimage.Index(x + 1, 1)
    requires p == PaddedTable(Truncated(g), iimage.cols - 1)
    requires FilledUpTo(iimage, s, p, x + 1, y + 1)
    ensures iimagePtr + y == iimage.Index(x + 1, y + 1) && iimagePtr + y < |s|
    ensures istride <= iimagePtr + y && s[iimagePtr + y - istride] == p[x][y + 1]
    ensures RowSum(Truncated(g)[x], y + 1) == RowSum(Truncated(g)[x], y) + TruncToInt(g[x][y]) as real
    ensures p[x + 1][y + 1] == RowSum(Truncated(g)[x], y + 1) + p[x][y + 1]
  {
    iimage.IndexShift(x + 1, 1, y);
    iimage.IndexNextRow(x, y + 1);
    FilledAt(iimage, s, p, x + 1, y + 1, x, y + 1);
    FilledAt(iimage, s, p, x + 1, y + 1, x + 1, y + 1);
    PaddedRecurrence(Truncated(g), iimage.cols - 1, x, y);
    TruncatedAt(g, x, y);
  }
}
