# Integral image builders

The program computes the summed-area table ("integral image") of a
single-channel `double` matrix, in three interchangeable ways:

- `computeNaive` evaluates the definition directly. Output cell `(x, y)` is the
  sum of every input sample `(ix, iy)` with `ix <= x` and `iy <= y`, re-summed
  for every cell with four nested loops.
- `computeUsingPrev` uses the row recurrence. It keeps a running sum `yxSum` of
  the current input row, reset at the start of every row. From the second row
  on, it adds the finished cell one row up. Both buffers are walked row by row
  through `image_ptr` and `iimage_ptr`.
- `computeUsingPadding` uses the same recurrence over a `(rows + 1) x
  (cols + 1)` zero-filled buffer. Writing starts at cell `(1, 1)`, so the
  "row above" read never needs a branch. It returns the `rows x cols` view of
  the buffer at `(1, 1)`. Its running row sum is an `int` fed with `(int)` of
  each sample.

The model has three modules:

- `IntegralSpec` (`integral.dfy`) is the mathematics:
  - `RectSum`, `IntegralTable` and the padded table `PaddedTable`;
  - the recurrences that the fast builders rely on;
  - independence from the order of summation, and monotonicity;
  - the tables of the identity matrix and of a grid of ones;
  - the truncating cast `(int)` as `TruncToInt`.
- `Matrix` (`matrix.dfy`) models a `cv::Mat` header. `Mat` is a window of
  `rows x cols` cells over a shared `array<real>`, described by an offset and
  a row step. It provides:
  - element access `At`;
  - the region of interest `Roi`, which is another header over the same storage;
  - `Zeros`, which is `cv::Mat::zeros`;
  - the predicate `FilledUpTo`, which describes a buffer filled in row-major
    order up to a given cell.
- `IntegralImage` (`builders.dfy`) holds the three builders as imperative
  methods over the arrays.
  - Each method keeps the source's loop structure, row cursors and strides. The
    inner loops are split out into helper methods.
  - Each method is proved to return a fresh matrix of the input's shape. Its
    samples are `IntegralTable` of the input, truncated in the padded case.
    The padded builder's result is a `cv::Rect` view, and a view of an empty
    rectangle is 0 x 0. So on an input with no rows or no columns, the padded
    builder returns 0 x 0, where the other two keep the input's shape.
  - For the padded builder, the whole buffer is proved to be `PaddedTable`, so
    its row 0 and column 0 are still zero sentinels.
  - None of the builders has a `modifies` clause, so none can write to its input.

Further points about the code:

- `(int)` truncates toward zero.
  - This agrees with flooring on non-negative samples (`TruncatedNonNegative`).
  - It differs on negative non-integers (`TruncIsNotFloor`).
- The code validates nothing. The requirement `Valid()` is the `cv::Mat`
  header invariant, not a check the builders make.
- `computeUsingPrev` and `computeUsingPadding` walk the input from `ptr(0)`
  with a stride of `cols`, so the model requires `IsContinuous()` of their
  input. `computeNaive` reads through `at` and works on any view.
- The benchmark tables of `cv::Mat::eye` are stated by `EyeTable`.
  `OnesTable` additionally states the table of a 5000 x 5000 grid of ones.
- `Mat.Elements` is the abstraction function: the samples of a view as a grid
  value, through which the builders' results are compared with
  `IntegralTable`.

## Model

| member | source | states |
|---|---|---|
| IntegralImage.ComputeNaive | src/main.cpp:3-16 | for any valid input view, returns a continuous matrix over freshly allocated storage, of the same shape, whose every cell (x, y) is the sum of the input rectangle [0, x] x [0, y] |
| IntegralImage.NaiveCell | src/main.cpp:7-13 | the two inner loops turn the zero cell (x, y) into its rectangle sum and leave every other cell of the output alone |
| IntegralImage.NaiveAddRow | src/main.cpp:9-11 | the innermost loop adds samples (ix, 0) .. (ix, y) to the one output cell and changes nothing else |
| IntegralImage.ComputeUsingPrev | src/main.cpp:18-42 | for a continuous input, returns a matrix over freshly allocated storage of the same shape holding the same table as ComputeNaive |
| IntegralImage.PrevRow | src/main.cpp:29-37 | one pass over row x, with yxSum reset to 0, finishes row x of the table when every earlier row is finished and row x is still zero |
| IntegralImage.PrevCell | src/main.cpp:32-36 | in that pass, iimage_ptr[y] is cell (x, y) and still zero; from the second row on, iimage_ptr[y - stride] is the finished cell (x - 1, y); and cell (x, y) is the cell above plus the running row sum, or the running row sum alone in row 0 |
| IntegralImage.ComputeUsingPadding | src/main.cpp:44-65 | for a continuous input, returns the view at (1, 1) of a fresh (rows + 1) x (cols + 1) buffer, which is 0 x 0 when the input has no rows or no columns; the view holds the table of the truncated input, and the whole buffer holds the padded table, so its row 0 and column 0 stay zero |
| IntegralImage.PaddingRow | src/main.cpp:55-59 | one pass over row x, with ySum reset to 0, writes row x + 1 of the buffer from column 1 on, and leaves its column 0 zero |
| IntegralImage.PaddingCell | src/main.cpp:57-58 | iimage_ptr[y] is buffer cell (x + 1, y + 1) and iimage_ptr[y - istride] is the finished cell above it; the cell is the running sum of the truncated row plus the cell above, with no branch |
| IntegralImage.PaddedBorder | src/main.cpp:46-49 | row 0 and column 0 of the padded table are zero |
| IntegralImage.PaddedView | src/main.cpp:63 | the rows x cols view at (1, 1) of a buffer holding the padded table is the integral table (an empty view when there are no columns), and the buffer's first row and column are zero |
| Matrix.Mat.Roi | src/main.cpp:63 | cv::Rect(x, y, w, h) is a valid header over the same storage, of h rows and w columns, or 0 x 0 when w or h is 0; its cell (i, j) is cell (y + i, x + j) of the original |
| Matrix.Mat.ElementsRow | src/main.cpp:23-35 | for image_ptr at the start of row x, the row lies in storage, and image_ptr[j] is sample (x, j) |
| Matrix.Mat.IndexNextRow | src/main.cpp:38-39 | advancing a row cursor by step moves it to the same column of the next row |
| Matrix.Mat.IndexShift | src/main.cpp:49 | ptr(i) + k points at cell (i, k) |
| Matrix.Zeros | src/main.cpp:5 | cv::Mat::zeros gives a fresh continuous rows x cols matrix whose every cell is zero |
| Matrix.FilledWrite | src/main.cpp:36 | writing the table value into the frontier cell, and nowhere else, moves the filled frontier one cell on |
| Matrix.FilledElements | src/main.cpp:41 | a buffer filled past its last row holds the whole table |
| IntegralSpec.RowRecurrence | src/main.cpp:29-36 | table cell (0, y) is the running sum of row 0; cell (x, y) for x >= 1 is cell (x - 1, y) plus the running sum of row x |
| IntegralSpec.PaddedTableCell | src/main.cpp:46-49 | the padded table is zero on row 0 and column 0 and is the integral table shifted by (1, 1) elsewhere |
| IntegralSpec.PaddedRecurrence | src/main.cpp:57-58 | every padded cell past the sentinels is the running row sum plus the cell above, in every row including the first |
| IntegralSpec.EmptyRectangle | src/main.cpp:46 | a rectangle with no rows or no columns sums to zero, which is what the sentinels hold |
| IntegralSpec.InclusionExclusion | src/main.cpp:8-11 | a rectangle sum is the sums above and to the left, minus their overlap, plus the corner sample |
| IntegralSpec.SummationOrder | src/main.cpp:8-11 | summing rows first, as the naive loops do, equals summing columns first |
| IntegralSpec.TableMonotone | src/main.cpp:3-16 | on non-negative input every table cell is at least the cell above and the cell to its left |
| IntegralSpec.FirstCell | src/main.cpp:3-16 | table cell (0, 0) is the first sample, and a 1 x 1 grid is its own table |
| IntegralSpec.EyeTable | src/main.cpp:70 | the table of the n x n identity matrix of the benchmark has min(x, y) + 1 in cell (x, y) |
| IntegralSpec.OnesTable | src/main.cpp:89 | at the 5000 x 5000 scale of the benchmark input (which is eye, not ones), the table of a grid of ones has (x + 1)(y + 1) in cell (x, y), and 25000000 in its last cell |
| IntegralSpec.TruncToInt | src/main.cpp:57 | (int)v drops the fractional part of v, rounding toward zero from either side |
| IntegralSpec.TruncIsNotFloor | src/main.cpp:57 | the cast differs from flooring on -0.5 |
| IntegralSpec.TruncOfIntegral | src/main.cpp:57 | the cast is the identity on integral samples |
| IntegralSpec.TruncatedIntegral | src/main.cpp:57 | truncating a grid of integral samples leaves it unchanged |
| IntegralSpec.TruncatedNonNegative | src/main.cpp:57 | on non-negative samples, truncating a grid is flooring it |
| IntegralSpec.TruncatedTableIntegral | src/main.cpp:57-63 | on integral input, the padded builder's table equals the naive table |

## Left out

- `main`, `cv::TickMeter` and the printing of timings (src/main.cpp:67-101): benchmarking and I/O only. The two sample matrices appear only as the `EyeTable` lemma.
- `cv::Mat` internals (reference counting, element types, allocation): `Mat` is a header over an `array<real>`. Assigning the ROI to `iimage` is a new header over the same array.
- IEEE-754 doubles: samples and sums are exact reals. In the model the naive and row-recurrence builders agree exactly, and the padded builder agrees with them on integral samples (`TruncatedTableIntegral`). With doubles, the results could differ in rounding between summation orders.
- TruncToInt: models `(int)v` only where the result fits an `int`. Out-of-range and NaN conversions are left out, because reals are unbounded.
- IntegralImage.PaddingRow: the running sum `ySum` is an unbounded integer. A 32-bit `int` could overflow on large inputs.
- IntegralImage.ComputeUsingPrev: requires a continuous input, which the source assumes without checking. Its row cursor steps by `cols` from `ptr(0)`.
- IntegralImage.ComputeUsingPadding: requires a continuous input, for the same reason as `ComputeUsingPrev`.
- IntegralImage.ComputeUsingPadding: on an input with no rows, `iimage.ptr<double>(1)` names the row just past a one-row buffer. It fails the row-index assertion of a debug build of OpenCV. The model treats it as a plain position, like a release build does.
- The inner loops of the three builders are separate methods (`NaiveCell`, `NaiveAddRow`, `PrevRow`, `PaddingRow`). These are in-place updates of the same output array.
