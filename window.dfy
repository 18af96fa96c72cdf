/**
 * The neighbourhood that both `getUpdatedPixel` aggregators visit
 * (internal/imaging/blurMean.go:18-46, internal/imaging/blurGaussian.go:17-45):
 * the clamped window on each axis, the sum of per-cell values over it, the
 * count of visited cells and the final division capped at 255.
 */
module Window {
  import opened Helpers
  import opened Pixels

  /** A half-open index range [lo, hi) on one axis; empty when hi <= lo. */
  datatype Span = Span(lo: int, hi: int) {
    /** How many indices the loop `for i := lo; i < hi; i++` visits. */
    function Len(): nat
    {
      if hi > lo then hi - lo else 0
    }
  }

  /**
   * The window on one axis for centre c: it starts at c - kernelSize/2 - 1,
   * moved up to 0 at the low edge (shifted, not shrunk), and is kernelSize - 1
   * long, cut at the extent. (`int(math.Floor(float64(k)/2))` is `k / 2`:
   * Dafny's division by 2 rounds down for negative k too.)
   */
  function WindowSpan(c: int, kernelSize: int, extent: nat): (s: Span)
    ensures 0 <= s.lo && s.hi <= extent
    ensures s.hi - s.lo <= kernelSize - 1
    ensures kernelSize >= 1 ==> s.Len() <= kernelSize - 1
    ensures 0 <= c < extent ==> (s.lo < s.hi <==> kernelSize >= 2)
  {
    var lo := Max(c - kernelSize / 2 - 1, 0);
    Span(lo, Min(lo + kernelSize - 1, extent))
  }

  /** Away from the low edge a size-3 window holds the two rows before the centre, never the centre itself. */
  lemma Kernel3WindowSkipsCentre(c: int, extent: nat)
    requires 2 <= c < extent
    ensures WindowSpan(c, 3, extent) == Span(c - 2, c)
  {
  }

  /**
   * A 5x5 grid with kernel size 3: the centre (2, 2) and the corner (0, 0)
   * visit the same 2x2 block of rows 0-1 and columns 0-1.
   */
  lemma FiveByFiveCentreAndCornerShareWindow()
    ensures WindowSpan(2, 3, 5) == WindowSpan(0, 3, 5) == Span(0, 2)
  {
  }

  /** Every visited index, taken relative to the window start, indexes a kernel of size kernelSize - 1 or more. */
  lemma KernelIndexInRange(c: int, kernelSize: int, extent: nat, i: int)
    requires WindowSpan(c, kernelSize, extent).lo <= i < WindowSpan(c, kernelSize, extent).hi
    ensures 0 <= i - WindowSpan(c, kernelSize, extent).lo < kernelSize - 1
    ensures 0 <= i < extent
  {
  }

  // ----- channels -----

  datatype Channel = R | G | B | A

  function Of(p: Pixel, ch: Channel): nat
  {
    match ch
    case R => p.r
    case G => p.g
    case B => p.b
    case A => p.a
  }

  function Of8(c: Rgba8, ch: Channel): uint8
  {
    match ch
    case R => c.r
    case G => c.g
    case B => c.b
    case A => c.a
  }

  /** Channel-wise sum, as `result.R += …` and its three siblings do. */
  function Add(p: Pixel, q: Pixel): Pixel
  {
    Pixel(p.r + q.r, p.g + q.g, p.b + q.b, p.a + q.a)
  }

  /** Adding nothing. */
  lemma AddBlank(p: Pixel)
    ensures Add(p, Blank) == p
  {
  }

  // ----- sums over a window -----

  /** The value one visited cell (row i, column j) adds to the running result. */
  type Cell = (int, int) -> Pixel

  /** Sum of cell(i, j) for lo <= j < hi. */
  function RowSum(cell: Cell, i: int, lo: int, hi: int): Pixel
    decreases hi - lo
  {
    if hi <= lo then Blank else Add(RowSum(cell, i, lo, hi - 1), cell(i, hi - 1))
  }

  /** One more column: adding cell(i, j) to a running total extends its row sum by j. */
  lemma RowSumExtend(total: Pixel, cell: Cell, i: int, lo: int, j: int)
    requires lo <= j
    ensures Add(Add(total, RowSum(cell, i, lo, j)), cell(i, j)) == Add(total, RowSum(cell, i, lo, j + 1))
  {
  }

  /** Sum of cell(i, j) over rows rlo <= i < rhi and every column of cols. */
  function RectSum(cell: Cell, rlo: int, rhi: int, cols: Span): Pixel
    decreases rhi - rlo
  {
    if rhi <= rlo then Blank else Add(RectSum(cell, rlo, rhi - 1, cols), RowSum(cell, rhi - 1, cols.lo, cols.hi))
  }

  function SpanSum(cell: Cell, rows: Span, cols: Span): Pixel
  {
    RectSum(cell, rows.lo, rows.hi, cols)
  }

  /** How many cells a row-by-row walk over rows rlo <= i < rhi of cols visits, one row at a time. */
  function VisitCount(rlo: int, rhi: int, cols: Span): nat
    decreases rhi - rlo
  {
    if rhi <= rlo then 0 else VisitCount(rlo, rhi - 1, cols) + cols.Len()
  }

  /** The walk visits every cell of the rectangle once: rows times columns. */
  lemma {:induction false} VisitCountIsArea(rlo: int, rhi: int, cols: Span)
    requires rlo <= rhi
    ensures VisitCount(rlo, rhi, cols) == (rhi - rlo) * cols.Len()
    decreases rhi - rlo
  {
    if rhi > rlo {
      VisitCountIsArea(rlo, rhi - 1, cols);
      assert (rhi - rlo) * cols.Len() == (rhi - 1 - rlo) * cols.Len() + cols.Len();
    }
  }

  /** A walk over rows rlo <= i < rhi that has stopped has visited the whole rectangle. */
  lemma WalkDone(cell: Cell, rlo: int, rhi: int, i: int, cols: Span)
    requires rlo <= i <= Max(rlo, rhi) && rhi <= i
    ensures VisitCount(rlo, i, cols) == Span(rlo, rhi).Len() * cols.Len()
    ensures RectSum(cell, rlo, i, cols) == RectSum(cell, rlo, rhi, cols)
  {
    VisitCountIsArea(rlo, i, cols);
  }

  lemma MulMonotone(a: int, b: int, n: nat)
    requires a <= b
    ensures a * n <= b * n
  {
  }

  /** n rows within [n · wl, n · wh] and one more within [wl, wh] lie within [(n + 1) · wl, (n + 1) · wh]. */
  lemma StackBounds(n: int, prev: int, row: int, wl: int, wh: int)
    requires n * wl <= prev <= n * wh && wl <= row <= wh
    ensures (n + 1) * wl <= prev + row <= (n + 1) * wh
  {
    assert (n + 1) * wl == n * wl + wl;
    assert (n + 1) * wh == n * wh + wh;
  }

  lemma {:induction false} RowSumBounds(cell: Cell, i: int, lo: int, hi: int, ch: Channel, low: nat, high: nat)
    requires lo <= hi
    requires forall j :: lo <= j < hi ==> low <= Of(cell(i, j), ch) <= high
    ensures (hi - lo) * low <= Of(RowSum(cell, i, lo, hi), ch) <= (hi - lo) * high
    decreases hi - lo
  {
    if hi > lo {
      RowSumBounds(cell, i, lo, hi - 1, ch, low, high);
      var prev := RowSum(cell, i, lo, hi - 1);
      assert Of(RowSum(cell, i, lo, hi), ch) == Of(prev, ch) + Of(cell(i, hi - 1), ch);
      StackBounds(hi - 1 - lo, Of(prev, ch), Of(cell(i, hi - 1), ch), low, high);
    }
  }

  /** A window sum lies between rows * rl and rows * rh when the sum of every visited row does between rl and rh. */
  lemma {:induction false} RectSumBoundsByRow(cell: Cell, rlo: int, rhi: int, cols: Span, ch: Channel, rl: int, rh: int)
    requires rlo <= rhi
    requires forall i :: rlo <= i < rhi ==> rl <= Of(RowSum(cell, i, cols.lo, cols.hi), ch) <= rh
    ensures (rhi - rlo) * rl <= Of(RectSum(cell, rlo, rhi, cols), ch) <= (rhi - rlo) * rh
    decreases rhi - rlo
  {
    if rhi > rlo {
      RectSumBoundsByRow(cell, rlo, rhi - 1, cols, ch, rl, rh);
      var prev, row := RectSum(cell, rlo, rhi - 1, cols), RowSum(cell, rhi - 1, cols.lo, cols.hi);
      assert Of(RectSum(cell, rlo, rhi, cols), ch) == Of(prev, ch) + Of(row, ch);
      StackBounds(rhi - 1 - rlo, Of(prev, ch), Of(row, ch), rl, rh);
    }
  }

  /** A window sum lies between count * low and count * high when every visited cell does between low and high. */
  lemma RectSumBounds(cell: Cell, rlo: int, rhi: int, cols: Span, ch: Channel, low: nat, high: nat)
    requires rlo <= rhi && cols.lo <= cols.hi
    requires forall i, j :: rlo <= i < rhi && cols.lo <= j < cols.hi ==> low <= Of(cell(i, j), ch) <= high
    ensures (rhi - rlo) * ((cols.hi - cols.lo) * low) <= Of(RectSum(cell, rlo, rhi, cols), ch)
                                                      <= (rhi - rlo) * ((cols.hi - cols.lo) * high)
  {
    var wl, wh := (cols.hi - cols.lo) * low, (cols.hi - cols.lo) * high;
    forall i | rlo <= i < rhi
      ensures wl <= Of(RowSum(cell, i, cols.lo, cols.hi), ch) <= wh
    {
      RowSumBounds(cell, i, cols.lo, cols.hi, ch, low, high);
    }
    RectSumBoundsByRow(cell, rlo, rhi, cols, ch, wl, wh);
  }

  lemma CountTimes(h: int, w: int, v: int)
    ensures h * (w * v) == (h * w) * v
  {
  }

  lemma MulCancelLess(a: int, b: int, n: nat)
    requires a * n < b * n
    ensures a < b
  {
  }

  /** A v with v · count ≤ sum ≤ count · high is at most high. */
  lemma QuotientAtMost(v: int, sum: nat, count: nat, high: nat)
    requires count > 0 && v * count <= sum <= count * high
    ensures v <= high
  {
    if v > high {
      MulMonotone(high + 1, v, count);
    }
  }

  /** Truncating division bounded on both sides by the bounds of the dividend. */
  lemma DivBetween(s: nat, n: nat, low: nat, high: nat)
    requires n > 0 && n * low <= s <= n * high
    ensures low <= s / n <= high
  {
    var q, r := s / n, s % n;
    assert s == q * n + r && 0 <= r < n;
    assert (q + 1) * n == q * n + n;
    assert low * n == n * low && high * n == n * high;
    MulCancelLess(low, q + 1, n);
    MulCancelLess(q, high + 1, n);
  }

  // ----- the count and the capped quotient -----

  function WindowRows(x: int, kernelSize: int, pixels: seq<seq<Pixel>>): Span
  {
    WindowSpan(x, kernelSize, |pixels|)
  }

  function WindowCols(y: int, kernelSize: int, pixels: seq<seq<Pixel>>): Span
  {
    WindowSpan(y, kernelSize, Width(pixels))
  }

  /** `kernelInnerSize` at the end of the loops: the number of visited cells. */
  function WindowCount(x: int, y: int, kernelSize: int, pixels: seq<seq<Pixel>>): nat
  {
    WindowRows(x, kernelSize, pixels).Len() * WindowCols(y, kernelSize, pixels).Len()
  }

  /** A centre inside the grid visits a cell exactly when the kernel size is 2 or more. */
  lemma WindowCountPositive(x: int, y: int, kernelSize: int, pixels: seq<seq<Pixel>>)
    requires 0 <= x < |pixels| && 0 <= y < Width(pixels)
    ensures WindowCount(x, y, kernelSize, pixels) > 0 <==> kernelSize >= 2
  {
  }

  /** Every window, at an edge or not, has fewer than kernelSize² cells: at most (kernelSize - 1)². */
  lemma WindowCountBelowKernelArea(x: int, y: int, kernelSize: int, pixels: seq<seq<Pixel>>)
    requires kernelSize >= 1
    ensures WindowCount(x, y, kernelSize, pixels) <= (kernelSize - 1) * (kernelSize - 1) < kernelSize * kernelSize
  {
    var h, w := WindowRows(x, kernelSize, pixels).Len(), WindowCols(y, kernelSize, pixels).Len();
    var m := kernelSize - 1;
    MulMonotone(h, m, w);
    MulMonotone(w, m, m);
    assert m * w == w * m;
    MulMonotone(m, kernelSize, m);
    MulMonotone(m, kernelSize, kernelSize);
    assert m * kernelSize == kernelSize * m;
    assert m * m < kernelSize * kernelSize;
  }

  /** `uint8(math.Min(float64(v), 255))` for a non-negative v. */
  function Cap(v: nat): (c: uint8)
    ensures c as int == Min(v, 255)
  {
    Min(v, 255) as uint8
  }

  /**
   * A capped mean of sum over count: the largest value in [0, 255] whose
   * count-fold does not exceed sum.
   */
  ghost predicate CappedMean(v: int, sum: nat, count: nat)
  {
    0 <= v <= 255 && v * count <= sum && (v == 255 || sum < (v + 1) * count)
  }

  lemma CappedQuotient(sum: nat, count: nat)
    requires count > 0
    ensures CappedMean(Min(sum / count, 255), sum, count)
  {
    var q := sum / count;
    assert sum == q * count + sum % count;
    assert (q + 1) * count == q * count + count;
    if q > 255 {
      MulMonotone(255, q, count);
    }
  }

  /** Every channel of the sum divided by the count, truncating, then capped at 255. */
  function Divide(sum: Pixel, count: nat): (c: Rgba8)
    requires count > 0
    ensures forall ch :: Of8(c, ch) as int == Min(Of(sum, ch) / count, 255)
    ensures forall ch :: CappedMean(Of8(c, ch) as int, Of(sum, ch), count)
  {
    CappedQuotient(sum.r, count);
    CappedQuotient(sum.g, count);
    CappedQuotient(sum.b, count);
    CappedQuotient(sum.a, count);
    Rgba8(Cap(sum.r / count), Cap(sum.g / count), Cap(sum.b / count), Cap(sum.a / count))
  }

  /** A capped mean of values in [low, high] with high <= 255 stays in [low, high]. */
  lemma DivideBetween(sum: Pixel, count: nat, ch: Channel, low: nat, high: nat)
    requires count > 0 && high <= 255
    requires count * low <= Of(sum, ch) <= count * high
    ensures low <= Of8(Divide(sum, count), ch) as int <= high
  {
    DivBetween(Of(sum, ch), count, low, high);
  }

  // ----- the two aggregators -----

  /** Mean blur: a visited cell adds its own channels. */
  function MeanCell(pixels: seq<seq<Pixel>>): Cell
  {
    (i, j) => if 0 <= i < |pixels| && 0 <= j < |pixels[i]| then pixels[i][j] else Blank
  }

  /** The sum the mean aggregator forms over its window. */
  function MeanSum(pixels: seq<seq<Pixel>>, x: int, y: int, kernelSize: int): Pixel
  {
    SpanSum(MeanCell(pixels), WindowRows(x, kernelSize, pixels), WindowCols(y, kernelSize, pixels))
  }

  /** What blurMean.go's `getUpdatedPixel` returns when its window is not empty. */
  function MeanPixel(pixels: seq<seq<Pixel>>, x: int, y: int, kernelSize: int): (c: Rgba8)
    requires WindowCount(x, y, kernelSize, pixels) > 0
    ensures forall ch :: CappedMean(Of8(c, ch) as int, Of(MeanSum(pixels, x, y, kernelSize), ch), WindowCount(x, y, kernelSize, pixels))
  {
    Divide(MeanSum(pixels, x, y, kernelSize), WindowCount(x, y, kernelSize, pixels))
  }

  /** Every cell of the window has channel ch within [low, high]. */
  ghost predicate WindowWithin(pixels: seq<seq<Pixel>>, x: int, y: int, kernelSize: int, ch: Channel, low: nat, high: nat)
    requires Rectangular(pixels)
  {
    var rows, cols := WindowRows(x, kernelSize, pixels), WindowCols(y, kernelSize, pixels);
    forall i, j :: rows.lo <= i < rows.hi && cols.lo <= j < cols.hi ==> low <= Of(pixels[i][j], ch) <= high
  }

  /**
   * The mean of a window lies between the least and the greatest value of the
   * cells it visits (when these fit in 8 bits).
   */
  lemma MeanPixelBetween(pixels: seq<seq<Pixel>>, x: int, y: int, kernelSize: int, ch: Channel, low: nat, high: nat)
    requires Rectangular(pixels)
    requires WindowCount(x, y, kernelSize, pixels) > 0 && high <= 255
    requires WindowWithin(pixels, x, y, kernelSize, ch, low, high)
    ensures low <= Of8(MeanPixel(pixels, x, y, kernelSize), ch) as int <= high
  {
    var rows, cols := WindowRows(x, kernelSize, pixels), WindowCols(y, kernelSize, pixels);
    forall i, j | rows.lo <= i < rows.hi && cols.lo <= j < cols.hi
      ensures low <= Of(MeanCell(pixels)(i, j), ch) <= high
    {
      assert MeanCell(pixels)(i, j) == pixels[i][j];
    }
    var count := WindowCount(x, y, kernelSize, pixels);
    assert rows.lo < rows.hi && cols.lo < cols.hi;
    RectSumBounds(MeanCell(pixels), rows.lo, rows.hi, cols, ch, low, high);
    CountTimes(rows.hi - rows.lo, cols.hi - cols.lo, low);
    CountTimes(rows.hi - rows.lo, cols.hi - cols.lo, high);
    DivideBetween(MeanSum(pixels, x, y, kernelSize), WindowCount(x, y, kernelSize, pixels), ch, low, high);
  }

  /** p with every channel capped at 255, as `uint8(math.Min(v, 255))` stores it. */
  function CapPixel(p: Pixel): Rgba8
  {
    Rgba8(Cap(p.r), Cap(p.g), Cap(p.b), Cap(p.a))
  }

  /**
   * A window whose cells all equal p averages to p with every channel capped
   * at 255: the sum is count · p exactly, so the quotient is p itself.
   */
  lemma MeanOfUniformWindow(pixels: seq<seq<Pixel>>, x: int, y: int, kernelSize: int, p: Pixel)
    requires Rectangular(pixels)
    requires WindowCount(x, y, kernelSize, pixels) > 0
    requires forall i, j :: (WindowRows(x, kernelSize, pixels).lo <= i < WindowRows(x, kernelSize, pixels).hi &&
                             WindowCols(y, kernelSize, pixels).lo <= j < WindowCols(y, kernelSize, pixels).hi) ==> pixels[i][j] == p
    ensures MeanPixel(pixels, x, y, kernelSize) == CapPixel(p)
  {
    var c := MeanPixel(pixels, x, y, kernelSize);
    var rows, cols := WindowRows(x, kernelSize, pixels), WindowCols(y, kernelSize, pixels);
    var sum, count := MeanSum(pixels, x, y, kernelSize), WindowCount(x, y, kernelSize, pixels);
    assert rows.lo < rows.hi && cols.lo < cols.hi;
    forall ch
      ensures Of8(c, ch) as int == Min(Of(p, ch), 255)
    {
      var v := Of(p, ch);
      forall i, j | rows.lo <= i < rows.hi && cols.lo <= j < cols.hi
        ensures v <= Of(MeanCell(pixels)(i, j), ch) <= v
      {
        assert MeanCell(pixels)(i, j) == pixels[i][j];
      }
      RectSumBounds(MeanCell(pixels), rows.lo, rows.hi, cols, ch, v, v);
      CountTimes(rows.hi - rows.lo, cols.hi - cols.lo, v);
      DivBetween(Of(sum, ch), count, v, v);
      assert c == Divide(sum, count);
    }
    assert Of8(c, R) as int == Min(p.r, 255) && Of8(c, G) as int == Min(p.g, 255);
    assert Of8(c, B) as int == Min(p.b, 255) && Of8(c, A) as int == Min(p.a, 255);
  }

  /** The Gaussian kernel covers every relative index a window of this kernel size can produce. */
  ghost predicate KernelCovers(kernel: seq<seq<real>>, kernelSize: int)
  {
    |kernel| >= kernelSize - 1 && forall i :: 0 <= i < |kernel| ==> |kernel[i]| >= kernelSize - 1
  }

  /** Gaussian blur a cell's four truncated products `int(float64(channel) * weight)`, each abstracted as `contribution`. */
  function Weigh(p: Pixel, w: real, contribution: (nat, real) -> nat): Pixel
  {
    Pixel(contribution(p.r, w), contribution(p.g, w), contribution(p.b, w), contribution(p.a, w))
  }

  /** Gaussian blur: a visited cell adds its channels weighted by kernel[i - rlo][j - clo]. */
  function WeightedCell(pixels: seq<seq<Pixel>>, kernel: seq<seq<real>>, contribution: (nat, real) -> nat,
                        rlo: int, clo: int): Cell
  {
    (i, j) =>
      if 0 <= i < |pixels| && 0 <= j < |pixels[i]| && 0 <= i - rlo < |kernel| && 0 <= j - clo < |kernel[i - rlo]|
      then Weigh(pixels[i][j], kernel[i - rlo][j - clo], contribution)
      else Blank
  }

  /**
   * For a visited row i of a covering kernel, every index the Gaussian loop
   * uses is in range: the row of the grid and of the kernel, and every column
   * of the window in both.
   */
  lemma WeightedRowInRange(pixels: seq<seq<Pixel>>, kernel: seq<seq<real>>, x: int, y: int, kernelSize: int, i: int)
    requires Rectangular(pixels) && KernelCovers(kernel, kernelSize)
    requires WindowRows(x, kernelSize, pixels).lo <= i < WindowRows(x, kernelSize, pixels).hi
    ensures 0 <= i < |pixels| && 0 <= i - WindowRows(x, kernelSize, pixels).lo < |kernel|
    ensures 0 <= WindowCols(y, kernelSize, pixels).lo && WindowCols(y, kernelSize, pixels).hi <= |pixels[i]|
    ensures WindowCols(y, kernelSize, pixels).hi - WindowCols(y, kernelSize, pixels).lo <=
              |kernel[i - WindowRows(x, kernelSize, pixels).lo]|
  {
    KernelIndexInRange(x, kernelSize, |pixels|, i);
  }

  function WeightedSum(pixels: seq<seq<Pixel>>, kernel: seq<seq<real>>, contribution: (nat, real) -> nat,
                       x: int, y: int, kernelSize: int): Pixel
  {
    var rows, cols := WindowRows(x, kernelSize, pixels), WindowCols(y, kernelSize, pixels);
    SpanSum(WeightedCell(pixels, kernel, contribution, rows.lo, cols.lo), rows, cols)
  }

  /** What blurGaussian.go's `getUpdatedPixel` returns when its window is not empty. */
  function WeightedPixel(pixels: seq<seq<Pixel>>, kernel: seq<seq<real>>, contribution: (nat, real) -> nat,
                         x: int, y: int, kernelSize: int): (c: Rgba8)
    requires WindowCount(x, y, kernelSize, pixels) > 0
    ensures forall ch :: CappedMean(Of8(c, ch) as int, Of(WeightedSum(pixels, kernel, contribution, x, y, kernelSize), ch),
                                    WindowCount(x, y, kernelSize, pixels))
  {
    Divide(WeightedSum(pixels, kernel, contribution, x, y, kernelSize), WindowCount(x, y, kernelSize, pixels))
  }

  /** Every weighted cell of the window is bounded by a bound on the contributions of its cells. */
  lemma WeightedCellsAtMost(pixels: seq<seq<Pixel>>, kernel: seq<seq<real>>, contribution: (nat, real) -> nat,
                            x: int, y: int, kernelSize: int, ch: Channel, high: nat)
    requires Rectangular(pixels) && KernelCovers(kernel, kernelSize)
    requires forall i, j :: (WindowRows(x, kernelSize, pixels).lo <= i < WindowRows(x, kernelSize, pixels).hi &&
                             WindowCols(y, kernelSize, pixels).lo <= j < WindowCols(y, kernelSize, pixels).hi) ==>
               Of(Weigh(pixels[i][j], kernel[i - WindowRows(x, kernelSize, pixels).lo][j - WindowCols(y, kernelSize, pixels).lo],
                        contribution), ch) <= high
    ensures forall i, j :: (WindowRows(x, kernelSize, pixels).lo <= i < WindowRows(x, kernelSize, pixels).hi &&
                            WindowCols(y, kernelSize, pixels).lo <= j < WindowCols(y, kernelSize, pixels).hi) ==>
              Of(WeightedCell(pixels, kernel, contribution, WindowRows(x, kernelSize, pixels).lo, WindowCols(y, kernelSize, pixels).lo)(i, j), ch) <= high
  {
    var rows, cols := WindowRows(x, kernelSize, pixels), WindowCols(y, kernelSize, pixels);
    var cell := WeightedCell(pixels, kernel, contribution, rows.lo, cols.lo);
    forall i, j | rows.lo <= i < rows.hi && cols.lo <= j < cols.hi
      ensures Of(cell(i, j), ch) <= high
    {
      assert cell(i, j) == Weigh(pixels[i][j], kernel[i - rows.lo][j - cols.lo], contribution);
    }
  }

  /** A weighted window sum is at most the visited-cell count times a bound on its cells. */
  lemma WeightedSumAtMost(pixels: seq<seq<Pixel>>, kernel: seq<seq<real>>, contribution: (nat, real) -> nat,
                          x: int, y: int, kernelSize: int, ch: Channel, high: nat)
    requires WindowCount(x, y, kernelSize, pixels) > 0
    requires forall i, j :: (WindowRows(x, kernelSize, pixels).lo <= i < WindowRows(x, kernelSize, pixels).hi &&
                            WindowCols(y, kernelSize, pixels).lo <= j < WindowCols(y, kernelSize, pixels).hi) ==>
              Of(WeightedCell(pixels, kernel, contribution, WindowRows(x, kernelSize, pixels).lo, WindowCols(y, kernelSize, pixels).lo)(i, j), ch) <= high
    ensures Of(WeightedSum(pixels, kernel, contribution, x, y, kernelSize), ch) <= WindowCount(x, y, kernelSize, pixels) * high
  {
    var rows, cols := WindowRows(x, kernelSize, pixels), WindowCols(y, kernelSize, pixels);
    var cell := WeightedCell(pixels, kernel, contribution, rows.lo, cols.lo);
    assert rows.lo < rows.hi && cols.lo < cols.hi;
    var h, w := rows.hi - rows.lo, cols.hi - cols.lo;
    assert WindowCount(x, y, kernelSize, pixels) == h * w;
    RectSumBounds(cell, rows.lo, rows.hi, cols, ch, 0, high);
    assert Of(WeightedSum(pixels, kernel, contribution, x, y, kernelSize), ch) <= h * (w * high);
    CountTimes(h, w, high);
  }

  /**
   * The weighted aggregate never exceeds the largest single contribution of
   * the window (nor 255): dividing by the visited-cell count is an average.
   */
  lemma WeightedPixelAtMostLargestContribution(pixels: seq<seq<Pixel>>, kernel: seq<seq<real>>,
                                               contribution: (nat, real) -> nat,
                                               x: int, y: int, kernelSize: int, ch: Channel, high: nat)
    requires Rectangular(pixels) && KernelCovers(kernel, kernelSize)
    requires WindowCount(x, y, kernelSize, pixels) > 0 && high <= 255
    requires forall i, j :: (WindowRows(x, kernelSize, pixels).lo <= i < WindowRows(x, kernelSize, pixels).hi &&
                             WindowCols(y, kernelSize, pixels).lo <= j < WindowCols(y, kernelSize, pixels).hi) ==>
               Of(Weigh(pixels[i][j], kernel[i - WindowRows(x, kernelSize, pixels).lo][j - WindowCols(y, kernelSize, pixels).lo],
                        contribution), ch) <= high
    ensures Of8(WeightedPixel(pixels, kernel, contribution, x, y, kernelSize), ch) as int <= high
  {
    WeightedCellsAtMost(pixels, kernel, contribution, x, y, kernelSize, ch, high);
    WeightedSumAtMost(pixels, kernel, contribution, x, y, kernelSize, ch, high);
    var sum, count := Of(WeightedSum(pixels, kernel, contribution, x, y, kernelSize), ch), WindowCount(x, y, kernelSize, pixels);
    var v := Of8(WeightedPixel(pixels, kernel, contribution, x, y, kernelSize), ch) as int;
    assert v * count <= sum;
    QuotientAtMost(v, sum, count, high);
  }
}
