/**
 * internal/imaging/blur.go: the kernel-size validation shared by every blur,
 * the outcome of a blur, and the older draft of the mean blur, which sums an
 * unclamped window over an interior band only and always divides by
 * kernelSize².
 */
module Blur {
  import opened Wrappers
  import opened Helpers
  import opened Pixels
  import opened Window

  /** The two errors `validateAndGatherImage` returns. */
  datatype KernelError =
    | EvenKernelSize(kernelSize: int)
    | KernelTooLarge(kernelSize: int, max: int)

  /** Go runtime panics the blur code can reach. */
  datatype RuntimePanic =
    | DivideByZero     // integer division by an empty window's count
    | IndexOutOfRange  // a negative slice index
    | NilBlurAction    // a method call on the nil `imaging.Blur` interface
    | NegativeLength   // `make` with a negative length

  /**
   * What a blur call ends in: the final target image (rows of Y, each of
   * X), or no image at all when no pass ran (a nil `*image.RGBA` with a nil
   * error), or an error, or a runtime panic.
   */
  datatype BlurOutcome =
    | Blurred(image: Option<seq<seq<Rgba8>>>)
    | Failed(error: KernelError)
    | Panicked(cause: RuntimePanic)

  /** Go's `/` on int: the quotient truncated toward zero. */
  function GoQuo(a: int, b: int): int
    requires b > 0
  {
    if a >= 0 then a / b else -((-a) / b)
  }

  /**
   * Go's `%` on int: the remainder of truncating division, which has the
   * sign of the dividend; a is the truncated quotient times b plus r.
   */
  function GoRem(a: int, b: int): (r: int)
    requires b > 0
    ensures -b < r < b
    ensures a >= 0 ==> r == a % b
    ensures a < 0 ==> r <= 0
    ensures a == GoQuo(a, b) * b + r
  {
    if a >= 0 then a % b
    else
      var q, m := (-a) / b, (-a) % b;
      assert -a == q * b + m;
      assert (-q) * b == -(q * b);
      -m
  }

  /** Testing `k % 2 == 0` in Go rejects exactly the even sizes, negative ones included. */
  lemma GoRemTwoIsZeroIffEven(k: int)
    ensures GoRem(k, 2) == 0 <==> k % 2 == 0
    ensures k < 0 && k % 2 == 1 ==> GoRem(k, 2) == -1
  {
  }

  /**
   * blur.go `validateAndGatherImage`: an even kernel size is rejected before
   * anything else is looked at; then a size above min(width, height); then
   * the pixel grid is returned.
   */
  function ValidateAndGatherImage(img: Picture, kernelSize: int): (r: Result<seq<seq<Pixel>>, KernelError>)
    ensures r.Err? <==> kernelSize % 2 == 0 || Min(img.width, img.height) < kernelSize
    ensures kernelSize % 2 == 0 ==> r == Err(EvenKernelSize(kernelSize))
    ensures kernelSize % 2 == 1 && Min(img.width, img.height) < kernelSize ==>
              r == Err(KernelTooLarge(kernelSize, Min(img.width, img.height)))
    ensures r.Ok? ==> r.value == PixelsOf(img) && kernelSize != 0
  {
    if GoRem(kernelSize, 2) == 0 then
      Err(EvenKernelSize(kernelSize))
    else
      var maxKernelSize := Min(img.width, img.height);
      if maxKernelSize < kernelSize then Err(KernelTooLarge(kernelSize, maxKernelSize))
      else Ok(PixelsOf(img))
  }

  /** Every negative odd size passes both checks, whatever the image. */
  lemma NegativeOddKernelPasses(img: Picture, kernelSize: int)
    requires kernelSize < 0 && kernelSize % 2 == 1
    ensures ValidateAndGatherImage(img, kernelSize) == Ok(PixelsOf(img))
  {
  }

  /** Validation looks only at the bounds: two images of equal size validate alike. */
  lemma ValidationDependsOnBoundsOnly(img: Picture, other: Picture, kernelSize: int)
    requires img.width == other.width && img.height == other.height
    ensures ValidateAndGatherImage(img, kernelSize).Ok? == ValidateAndGatherImage(other, kernelSize).Ok?
    ensures ValidateAndGatherImage(img, kernelSize).Err? ==>
              ValidateAndGatherImage(img, kernelSize) == ValidateAndGatherImage(other, kernelSize)
  {
  }

  // ----- the draft mean of blur.go -----

  /** The draft's window on one axis: kernelSize - 1 indices from c - kernelSize/2 - 1, not clamped. */
  function DraftSpan(c: int, kernelSize: int): (s: Span)
    ensures s.hi - s.lo == kernelSize - 1
  {
    var lo := c - kernelSize / 2 - 1;
    Span(lo, lo + kernelSize - 1)
  }

  /** The draft window, when it visits anything, lies inside the grid: what the caller's loop bounds must ensure. */
  ghost predicate DraftWindowInBounds(x: int, y: int, kernelSize: int, pixels: seq<seq<Pixel>>)
  {
    var rows, cols := DraftSpan(x, kernelSize), DraftSpan(y, kernelSize);
    rows.Len() == 0 || cols.Len() == 0 ||
    (0 <= rows.lo && rows.hi <= |pixels| && 0 <= cols.lo && cols.hi <= Width(pixels))
  }

  lemma DraftCellInBounds(x: int, y: int, kernelSize: int, pixels: seq<seq<Pixel>>, i: int, j: int)
    requires Rectangular(pixels) && DraftWindowInBounds(x, y, kernelSize, pixels)
    requires DraftSpan(x, kernelSize).lo <= i < DraftSpan(x, kernelSize).hi
    requires DraftSpan(y, kernelSize).lo <= j < DraftSpan(y, kernelSize).hi
    ensures 0 <= i < |pixels| && 0 <= j < |pixels[i]|
  {
  }

  /** Go's `uint8(v)` conversion: the low eight bits, that is v modulo 256. */
  function Wrap8(v: int): (b: uint8)
    ensures b as int == v % 256
  {
    (v % 256) as uint8
  }

  /** `color.RGBA{uint8(s.R / d), …}`: each channel divided by d, truncating, then wrapped into 8 bits. */
  function DivideWrap(s: Pixel, d: int): (c: Rgba8)
    requires d > 0
    ensures forall ch :: Of8(c, ch) as int == (Of(s, ch) / d) % 256
  {
    Rgba8(Wrap8(s.r / d), Wrap8(s.g / d), Wrap8(s.b / d), Wrap8(s.a / d))
  }

  /** The draft's divisor: kernelSize², whatever the window visited. */
  function KernelArea(kernelSize: int): (d: int)
    requires kernelSize != 0
    ensures d > 0
  {
    kernelSize * kernelSize
  }

  /** What blur.go's `determineMeanValuesWithinKernel` returns. */
  function DraftMean(pixels: seq<seq<Pixel>>, x: int, y: int, kernelSize: int): (c: Rgba8)
    requires kernelSize != 0
    ensures forall ch :: Of8(c, ch) as int ==
              (Of(SpanSum(MeanCell(pixels), DraftSpan(x, kernelSize), DraftSpan(y, kernelSize)), ch) / (kernelSize * kernelSize)) % 256
    ensures kernelSize <= 1 ==> c == Transparent
  {
    DivideWrap(SpanSum(MeanCell(pixels), DraftSpan(x, kernelSize), DraftSpan(y, kernelSize)), KernelArea(kernelSize))
  }

  /**
   * blur.go `determineMeanValuesWithinKernel`: sums the (kernelSize-1)² cells
   * of the unclamped window, divides by kernelSize² whatever it visited, and
   * folds each quotient into 8 bits with wrap-around; there is no cap at 255.
   */
  method DetermineMeanValuesWithinKernel(x: int, y: int, kernelSize: int, pixels: seq<seq<Pixel>>) returns (c: Rgba8)
    requires kernelSize != 0  // the divisor kernelSize * kernelSize
    requires Rectangular(pixels) && DraftWindowInBounds(x, y, kernelSize, pixels)
    ensures c == DraftMean(pixels, x, y, kernelSize)
  {
    var startIdx := x - kernelSize / 2 - 1;
    var endIdx := startIdx + kernelSize - 1;
    var startYIdx := y - kernelSize / 2 - 1;
    var endYIdx := startYIdx + kernelSize - 1;
    var kernelInnerSize := KernelArea(kernelSize);
    ghost var cols := Span(startYIdx, endYIdx);
    assert DraftSpan(x, kernelSize) == Span(startIdx, endIdx) && DraftSpan(y, kernelSize) == cols;
    ghost var cell := MeanCell(pixels);
    var result := Blank;
    var i := startIdx;
    while i < endIdx
      invariant startIdx <= i <= Max(startIdx, endIdx)
      invariant result == RectSum(cell, startIdx, i, cols)
    {
      result := AddDraftRow(x, y, kernelSize, pixels, i, startYIdx, endYIdx, result);
      i := i + 1;
    }
    WalkDone(cell, startIdx, endIdx, i, cols);
    c := DivideWrap(result, kernelInnerSize);
  }

  /** The inner loop of `determineMeanValuesWithinKernel` (blur.go:58-63) for window row i. */
  method AddDraftRow(x: int, y: int, kernelSize: int, pixels: seq<seq<Pixel>>, i: int, startYIdx: int, endYIdx: int,
                     result: Pixel) returns (sum: Pixel)
    requires Rectangular(pixels) && DraftWindowInBounds(x, y, kernelSize, pixels)
    requires DraftSpan(x, kernelSize).lo <= i < DraftSpan(x, kernelSize).hi
    requires DraftSpan(y, kernelSize) == Span(startYIdx, endYIdx)
    ensures sum == Add(result, RowSum(MeanCell(pixels), i, startYIdx, endYIdx))
  {
    ghost var cell := MeanCell(pixels);
    sum := result;
    AddBlank(result);
    var j := startYIdx;
    while j < endYIdx
      invariant startYIdx <= j <= Max(startYIdx, endYIdx)
      invariant sum == Add(result, RowSum(cell, i, startYIdx, j))
    {
      DraftCellInBounds(x, y, kernelSize, pixels, i, j);
      assert cell(i, j) == pixels[i][j];
      RowSumExtend(result, cell, i, startYIdx, j);
      sum := sum.(r := sum.r + pixels[i][j].r, g := sum.g + pixels[i][j].g,
                  b := sum.b + pixels[i][j].b, a := sum.a + pixels[i][j].a);
      j := j + 1;
    }
  }

  /** `startingOffset` of blur.go's `BlurMean`: `int(math.Floor(float64(k)/2) + 1)`. */
  function StartingOffset(kernelSize: int): int
  {
    kernelSize / 2 + 1
  }

  /** The interior band `BlurMean` visits: rows and columns from the offset up to the extent minus the offset. */
  predicate InBand(i: int, j: int, kernelSize: int, height: int, width: int)
  {
    StartingOffset(kernelSize) <= i < height - StartingOffset(kernelSize) &&
    StartingOffset(kernelSize) <= j < width - StartingOffset(kernelSize)
  }

  /** For every size the loop bounds admit without a panic, every index the draft window touches is in bounds. */
  lemma DraftBandInBounds(i: int, j: int, kernelSize: int, pixels: seq<seq<Pixel>>)
    requires kernelSize >= -1
    requires InBand(i, j, kernelSize, |pixels|, Width(pixels))
    ensures DraftWindowInBounds(i, j, kernelSize, pixels)
  {
  }

  /**
   * The inner loop of blur.go `BlurMean` for row i: every band column of that
   * row gets the draft mean, and no other cell of the target changes.
   */
  method FillBandRow(targetImg: array2<Rgba8>, pixels: seq<seq<Pixel>>, kernelSize: int, i: int)
    requires Rectangular(pixels) && |pixels| == targetImg.Length0 && Width(pixels) == targetImg.Length1
    requires kernelSize >= -1 && kernelSize != 0  // validation rejects even sizes
    requires StartingOffset(kernelSize) <= i < |pixels| - StartingOffset(kernelSize)
    modifies targetImg
    ensures forall y, x :: 0 <= y < targetImg.Length0 && 0 <= x < targetImg.Length1 ==>
              targetImg[y, x] == if y == i && InBand(y, x, kernelSize, |pixels|, Width(pixels))
                                 then DraftMean(pixels, y, x, kernelSize) else old(targetImg[y, x])
  {
    var startingOffset := StartingOffset(kernelSize);
    var j := startingOffset;
    while j < |pixels[i]| - startingOffset
      invariant startingOffset <= j
      invariant j <= |pixels[i]| - startingOffset || j == startingOffset
      invariant forall y, x :: 0 <= y < targetImg.Length0 && 0 <= x < targetImg.Length1 ==>
                  targetImg[y, x] == if y == i && startingOffset <= x < j
                                     then DraftMean(pixels, y, x, kernelSize) else old(targetImg[y, x])
    {
      DraftBandInBounds(i, j, kernelSize, pixels);
      var newPixel := DetermineMeanValuesWithinKernel(i, j, kernelSize, pixels);
      SetRGBA(targetImg, j, i, newPixel);
      j := j + 1;
    }
  }

  /**
   * blur.go `BlurMean` (decoding abstracted: `img` is the decoded image).
   * Validation failure returns before any pixel is computed; a size of -3
   * or below makes the starting offset negative and the first `pixels[i]`
   * panics; otherwise every band cell gets the draft mean at (X=j, Y=i) and
   * every other cell keeps the zero value of the fresh target.
   */
  method BlurMean(img: Picture, kernelSize: int) returns (out: BlurOutcome)
    ensures ValidateAndGatherImage(img, kernelSize).Err? ==> out == Failed(ValidateAndGatherImage(img, kernelSize).error)
    ensures ValidateAndGatherImage(img, kernelSize).Ok? && kernelSize <= -3 ==> out == Panicked(IndexOutOfRange)
    ensures ValidateAndGatherImage(img, kernelSize).Ok? && kernelSize > -3 ==>
              out.Blurred? && out.image.Some? && |out.image.value| == img.height &&
              (forall i :: 0 <= i < img.height ==> |out.image.value[i]| == img.width) &&
              forall i, j :: 0 <= i < img.height && 0 <= j < img.width ==>
                out.image.value[i][j] ==
                  if InBand(i, j, kernelSize, img.height, img.width)
                  then DraftMean(ValidateAndGatherImage(img, kernelSize).value, i, j, kernelSize)
                  else Transparent
  {
    var targetImg := NewRGBA(img.width, img.height);
    var validated := ValidateAndGatherImage(img, kernelSize);
    if validated.Err? {
      return Failed(validated.error);
    }
    var pixels := validated.value;
    PixelsOfShape(img);
    var startingOffset := StartingOffset(kernelSize);
    var i := startingOffset;
    while i < |pixels| - startingOffset
      invariant startingOffset <= i
      invariant startingOffset >= 0 ==> i <= |pixels| - startingOffset || i == startingOffset
      invariant startingOffset < 0 ==> i == startingOffset
      invariant forall y, x :: 0 <= y < img.height && 0 <= x < img.width ==>
                  targetImg[y, x] == if y < i && InBand(y, x, kernelSize, img.height, img.width)
                                     then DraftMean(pixels, y, x, kernelSize) else Transparent
    {
      if !(0 <= i < |pixels|) {
        // len(pixels[i]) with i < 0
        return Panicked(IndexOutOfRange);
      }
      FillBandRow(targetImg, pixels, kernelSize, i);
      i := i + 1;
    }
    out := Blurred(Some(Snapshot(targetImg)));
  }

  /**
   * On a uniform interior window of value v the draft returns
   * ((kernelSize-1)² · v / kernelSize²) modulo 256, not v: the fixed divisor
   * darkens every band pixel.
   */
  lemma DraftMeanOfUniformWindow(pixels: seq<seq<Pixel>>, x: int, y: int, kernelSize: int, v: nat)
    requires kernelSize >= 1 && Rectangular(pixels) && DraftWindowInBounds(x, y, kernelSize, pixels)
    requires forall i, j :: (DraftSpan(x, kernelSize).lo <= i < DraftSpan(x, kernelSize).hi &&
                             DraftSpan(y, kernelSize).lo <= j < DraftSpan(y, kernelSize).hi) ==> pixels[i][j].r == v
    ensures DraftMean(pixels, x, y, kernelSize).r as int ==
              (kernelSize - 1) * (kernelSize - 1) * v / KernelArea(kernelSize) % 256
  {
    var rows, cols := DraftSpan(x, kernelSize), DraftSpan(y, kernelSize);
    var cell := MeanCell(pixels);
    forall i, j | rows.lo <= i < rows.hi && cols.lo <= j < cols.hi
      ensures v <= Of(cell(i, j), R) <= v
    {
      assert cell(i, j) == pixels[i][j];
    }
    RectSumBounds(cell, rows.lo, rows.hi, cols, R, v, v);
    CountTimes(kernelSize - 1, kernelSize - 1, v);
  }
}
