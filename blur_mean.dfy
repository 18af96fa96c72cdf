/**
 * internal/imaging/blurMean.go: the mean blur action. `getUpdatedPixel`
 * averages the clamped window of a cell over the cells it actually visits;
 * `Blur` runs `Iterations` passes, each over the previous pass's output.
 */
module Mean {
  import opened Wrappers
  import opened Helpers
  import opened Pixels
  import opened Window
  import opened Blur
  import opened Iteration

  /** `BlurActionMean` with the fields of the embedded `BlurAction`. */
  class BlurActionMean {
    var kernelSize: int
    var iterations: int
    var image: Picture

    constructor (kernelSize: int, iterations: int, image: Picture)
      ensures this.kernelSize == kernelSize && this.iterations == iterations && this.image == image
    {
      this.kernelSize := kernelSize;
      this.iterations := iterations;
      this.image := image;
    }

    /**
     * blurMean.go `getUpdatedPixel`: sums the window around row x, column y
     * while counting the visited cells, then divides each channel by that
     * count and caps it at 255. An empty grid fails on `pixels[0]`; an empty
     * window fails on the division.
     */
    method GetUpdatedPixel(x: int, y: int, pixels: seq<seq<Pixel>>) returns (r: Result<Rgba8, RuntimePanic>)
      requires Rectangular(pixels)
      ensures |pixels| == 0 ==> r == Err(IndexOutOfRange)
      ensures |pixels| > 0 && WindowCount(x, y, kernelSize, pixels) == 0 ==> r == Err(DivideByZero)
      ensures |pixels| > 0 && WindowCount(x, y, kernelSize, pixels) > 0 ==> r == Ok(MeanPixel(pixels, x, y, kernelSize))
    {
      if |pixels| == 0 {
        // len(pixels[0])
        return Err(IndexOutOfRange);
      }
      var startIdx := Max(x - kernelSize / 2 - 1, 0);
      var endIdx := Min(startIdx + kernelSize - 1, |pixels|);
      var startYIdx := Max(y - kernelSize / 2 - 1, 0);
      var endYIdx := Min(startYIdx + kernelSize - 1, |pixels[0]|);
      ghost var cols := Span(startYIdx, endYIdx);
      assert WindowRows(x, kernelSize, pixels) == Span(startIdx, endIdx) && WindowCols(y, kernelSize, pixels) == cols;
      ghost var cell := MeanCell(pixels);
      var kernelInnerSize := 0;
      var result := Blank;
      var i := startIdx;
      while i < endIdx
        invariant startIdx <= i <= Max(startIdx, endIdx)
        invariant kernelInnerSize == VisitCount(startIdx, i, cols)
        invariant result == RectSum(cell, startIdx, i, cols)
      {
        result, kernelInnerSize := AddWindowRow(x, y, pixels, i, startIdx, startYIdx, endYIdx, result, kernelInnerSize);
        i := i + 1;
      }
      WalkDone(cell, startIdx, endIdx, i, cols);
      assert kernelInnerSize == WindowCount(x, y, kernelSize, pixels) && result == MeanSum(pixels, x, y, kernelSize);
      if kernelInnerSize == 0 {
        return Err(DivideByZero);
      }
      r := Ok(Divide(result, kernelInnerSize));
    }

    /**
     * The inner loop of `getUpdatedPixel` (blurMean.go:35-45) for window row i:
     * every column of the window adds its cell to the running result and
     * one to the running count.
     */
    method AddWindowRow(x: int, y: int, pixels: seq<seq<Pixel>>, i: int, startIdx: int, startYIdx: int, endYIdx: int,
                        result: Pixel, kernelInnerSize: nat)
      returns (sum: Pixel, count: nat)
      requires Rectangular(pixels)
      requires WindowRows(x, kernelSize, pixels).lo == startIdx <= i < WindowRows(x, kernelSize, pixels).hi
      requires WindowCols(y, kernelSize, pixels) == Span(startYIdx, endYIdx)
      ensures sum == Add(result, RowSum(MeanCell(pixels), i, startYIdx, endYIdx))
      ensures count == kernelInnerSize + Span(startYIdx, endYIdx).Len()
    {
      ghost var cell := MeanCell(pixels);
      sum, count := result, kernelInnerSize;
      AddBlank(result);
      var j := startYIdx;
      while j < endYIdx
        invariant startYIdx <= j <= Max(startYIdx, endYIdx)
        invariant count == kernelInnerSize + (j - startYIdx)
        invariant sum == Add(result, RowSum(cell, i, startYIdx, j))
      {
        count := count + 1;
        assert |pixels[i]| == Width(pixels) && cell(i, j) == pixels[i][j];
        RowSumExtend(result, cell, i, startYIdx, j);
        sum := Add(sum, pixels[i][j]);
        j := j + 1;
      }
    }

    /**
     * The inner loop of one pass (blurMean.go:82-98) for row i: every cell of
     * the row is aggregated and stored at (X = j, Y = i); the first failing
     * cell ends the pass.
     */
    method FillRow(pixels: seq<seq<Pixel>>, targetImg: array2<Rgba8>, i: int) returns (failure: Option<RuntimePanic>)
      requires Rectangular(pixels) && targetImg.Length0 == |pixels| && targetImg.Length1 == Width(pixels)
      requires 0 <= i < |pixels|
      modifies targetImg
      ensures failure == if Width(pixels) > 0 && kernelSize < 2 then Some(DivideByZero) else None
      ensures failure.None? ==>
                forall y, x :: 0 <= y < targetImg.Length0 && 0 <= x < targetImg.Length1 ==>
                  targetImg[y, x] == if y == i then CellValue(MeanOfWindow, pixels, y, x, kernelSize) else old(targetImg[y, x])
    {
      var j := 0;
      while j < |pixels[i]|
        invariant 0 <= j <= |pixels[i]| == Width(pixels)
        invariant j > 0 ==> kernelSize >= 2
        invariant forall y, x :: 0 <= y < targetImg.Length0 && 0 <= x < targetImg.Length1 ==>
                    targetImg[y, x] == if y == i && x < j then CellValue(MeanOfWindow, pixels, y, x, kernelSize)
                                       else old(targetImg[y, x])
      {
        WindowCountPositive(i, j, kernelSize, pixels);
        var newPixel := GetUpdatedPixel(i, j, pixels);
        if newPixel.Err? {
          return Some(newPixel.error);
        }
        SetRGBA(targetImg, j, i, newPixel.value);
        j := j + 1;
      }
      failure := None;
    }

    /** The pass loop of blurMean.go:81-101 over a fresh target with the grid's bounds. */
    method FillTarget(pixels: seq<seq<Pixel>>, targetImg: array2<Rgba8>) returns (failure: Option<RuntimePanic>)
      requires Rectangular(pixels) && targetImg.Length0 == |pixels| && (|pixels| > 0 ==> targetImg.Length1 == Width(pixels))
      modifies targetImg
      ensures failure == if HasCell(pixels) && kernelSize < 2 then Some(DivideByZero) else None
      ensures failure.None? ==> Snapshot(targetImg) == PassRows(pixels, kernelSize, MeanOfWindow)
    {
      var i := 0;
      while i < |pixels|
        invariant 0 <= i <= |pixels|
        invariant i > 0 && Width(pixels) > 0 ==> kernelSize >= 2
        invariant forall y, x :: 0 <= y < i && 0 <= x < targetImg.Length1 ==>
                    targetImg[y, x] == CellValue(MeanOfWindow, pixels, y, x, kernelSize)
      {
        failure := FillRow(pixels, targetImg, i);
        if failure.Some? {
          return;
        }
        i := i + 1;
      }
      SnapshotIsPassRows(targetImg, pixels, kernelSize, MeanOfWindow);
      failure := None;
    }

    /**
     * One round of blurMean.go `Blur` (lines 66-101) on the current `b.Image`:
     * validation, a fresh target of the image's bounds, and the pass loop.
     */
    method RunPass() returns (result: PassResult)
      ensures result == OnePass(image, kernelSize, MeanOfWindow)
    {
      var validated := ValidateAndGatherImage(image, kernelSize);
      var targetImg := NewRGBA(image.width, image.height);
      if validated.Err? {
        return PassFailed(validated.error);
      }
      PixelsOfShape(image);
      var failure := FillTarget(validated.value, targetImg);
      if failure.Some? {
        return PassPanicked(failure.value);
      }
      result := PassOk(Snapshot(targetImg));
    }

    /**
     * blurMean.go `Blur`: round 0 reads `b.Image`; every later round first
     * makes the previous target the image; a validation error or a panic
     * ends the loop. The whole run, `b.Image` included, is the
     * iteration-loop function of the starting image.
     */
    method Blur(widen: Rgba8 -> Sample) returns (out: BlurOutcome)
      modifies this`image
      ensures Run(out, image) == Passes(old(image), kernelSize, Rounds(iterations), MeanOfWindow, widen)
    {
      ghost var n := Rounds(iterations);
      var rows: seq<seq<Rgba8>> := [];
      var iter := 0;
      while iter < iterations
        invariant 0 <= iter <= n
        invariant iter == 0 ==> image == old(image)
        invariant iter > 0 ==> OnePass(image, kernelSize, MeanOfWindow) == PassOk(rows)
        invariant iter > 0 ==> Passes(old(image), kernelSize, n, MeanOfWindow, widen) ==
                                Passes(image, kernelSize, n - iter + 1, MeanOfWindow, widen)
      {
        if iter > 0 {
          PassesStep(image, kernelSize, n - iter + 1, MeanOfWindow, widen);
          image := Reread(rows, image.width, image.height, widen);
        }
        var pass := RunPass();
        PassesStep(image, kernelSize, n - iter, MeanOfWindow, widen);
        if pass.PassFailed? {
          return Failed(pass.error);
        }
        if pass.PassPanicked? {
          return Panicked(pass.cause);
        }
        rows := pass.rows;
        iter := iter + 1;
      }
      PassesStep(image, kernelSize, if iter == 0 then 0 else 1, MeanOfWindow, widen);
      if iter == 0 {
        return Blurred(None);
      }
      out := Blurred(Some(rows));
    }
  }
}
