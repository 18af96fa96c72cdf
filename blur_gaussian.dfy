/**
 * internal/imaging/blurGaussian.go: the Gaussian blur action. Its
 * `getUpdatedPixel` visits the same clamped window as the mean action and
 * counts the same cells, but each cell adds its channels multiplied by the
 * kernel weight at its offset in the window, truncated to an integer
 * (`contribution`); `Blur` builds and stores the kernel once and then runs
 * the same iteration loop as the mean action.
 */
module Gaussian {
  import opened Wrappers
  import opened Helpers
  import opened Pixels
  import opened Window
  import opened Blur
  import opened Iteration

  /** `BlurActionGaussian` with the fields of the embedded `BlurAction`, its kernel and its sigma. */
  class BlurActionGaussian {
    var kernelSize: int
    var iterations: int
    var image: Picture
    var kernel: seq<seq<real>>
    var sigma: real

    /** The struct literal of internal/cli/blur.go: the kernel starts as a nil slice. */
    constructor (kernelSize: int, iterations: int, image: Picture, sigma: real)
      ensures this.kernelSize == kernelSize && this.iterations == iterations && this.image == image
      ensures this.sigma == sigma && this.kernel == []
    {
      this.kernelSize := kernelSize;
      this.iterations := iterations;
      this.image := image;
      this.sigma := sigma;
      this.kernel := [];
    }

    /**
     * blurGaussian.go `getUpdatedPixel`: sums the weighted channels of the
     * window around row x, column y, the weight of cell (i, j) being
     * kernel[i - startIdx][j - startYIdx], while counting the visited cells;
     * then divides each channel by that count and caps it at 255. An empty
     * grid fails on `pixels[0]`; an empty window fails on the division.
     */
    method GetUpdatedPixel(x: int, y: int, pixels: seq<seq<Pixel>>, contribution: (nat, real) -> nat)
      returns (r: Result<Rgba8, RuntimePanic>)
      requires Rectangular(pixels) && KernelCovers(kernel, kernelSize)
      ensures |pixels| == 0 ==> r == Err(IndexOutOfRange)
      ensures |pixels| > 0 && WindowCount(x, y, kernelSize, pixels) == 0 ==> r == Err(DivideByZero)
      ensures |pixels| > 0 && WindowCount(x, y, kernelSize, pixels) > 0 ==>
                r == Ok(WeightedPixel(pixels, kernel, contribution, x, y, kernelSize))
    {
      if |pixels| == 0 {
        // len(pixels[0])
        return Err(IndexOutOfRange);
      }
      var startIdx := Max(x - kernelSize / 2 - 1, 0);
      var endIdx := Min(startIdx + kernelSize - 1, |pixels|);
      var startYIdx := Max(y - kernelSize / 2 - 1, 0);
      var endYIdx := Min(startYIdx + kernelSize - 1, |pixels[0]|);
      ghost var cols := Span(startYIdx, endYIdx);
      assert WindowRows(x, kernelSize, pixels) == Span(startIdx, endIdx) && WindowCols(y, kernelSize, pixels) == cols;
      ghost var cell := WeightedCell(pixels, kernel, contribution, startIdx, startYIdx);
      var kernelInnerSize := 0;
      var result := Blank;
      var i := startIdx;
      while i < endIdx
        invariant startIdx <= i <= Max(startIdx, endIdx)
        invariant kernelInnerSize == VisitCount(startIdx, i, cols)
        invariant result == RectSum(cell, startIdx, i, cols)
      {
        WeightedRowInRange(pixels, kernel, x, y, kernelSize, i);
        result, kernelInnerSize := AddWindowRow(pixels, contribution, i, startIdx, startYIdx, endYIdx, result, kernelInnerSize);
        i := i + 1;
      }
      WalkDone(cell, startIdx, endIdx, i, cols);
      assert kernelInnerSize == WindowCount(x, y, kernelSize, pixels) && result == WeightedSum(pixels, kernel, contribution, x, y, kernelSize);
      if kernelInnerSize == 0 {
        return Err(DivideByZero);
      }
      r := Ok(Divide(result, kernelInnerSize));
    }

    /**
     * The inner loop of `getUpdatedPixel` (blurGaussian.go:34-45) for window row i:
     * every column of the window adds its cell to the running result and
     * one to the running count.
     */
    method AddWindowRow(pixels: seq<seq<Pixel>>, contribution: (nat, real) -> nat, i: int, startIdx: int, startYIdx: int, endYIdx: int,
                        result: Pixel, kernelInnerSize: nat)
      returns (sum: Pixel, count: nat)
      requires 0 <= i < |pixels| && 0 <= i - startIdx < |kernel|
      requires 0 <= startYIdx && endYIdx <= |pixels[i]| && endYIdx - startYIdx <= |kernel[i - startIdx]|
      ensures sum == Add(result, RowSum(WeightedCell(pixels, kernel, contribution, startIdx, startYIdx), i, startYIdx, endYIdx))
      ensures count == kernelInnerSize + Span(startYIdx, endYIdx).Len()
    {
      ghost var cell := WeightedCell(pixels, kernel, contribution, startIdx, startYIdx);
      sum, count := result, kernelInnerSize;
      AddBlank(result);
      var j := startYIdx;
      while j < endYIdx
        invariant startYIdx <= j <= Max(startYIdx, endYIdx)
        invariant count == kernelInnerSize + (j - startYIdx)
        invariant sum == Add(result, RowSum(cell, i, startYIdx, j))
      {
        count := count + 1;
        var weight := kernel[i - startIdx][j - startYIdx];
        assert cell(i, j) == Weigh(pixels[i][j], weight, contribution);
        RowSumExtend(result, cell, i, startYIdx, j);
        sum := Add(sum, Weigh(pixels[i][j], weight, contribution));
        j := j + 1;
      }
    }

    /**
     * The inner loop of one pass (blurGaussian.go:84-100) for row i: every cell of
     * the row is aggregated and stored at (X = j, Y = i); the first failing
     * cell ends the pass.
     */
    method FillRow(pixels: seq<seq<Pixel>>, targetImg: array2<Rgba8>, i: int, contribution: (nat, real) -> nat)
      returns (failure: Option<RuntimePanic>)
      requires Rectangular(pixels) && targetImg.Length0 == |pixels| && targetImg.Length1 == Width(pixels)
      requires KernelCovers(kernel, kernelSize)
      requires 0 <= i < |pixels|
      modifies targetImg
      ensures failure == if Width(pixels) > 0 && kernelSize < 2 then Some(DivideByZero) else None
      ensures failure.None? ==>
                forall y, x :: 0 <= y < targetImg.Length0 && 0 <= x < targetImg.Length1 ==>
                  targetImg[y, x] == if y == i then CellValue(WeightedWindow(kernel, contribution), pixels, y, x, kernelSize) else old(targetImg[y, x])
    {
      var j := 0;
      while j < |pixels[i]|
        invariant 0 <= j <= |pixels[i]| == Width(pixels)
        invariant j > 0 ==> kernelSize >= 2
        invariant forall y, x :: 0 <= y < targetImg.Length0 && 0 <= x < targetImg.Length1 ==>
                    targetImg[y, x] == if y == i && x < j then CellValue(WeightedWindow(kernel, contribution), pixels, y, x, kernelSize)
                                       else old(targetImg[y, x])
      {
        WindowCountPositive(i, j, kernelSize, pixels);
        var newPixel := GetUpdatedPixel(i, j, pixels, contribution);
        if newPixel.Err? {
          return Some(newPixel.error);
        }
        SetRGBA(targetImg, j, i, newPixel.value);
        j := j + 1;
      }
      failure := None;
    }

    /** The pass loop of blurGaussian.go:83-103 over a fresh target with the grid's bounds. */
    method FillTarget(pixels: seq<seq<Pixel>>, targetImg: array2<Rgba8>, contribution: (nat, real) -> nat)
      returns (failure: Option<RuntimePanic>)
      requires Rectangular(pixels) && targetImg.Length0 == |pixels| && (|pixels| > 0 ==> targetImg.Length1 == Width(pixels))
      requires KernelCovers(kernel, kernelSize)
      modifies targetImg
      ensures failure == if HasCell(pixels) && kernelSize < 2 then Some(DivideByZero) else None
      ensures failure.None? ==> Snapshot(targetImg) == PassRows(pixels, kernelSize, WeightedWindow(kernel, contribution))
    {
      var i := 0;
      while i < |pixels|
        invariant 0 <= i <= |pixels|
        invariant i > 0 && Width(pixels) > 0 ==> kernelSize >= 2
        invariant forall y, x :: 0 <= y < i && 0 <= x < targetImg.Length1 ==>
                    targetImg[y, x] == CellValue(WeightedWindow(kernel, contribution), pixels, y, x, kernelSize)
      {
        failure := FillRow(pixels, targetImg, i, contribution);
        if failure.Some? {
          return;
        }
        i := i + 1;
      }
      SnapshotIsPassRows(targetImg, pixels, kernelSize, WeightedWindow(kernel, contribution));
      failure := None;
    }

    /**
     * One round of blurGaussian.go `Blur` (lines 69-103) on the current `b.Image`:
     * validation, a fresh target of the image's bounds, and the pass loop.
     */
    method RunPass(contribution: (nat, real) -> nat) returns (result: PassResult)
      requires KernelCovers(kernel, kernelSize)
      ensures result == OnePass(image, kernelSize, WeightedWindow(kernel, contribution))
    {
      var validated := ValidateAndGatherImage(image, kernelSize);
      var targetImg := NewRGBA(image.width, image.height);
      if validated.Err? {
        return PassFailed(validated.error);
      }
      PixelsOfShape(image);
      var failure := FillTarget(validated.value, targetImg, contribution);
      if failure.Some? {
        return PassPanicked(failure.value);
      }
      result := PassOk(Snapshot(targetImg));
    }

    /**
     * blurGaussian.go `Blur`: the kernel is built once by `KernelGaussian`
     * (line 62), whose `make` panics on a negative size before anything is
     * stored; then the iteration loop runs with that kernel.
     */
    method Blur(gaussian: (real, real) -> real, contribution: (nat, real) -> nat, widen: Rgba8 -> Sample) returns (out: BlurOutcome)
      modifies this`image, this`kernel
      ensures kernelSize < 0 ==> out == Panicked(NegativeLength) && image == old(image) && kernel == old(kernel)
      ensures kernelSize >= 0 ==> kernel == GaussianKernel(kernelSize, gaussian)
      ensures kernelSize >= 0 ==>
                Run(out, image) ==
                  Passes(old(image), kernelSize, Rounds(iterations), WeightedWindow(GaussianKernel(kernelSize, gaussian), contribution), widen)
    {
      if kernelSize < 0 {
        return Panicked(NegativeLength);
      }
      var gaussianKernel := KernelGaussian(kernelSize, gaussian);
      assert KernelCovers(gaussianKernel, kernelSize);
      out := BlurWithKernel(gaussianKernel, contribution, widen);
    }

    /**
     * blurGaussian.go `Blur` once the kernel is built (lines 62-107): the
     * kernel is stored once, and the iteration loop then runs with it.
     */
    method BlurWithKernel(gaussianKernel: seq<seq<real>>, contribution: (nat, real) -> nat, widen: Rgba8 -> Sample) returns (out: BlurOutcome)
      requires KernelCovers(gaussianKernel, kernelSize)
      modifies this`image, this`kernel
      ensures kernel == gaussianKernel
      ensures Run(out, image) ==
                Passes(old(image), kernelSize, Rounds(iterations), WeightedWindow(gaussianKernel, contribution), widen)
    {
      kernel := gaussianKernel;
      out := RunRounds(contribution, widen);
    }

    /**
     * The loop of blurGaussian.go `Blur` (lines 68-107) with the stored
     * kernel: round 0 reads `b.Image`; every later round first makes the
     * previous target the image; a validation error or a panic ends the
     * loop. The whole run, `b.Image` included, is the iteration-loop
     * function of the starting image.
     */
    method RunRounds(contribution: (nat, real) -> nat, widen: Rgba8 -> Sample) returns (out: BlurOutcome)
      requires KernelCovers(kernel, kernelSize)
      modifies this`image
      ensures Run(out, image) == Passes(old(image), kernelSize, Rounds(iterations), WeightedWindow(kernel, contribution), widen)
    {
      ghost var n := Rounds(iterations);
      ghost var agg := WeightedWindow(kernel, contribution);
      var rows: seq<seq<Rgba8>> := [];
      var iter := 0;
      while iter < iterations
        invariant 0 <= iter <= n
        invariant iter == 0 ==> image == old(image)
        invariant iter > 0 ==> OnePass(image, kernelSize, agg) == PassOk(rows)
        invariant iter > 0 ==> Passes(old(image), kernelSize, n, agg, widen) ==
                                Passes(image, kernelSize, n - iter + 1, agg, widen)
      {
        if iter > 0 {
          PassesStep(image, kernelSize, n - iter + 1, agg, widen);
          image := Reread(rows, image.width, image.height, widen);
        }
        var pass := RunPass(contribution);
        PassesStep(image, kernelSize, n - iter, agg, widen);
        if pass.PassFailed? {
          return Failed(pass.error);
        }
        if pass.PassPanicked? {
          return Panicked(pass.cause);
        }
        rows := pass.rows;
        iter := iter + 1;
      }
      PassesStep(image, kernelSize, if iter == 0 then 0 else 1, agg, widen);
      if iter == 0 {
        return Blurred(None);
      }
      out := Blurred(Some(rows));
    }
  }
}
