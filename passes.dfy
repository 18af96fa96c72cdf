/**
 * The iteration loop shared by `BlurActionMean.Blur` and
 * `BlurActionGaussian.Blur` (internal/imaging/blurMean.go:56-106,
 * internal/imaging/blurGaussian.go:57-108), stated as a function of the input
 * image: every pass validates its input, computes one output cell per input
 * cell with the action's aggregator, and the next pass reads that output back
 * as its input image.
 */
module Iteration {
  import opened Wrappers
  import opened Helpers
  import opened Pixels
  import opened Window
  import opened Blur

  /** Which `getUpdatedPixel` a pass uses. */
  datatype Aggregation =
    | MeanOfWindow
    | WeightedWindow(kernel: seq<seq<real>>, contribution: (nat, real) -> nat)

  /**
   * The colour the aggregator stores for centre (x, y). An empty window never
   * yields a colour (the Go code divides by zero there; see OnePass);
   * Transparent only fills the value in.
   */
  function CellValue(agg: Aggregation, pixels: seq<seq<Pixel>>, x: int, y: int, kernelSize: int): Rgba8
  {
    if WindowCount(x, y, kernelSize, pixels) == 0 then Transparent
    else match agg
      case MeanOfWindow => MeanPixel(pixels, x, y, kernelSize)
      case WeightedWindow(kernel, contribution) => WeightedPixel(pixels, kernel, contribution, x, y, kernelSize)
  }

  /**
   * The target image after one pass: row i (image Y = i), column j (image
   * X = j) holds the aggregate centred on pixels[i][j].
   */
  function PassRows(pixels: seq<seq<Pixel>>, kernelSize: int, agg: Aggregation): (rows: seq<seq<Rgba8>>)
    ensures |rows| == |pixels|
    ensures forall i :: 0 <= i < |pixels| ==> |rows[i]| == |pixels[i]|
  {
    seq(|pixels|, i requires 0 <= i < |pixels| =>
      seq(|pixels[i]|, j => CellValue(agg, pixels, i, j, kernelSize)))
  }

  /** Whether the pass loop calls `getUpdatedPixel` at all: some row has a cell. */
  predicate HasCell(pixels: seq<seq<Pixel>>)
  {
    |pixels| > 0 && Width(pixels) > 0
  }

  /** What one pass ends in. */
  datatype PassResult =
    | PassOk(rows: seq<seq<Rgba8>>)
    | PassFailed(error: KernelError)
    | PassPanicked(cause: RuntimePanic)

  /**
   * One pass: validation, then, when any cell exists and the kernel is too
   * small for a window to hold a cell, the division by zero in the first
   * goroutine; otherwise the filled target.
   */
  function OnePass(img: Picture, kernelSize: int, agg: Aggregation): (r: PassResult)
    ensures r.PassFailed? <==> ValidateAndGatherImage(img, kernelSize).Err?
    ensures r.PassFailed? ==> r.error == ValidateAndGatherImage(img, kernelSize).error
    ensures r.PassPanicked? ==> r.cause == DivideByZero && kernelSize < 2
    ensures r.PassOk? ==> r.rows == PassRows(PixelsOf(img), kernelSize, agg)
  {
    match ValidateAndGatherImage(img, kernelSize)
    case Err(e) => PassFailed(e)
    case Ok(pixels) =>
      if HasCell(pixels) && kernelSize < 2 then PassPanicked(DivideByZero)
      else PassOk(PassRows(pixels, kernelSize, agg))
  }

  /** A finished iteration loop: what `Blur` returns, and the image `b.Image` last held. */
  datatype Run = Run(outcome: BlurOutcome, lastInput: Picture)

  /**
   * n rounds of the iteration loop started on img. Round 0 reads img itself;
   * every later round reads the previous round's target (of the same bounds)
   * through `widen`, the colour conversion of `image.RGBA.At`.
   */
  function Passes(img: Picture, kernelSize: int, n: nat, agg: Aggregation, widen: Rgba8 -> Sample): (r: Run)
    decreases n
  {
    if n == 0 then Run(Blurred(None), img)
    else match OnePass(img, kernelSize, agg)
      case PassFailed(e) => Run(Failed(e), img)
      case PassPanicked(c) => Run(Panicked(c), img)
      case PassOk(rows) =>
        if n == 1 then Run(Blurred(Some(rows)), img)
        else Passes(Reread(rows, img.width, img.height, widen), kernelSize, n - 1, agg, widen)
  }

  /**
   * One step of the iteration loop: zero rounds read nothing; otherwise the
   * first pass either ends the run or, when rounds remain, hands its target
   * on to the next round.
   */
  lemma PassesStep(img: Picture, kernelSize: int, n: nat, agg: Aggregation, widen: Rgba8 -> Sample)
    ensures n == 0 ==> Passes(img, kernelSize, n, agg, widen) == Run(Blurred(None), img)
    ensures n > 0 && OnePass(img, kernelSize, agg).PassFailed? ==>
              Passes(img, kernelSize, n, agg, widen) == Run(Failed(OnePass(img, kernelSize, agg).error), img)
    ensures n > 0 && OnePass(img, kernelSize, agg).PassPanicked? ==>
              Passes(img, kernelSize, n, agg, widen) == Run(Panicked(OnePass(img, kernelSize, agg).cause), img)
    ensures n == 1 && OnePass(img, kernelSize, agg).PassOk? ==>
              Passes(img, kernelSize, n, agg, widen) == Run(Blurred(Some(OnePass(img, kernelSize, agg).rows)), img)
    ensures n > 1 && OnePass(img, kernelSize, agg).PassOk? ==>
              Passes(img, kernelSize, n, agg, widen) ==
                Passes(Reread(OnePass(img, kernelSize, agg).rows, img.width, img.height, widen), kernelSize, n - 1, agg, widen)
  {
  }

  /**
   * What a run ends with: the image last read keeps the starting bounds;
   * the nil image comes exactly from zero rounds; and a failure, a panic or
   * an image is what the last round's pass made of the image last read.
   */
  lemma {:induction false} PassesLastRound(img: Picture, kernelSize: int, n: nat, agg: Aggregation, widen: Rgba8 -> Sample)
    ensures Passes(img, kernelSize, n, agg, widen).lastInput.width == img.width
    ensures Passes(img, kernelSize, n, agg, widen).lastInput.height == img.height
    ensures n == 0 <==> Passes(img, kernelSize, n, agg, widen).outcome == Blurred(None)
    ensures Passes(img, kernelSize, n, agg, widen).outcome.Failed? ==>
              OnePass(Passes(img, kernelSize, n, agg, widen).lastInput, kernelSize, agg) ==
                PassFailed(Passes(img, kernelSize, n, agg, widen).outcome.error)
    ensures Passes(img, kernelSize, n, agg, widen).outcome.Panicked? ==>
              OnePass(Passes(img, kernelSize, n, agg, widen).lastInput, kernelSize, agg) ==
                PassPanicked(Passes(img, kernelSize, n, agg, widen).outcome.cause)
    ensures Passes(img, kernelSize, n, agg, widen).outcome.Blurred? && n > 0 ==>
              OnePass(Passes(img, kernelSize, n, agg, widen).lastInput, kernelSize, agg) ==
                PassOk(Passes(img, kernelSize, n, agg, widen).outcome.image.value)
    decreases n
  {
    if n > 1 && OnePass(img, kernelSize, agg).PassOk? {
      var next := Reread(OnePass(img, kernelSize, agg).rows, img.width, img.height, widen);
      PassesLastRound(next, kernelSize, n - 1, agg, widen);
    }
  }

  /** `Iterations` of zero or below: the loop body never runs. */
  function Rounds(iterations: int): nat
  {
    if iterations > 0 then iterations else 0
  }

  // ----- properties of a single pass -----

  /** A valid image's grid has a cell exactly when both bounds are positive. */
  lemma HasCellIffNonEmpty(img: Picture)
    ensures HasCell(PixelsOf(img)) <==> img.width > 0 && img.height > 0
  {
    PixelsOfShape(img);
  }

  /**
   * One pass fails exactly when validation does, panics exactly when a valid
   * image has a cell and the kernel size is below 2, and otherwise returns a
   * target with the bounds of its input.
   */
  lemma OnePassOutcome(img: Picture, kernelSize: int, agg: Aggregation)
    ensures OnePass(img, kernelSize, agg).PassFailed? <==> ValidateAndGatherImage(img, kernelSize).Err?
    ensures OnePass(img, kernelSize, agg).PassPanicked? <==>
              ValidateAndGatherImage(img, kernelSize).Ok? && img.width > 0 && img.height > 0 && kernelSize < 2
    ensures OnePass(img, kernelSize, agg).PassPanicked? ==> OnePass(img, kernelSize, agg).cause == DivideByZero
    ensures OnePass(img, kernelSize, agg).PassOk? ==>
              |OnePass(img, kernelSize, agg).rows| == img.height &&
              forall i :: 0 <= i < img.height ==> |OnePass(img, kernelSize, agg).rows[i]| == img.width
  {
    HasCellIffNonEmpty(img);
    PixelsOfShape(img);
  }

  /**
   * Each cell of a successful pass holds the aggregate of the window centred
   * on that cell of the input grid, at image (X = j, Y = i).
   */
  lemma OnePassCells(img: Picture, kernelSize: int, agg: Aggregation, i: int, j: int)
    requires OnePass(img, kernelSize, agg).PassOk?
    requires 0 <= i < img.height && 0 <= j < img.width
    ensures WindowCount(i, j, kernelSize, PixelsOf(img)) > 0
    ensures OnePass(img, kernelSize, agg).rows[i][j] ==
              match agg
              case MeanOfWindow => MeanPixel(PixelsOf(img), i, j, kernelSize)
              case WeightedWindow(kernel, contribution) =>
                WeightedPixel(PixelsOf(img), kernel, contribution, i, j, kernelSize)
  {
    PixelsOfShape(img);
    HasCellIffNonEmpty(img);
    WindowCountPositive(i, j, kernelSize, PixelsOf(img));
  }

  /** Every sample of img converts to the pixel p. */
  ghost predicate UniformImage(img: Picture, p: Pixel)
  {
    forall x, y :: 0 <= x < img.width && 0 <= y < img.height ==> SampleToPixel(img.at(x, y)) == p
  }

  /** rows is a height x width grid every cell of which is c. */
  ghost predicate FilledWith(rows: seq<seq<Rgba8>>, height: nat, width: nat, c: Rgba8)
  {
    |rows| == height && forall i :: 0 <= i < height ==> |rows[i]| == width && forall j :: 0 <= j < width ==> rows[i][j] == c
  }

  /** On an image whose every sample converts to the pixel p, the mean window of every cell is p capped at 255. */
  lemma UniformMeanPixel(img: Picture, kernelSize: int, p: Pixel, i: int, j: int)
    requires UniformImage(img, p)
    requires 0 <= i < img.height && 0 <= j < img.width
    requires WindowCount(i, j, kernelSize, PixelsOf(img)) > 0
    ensures MeanPixel(PixelsOf(img), i, j, kernelSize) == CapPixel(p)
  {
    var pixels := PixelsOf(img);
    PixelsOfShape(img);
    var wr, wc := WindowRows(i, kernelSize, pixels), WindowCols(j, kernelSize, pixels);
    forall a, b | wr.lo <= a < wr.hi && wc.lo <= b < wc.hi
      ensures pixels[a][b] == p
    {
      assert pixels[a][b] == SampleToPixel(img.at(b, a));
    }
    MeanOfUniformWindow(pixels, i, j, kernelSize, p);
  }

  /** A mean pass over an image whose every sample converts to p returns p capped at 255 everywhere, edges included. */
  lemma UniformImageIsFixedPoint(img: Picture, kernelSize: int, p: Pixel)
    requires UniformImage(img, p)
    requires OnePass(img, kernelSize, MeanOfWindow).PassOk?
    ensures FilledWith(OnePass(img, kernelSize, MeanOfWindow).rows, img.height, img.width, CapPixel(p))
  {
    var rows := OnePass(img, kernelSize, MeanOfWindow).rows;
    OnePassOutcome(img, kernelSize, MeanOfWindow);
    forall i, j | 0 <= i < img.height && 0 <= j < img.width
      ensures rows[i][j] == CapPixel(p)
    {
      OnePassCells(img, kernelSize, MeanOfWindow, i, j);
      UniformMeanPixel(img, kernelSize, p, i, j);
    }
  }

  /** A target every cell of which holds CellValue is, read row by row, the pass result. */
  lemma SnapshotIsPassRows(target: array2<Rgba8>, pixels: seq<seq<Pixel>>, kernelSize: int, agg: Aggregation)
    requires Rectangular(pixels) && target.Length0 == |pixels| && (|pixels| > 0 ==> target.Length1 == Width(pixels))
    requires forall y, x :: 0 <= y < target.Length0 && 0 <= x < target.Length1 ==>
               target[y, x] == CellValue(agg, pixels, y, x, kernelSize)
    ensures Snapshot(target) == PassRows(pixels, kernelSize, agg)
  {
    var s, p := Snapshot(target), PassRows(pixels, kernelSize, agg);
    forall y | 0 <= y < |s|
      ensures s[y] == p[y]
    {
      assert |s[y]| == |p[y]|;
      forall x | 0 <= x < |s[y]|
        ensures s[y][x] == p[y][x]
      {
      }
    }
  }

  // ----- properties of the iteration loop -----

  /** With no rounds the loop body never runs: a nil image, a nil error, and `b.Image` untouched. */
  lemma ZeroIterations(img: Picture, kernelSize: int, iterations: int, agg: Aggregation, widen: Rgba8 -> Sample)
    requires iterations <= 0
    ensures Passes(img, kernelSize, Rounds(iterations), agg, widen) == Run(Blurred(None), img)
  {
  }

  /** Reading a target back keeps the bounds, so every later round validates as the first one did. */
  lemma {:induction false} PassesOutcome(img: Picture, kernelSize: int, n: nat, agg: Aggregation, widen: Rgba8 -> Sample)
    requires n >= 1
    ensures Passes(img, kernelSize, n, agg, widen).outcome.Failed? <==> ValidateAndGatherImage(img, kernelSize).Err?
    ensures ValidateAndGatherImage(img, kernelSize).Err? ==>
              Passes(img, kernelSize, n, agg, widen).outcome == Failed(ValidateAndGatherImage(img, kernelSize).error)
    ensures Passes(img, kernelSize, n, agg, widen).outcome.Panicked? <==>
              ValidateAndGatherImage(img, kernelSize).Ok? && img.width > 0 && img.height > 0 && kernelSize < 2
    ensures Passes(img, kernelSize, n, agg, widen).outcome.Panicked? ==>
              Passes(img, kernelSize, n, agg, widen).outcome.cause == DivideByZero
    ensures Passes(img, kernelSize, n, agg, widen).outcome.Blurred? ==>
              Passes(img, kernelSize, n, agg, widen).outcome.image.Some? &&
              |Passes(img, kernelSize, n, agg, widen).outcome.image.value| == img.height &&
              forall i :: 0 <= i < img.height ==> |Passes(img, kernelSize, n, agg, widen).outcome.image.value[i]| == img.width
    decreases n
  {
    OnePassOutcome(img, kernelSize, agg);
    if n > 1 && OnePass(img, kernelSize, agg).PassOk? {
      var next := Reread(OnePass(img, kernelSize, agg).rows, img.width, img.height, widen);
      PassesOutcome(next, kernelSize, n - 1, agg, widen);
      ValidationDependsOnBoundsOnly(img, next, kernelSize);
    }
  }

  /**
   * Running m + n rounds is running m rounds and then n more on the image the
   * m-th round produced.
   */
  lemma {:induction false} ComposeRounds(img: Picture, kernelSize: int, m: nat, n: nat, agg: Aggregation,
                                         widen: Rgba8 -> Sample)
    requires m >= 1 && n >= 1
    requires Passes(img, kernelSize, m, agg, widen).outcome.Blurred?
    ensures Passes(img, kernelSize, m, agg, widen).outcome.image.Some?
    ensures Passes(img, kernelSize, m + n, agg, widen) ==
              Passes(Reread(Passes(img, kernelSize, m, agg, widen).outcome.image.value, img.width, img.height, widen),
                     kernelSize, n, agg, widen)
    decreases m
  {
    PassesOutcome(img, kernelSize, m, agg, widen);
    if m > 1 {
      var next := Reread(OnePass(img, kernelSize, agg).rows, img.width, img.height, widen);
      ComposeRounds(next, kernelSize, m - 1, n, agg, widen);
    }
  }

  /**
   * An image whose every sample converts to p, where the capped colour read
   * back through `widen` converts to a pixel with the same capped colour,
   * stays filled with that capped colour through any number of valid mean
   * rounds.
   */
  lemma {:induction false} UniformImageStaysUniform(img: Picture, kernelSize: int, n: nat, p: Pixel, widen: Rgba8 -> Sample)
    requires UniformImage(img, p)
    requires CapPixel(SampleToPixel(widen(CapPixel(p)))) == CapPixel(p)
    requires n >= 1
    requires OnePass(img, kernelSize, MeanOfWindow).PassOk?
    ensures Passes(img, kernelSize, n, MeanOfWindow, widen).outcome.Blurred?
    ensures Passes(img, kernelSize, n, MeanOfWindow, widen).outcome.image.Some?
    ensures FilledWith(Passes(img, kernelSize, n, MeanOfWindow, widen).outcome.image.value, img.height, img.width, CapPixel(p))
    decreases n
  {
    var rows := OnePass(img, kernelSize, MeanOfWindow).rows;
    UniformImageIsFixedPoint(img, kernelSize, p);
    if n > 1 {
      var next := Reread(rows, img.width, img.height, widen);
      var q := SampleToPixel(widen(CapPixel(p)));
      forall x, y | 0 <= x < next.width && 0 <= y < next.height
        ensures SampleToPixel(next.at(x, y)) == q
      {
        assert next.at(x, y) == widen(rows[y][x]);
      }
      ValidationDependsOnBoundsOnly(img, next, kernelSize);
      OnePassOutcome(img, kernelSize, MeanOfWindow);
      OnePassOutcome(next, kernelSize, MeanOfWindow);
      UniformImageStaysUniform(next, kernelSize, n - 1, q, widen);
    }
  }

  // ----- the library widening -----

  /** What the division by 255 makes of an 8-bit channel widened by 257: channels 128-254 gain one. */
  function Brighten(v: uint8): uint8
  {
    if 128 <= v < 255 then v + 1 else v
  }

  /**
   * One 8-bit channel widened by `color.RGBA.RGBA()` and divided by 255 in
   * pixel.go, then capped by the mean: v · 257 / 255 is v + 2v / 255.
   */
  lemma WidenedChannel(v: uint8)
    ensures Min((v as int * 257) / 255, 255) == Brighten(v) as int
  {
    var w := v as int;
    assert w * 257 == w * 255 + 2 * w;
    if w < 128 {
      assert (w * 257) / 255 == w;
    } else if w < 255 {
      assert (w * 257) / 255 == w + 1;
    }
  }

  /**
   * Under the library widening, the colour c read back through pixel.go and
   * capped is c with the channels 128-254 one higher.
   */
  lemma LibraryRoundTrip(c: Rgba8)
    ensures CapPixel(SampleToPixel(LibraryWiden(c))) == Rgba8(Brighten(c.r), Brighten(c.g), Brighten(c.b), Brighten(c.a))
  {
    WidenedChannel(c.r);
    WidenedChannel(c.g);
    WidenedChannel(c.b);
    WidenedChannel(c.a);
  }

  /**
   * A decoded image of the single 8-bit colour c (its samples are the library
   * widening of c) is blurred by one mean pass to c with every channel in
   * 128-254 one higher: such a colour is not a fixed point. Opaque and
   * transparent images are, channels 0-127 and 255 being unchanged.
   */
  lemma UniformColourPass(img: Picture, kernelSize: int, c: Rgba8)
    requires forall x, y :: 0 <= x < img.width && 0 <= y < img.height ==> img.at(x, y) == LibraryWiden(c)
    requires OnePass(img, kernelSize, MeanOfWindow).PassOk?
    ensures FilledWith(OnePass(img, kernelSize, MeanOfWindow).rows, img.height, img.width,
                       Rgba8(Brighten(c.r), Brighten(c.g), Brighten(c.b), Brighten(c.a)))
  {
    LibraryRoundTrip(c);
    UniformImageIsFixedPoint(img, kernelSize, SampleToPixel(LibraryWiden(c)));
  }

  /**
   * The converse of `UniformColourPass`: with the library widening, an image
   * of an 8-bit colour c none of whose channels lies in 128-254 stays c
   * through any number of valid mean rounds.
   */
  lemma UniformColourStays(img: Picture, kernelSize: int, n: nat, c: Rgba8)
    requires forall x, y :: 0 <= x < img.width && 0 <= y < img.height ==> img.at(x, y) == LibraryWiden(c)
    requires Brighten(c.r) == c.r && Brighten(c.g) == c.g && Brighten(c.b) == c.b && Brighten(c.a) == c.a
    requires n >= 1
    requires OnePass(img, kernelSize, MeanOfWindow).PassOk?
    ensures Passes(img, kernelSize, n, MeanOfWindow, LibraryWiden).outcome.Blurred?
    ensures Passes(img, kernelSize, n, MeanOfWindow, LibraryWiden).outcome.image.Some?
    ensures FilledWith(Passes(img, kernelSize, n, MeanOfWindow, LibraryWiden).outcome.image.value, img.height, img.width, c)
  {
    var p := SampleToPixel(LibraryWiden(c));
    LibraryRoundTrip(c);
    assert CapPixel(p) == c;
    UniformImageStaysUniform(img, kernelSize, n, p, LibraryWiden);
  }
}
