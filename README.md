# Image blur engine: a Dafny model

This project models the integer convolution engine of the image-processing
repository. It covers the mean (box) blur and the Gaussian blur, together with
the helpers and command-line decisions around them. Each part is modelled in
the form the Go code has:

- **Pixel grid** (`Pixels`). `GetPixelsFromImage` builds the grid row by row with a
  loop. Row index is image Y and column index is image X. Every channel is
  divided by 255, truncating.
- **Window** (`Window`). This is the neighbourhood both `getUpdatedPixel` aggregators
  visit. On each axis it is `[max(c - k/2 - 1, 0), min(start + k - 1, extent))`.
  That is at most k - 1 cells, shifted (not shrunk) at the low edge. The module
  also holds the count of visited cells, the sums over the window, and the final
  division capped at 255.
- **Mean and Gaussian actions** (`Mean.BlurActionMean`, `Gaussian.BlurActionGaussian`).
  These are classes with the Go struct fields. Their `GetUpdatedPixel` and `Blur`
  methods are the Go loops, and they write an `array2` target buffer through
  `SetRGBA`.
- **Iteration loop** (`Iteration`). The mean `Blur` method, and the Gaussian one
  for every kernel size of 0 or more, are proved equal to a function `Passes`
  of the starting image. For a negative size the Gaussian `Blur` panics while
  building its kernel, before any pass. Each pass validates its input, fills
  one output cell per input cell, and hands its output to the next pass.
- **Draft mean** (`Blur`). This is the older `BlurMean` of blur.go. It uses an
  unclamped window over an interior band and a fixed divisor k². Its channels
  wrap around into 8 bits.
- **Shared parts** (`Blur`). The kernel-size validation shared by every blur.
- **Helpers** (`Helpers`). `Min`/`Max`, the centred range `ARangeAutoStep`, and the
  outer product of `KernelGaussian`.
- **Command line** (`Cli`). The decisions of `PerformBlurOnImage`: the extension
  test, the blur kind, the output name and the encoder.

Go runtime panics are modelled as outcomes wherever a caller of the blur can
reach them. Four panics are covered:

- An integer division by an empty window's count. The mean action reaches it
  for every kernel size below 2 that passes validation, such as 1, -1 and -3,
  on an image with at least one cell; an image without cells never divides.
  The Gaussian action reaches it only for size 1, since a negative size panics
  earlier, in `make`.
- A negative index in the draft for sizes of -3 or below.
- A `make` with a negative length when the Gaussian blur builds its kernel for a
  negative size.
- A call on the nil blur action for an unknown kind.

Three helpers instead require the inputs for which Go does not panic:
`Helpers.ARangeAutoStep` (non-negative `start` and `stop`),
`Helpers.KernelGaussian` (a non-negative size; its only caller,
`Gaussian.BlurActionGaussian.Blur`, turns a negative size into the panic above),
and `Blur.DetermineMeanValuesWithinKernel` (see "Left out").

The comment above each per-cell goroutine (internal/imaging/blurMean.go:89-92
and internal/imaging/blur.go:110-113) says the sum over the kernel is divided
by the total kernel size, kernelSize × kernelSize. In the code, the window has
kernelSize - 1 cells per axis, and `getUpdatedPixel` divides by the number of
cells it visited, not by kernelSize². The older draft of blur.go does divide by
kernelSize², but over only (kernelSize - 1)² cells. For size 3 away from the low edge, it is the 2×2 block of the two rows
and two columns before the centre, and the centre itself is not included. The
model follows the code; `Window.Kernel3WindowSkipsCentre` and
`Window.FiveByFiveCentreAndCornerShareWindow` state this.

## Model

| member | source | states |
|---|---|---|
| `Helpers.Min` | internal/helpers/math.go:9-14 | the result is at most both arguments and equal to one of them |
| `Helpers.Max` | internal/imaging/blurMean.go:19 | the result is at least both arguments and equal to one of them (Max is taken to mirror Min) |
| `Helpers.ARangeAutoStep` | internal/helpers/math.go:46-55 | a fresh slice of length `stop` whose entry i from `start` on is i - (stop-1)/2 and whose entries below `start` are 0; requires a non-negative `start` and `stop`, which are the sizes for which the Go code does not panic |
| `Helpers.CentredRangeAntisymmetric` | internal/helpers/math.go:48-51 | with start 0, entry i is minus entry stop-1-i |
| `Helpers.CentredRangeMiddleIsZero` | internal/helpers/math.go:48-51 | for an odd length the middle coordinate is 0 |
| `Helpers.CentredRangeBelowStartIsZero` | internal/helpers/math.go:47-50 | entries below `start` keep the zero value of `make` |
| `Helpers.ApplyGaussian` | internal/helpers/math.go:28-30 | every entry is replaced in place by the density at its old value with spread 3, hard-coded |
| `Helpers.OuterProduct` | internal/helpers/math.go:32-39 | the appended kernel is len(w)×len(w) with kernel[i][j] = w[i]·w[j] |
| `Helpers.KernelGaussian` | internal/helpers/math.go:24-44 | a kernelSize×kernelSize matrix whose entry (i, j) is the product of the weights at i and j (spread 3 whatever the caller passes), which is symmetric, and which is the value `GaussianKernel` |
| `Helpers.EntrywiseGaussianKernel` | internal/helpers/math.go:32-39 | a square matrix whose every entry is the product of the weights at its row and column is exactly `GaussianKernel` |
| `Helpers.KernelRotationSymmetric` | internal/helpers/math.go:24-44 | for a density that is even in its coordinate, the kernel is unchanged by a 180° rotation |
| `Pixels.RgbaToPixel` | internal/imaging/pixel.go:15-17 | each channel is the largest q with q·255 at most the 16-bit sample, that is the sample divided by 255, truncating |
| `Pixels.RgbaToPixelMonotone` | internal/imaging/pixel.go:15-17 | channel-wise division by 255 is monotone in every channel |
| `Pixels.RgbaToPixelExtremes` | internal/imaging/pixel.go:15-17 | 0 maps to 0, and the 16-bit maximum 65535 maps to 257, above the 8-bit range |
| `Pixels.PixelsOf` | internal/imaging/pixel.go:22-42 | definition of the grid of an image: row y, column x holds `RgbaToPixel` of the sample at (x, y) |
| `Pixels.LibraryWiden` | internal/imaging/pixel.go:35 | definition of `RGBA()` of an image library `color.RGBA`: every 8-bit channel c becomes c·257 |
| `Pixels.Reread` | internal/imaging/blurMean.go:70-71 | definition of making the target the next `b.Image`: its bounds, and each cell read back through `widen` |
| `Pixels.PixelsOfShape` | internal/imaging/pixel.go:26-39 | the grid has `height` rows, all of the first row's length, which is `width` when there is a row |
| `Pixels.GetPixelsFromImage` | internal/imaging/pixel.go:22-42 | `height` rows of `width` entries each; entry [y][x] is `RgbaToPixel` of the sample at image (x, y); zero height gives no rows and zero width gives empty rows |
| `Pixels.NewRGBA` | internal/imaging/blurMean.go:68 | a fresh height×width buffer, every cell transparent black |
| `Pixels.SetRGBA` | internal/imaging/blurMean.go:94 | stores the colour at row y, column x, and no other cell changes |
| `Pixels.Snapshot` | internal/imaging/blurMean.go:105 | definition of reading the target buffer back as rows: its dimensions and its cells |
| `Window.WindowSpan` | internal/imaging/blurMean.go:19-23 | the window lies inside [0, extent), spans at most k-1 indices, and for a centre inside the grid is non-empty exactly when k ≥ 2 |
| `Window.Kernel3WindowSkipsCentre` | internal/imaging/blurMean.go:19-23 | away from the low edge, a size-3 window is [c-2, c) and does not include the centre |
| `Window.FiveByFiveCentreAndCornerShareWindow` | internal/imaging/blurMean.go:19-23 | on a 5×5 grid with size 3, the centre and the corner both visit rows and columns 0-1 |
| `Window.KernelIndexInRange` | internal/imaging/blurGaussian.go:18-22 | a visited index minus the window start lies in [0, k-1), and the index lies in [0, extent) |
| `Window.VisitCountIsArea` | internal/imaging/blurMean.go:25-39 | the row-by-row increment of `kernelInnerSize` ends at rows × columns of the window |
| `Window.WindowCountPositive` | internal/imaging/blurMean.go:19-39 | for a centre inside the grid the visited-cell count is positive exactly when k ≥ 2; for k = 1 it is 0 |
| `Window.WindowCountBelowKernelArea` | internal/imaging/blurMean.go:19-39 | every window, at an edge or not, has at most (k-1)² < k² cells |
| `Window.Cap` | internal/imaging/blurMean.go:49-52 | definition of `uint8(math.Min(v, 255))` for non-negative v: min(v, 255) |
| `Window.CappedQuotient` | internal/imaging/blurMean.go:48-53 | min(sum / count, 255) is a value v in [0, 255] with v·count ≤ sum, and sum < (v+1)·count unless v is the cap 255 |
| `Window.Divide` | internal/imaging/blurMean.go:48-53 | every output channel is min(sum / count, 255), truncating, so it is the capped mean of its sum over the count |
| `Window.MeanPixel` | internal/imaging/blurMean.go:34-53 | each channel of the mean is the capped mean of that channel's sum over the visited cells, divided by their number |
| `Window.WeightedPixel` | internal/imaging/blurGaussian.go:33-52 | each channel is the capped mean of that channel's weighted sum over the visited cells, divided by their number |
| `Window.DivideBetween` | internal/imaging/blurMean.go:48-53 | a capped quotient of a sum bounded by count·low and count·high stays in [low, high] |
| `Window.MeanPixelBetween` | internal/imaging/blurMean.go:34-53 | each mean channel is at least the least value of that channel over the visited cells, and at most the greatest when the greatest value is at most 255 |
| `Window.CapPixel` | internal/imaging/blurMean.go:48-53 | definition of a pixel with every channel capped at 255, as the `color.RGBA` literal stores it |
| `Window.MeanOfUniformWindow` | internal/imaging/blurMean.go:41-53 | if every visited cell is the pixel p, the mean is p with every channel capped at 255 (`CapPixel`) |
| `Window.WeightedRowInRange` | internal/imaging/blurGaussian.go:33-43 | for a visited row of a covering kernel, `pixels[i][j]` and `kernel[i-startIdx][j-startYIdx]` are in range for every column of the window |
| `Window.WeightedPixelAtMostLargestContribution` | internal/imaging/blurGaussian.go:33-52 | the weighted aggregate is never above the largest single contribution of its window |
| `Mean.BlurActionMean.constructor` | internal/cli/blur.go:42-50 | the struct literal sets the kernel size, the iteration count and the image |
| `Mean.BlurActionMean.GetUpdatedPixel` | internal/imaging/blurMean.go:18-54 | an empty grid panics on `pixels[0]`; an empty window panics on the division; otherwise the result is the capped mean of exactly the visited cells |
| `Mean.BlurActionMean.AddWindowRow` | internal/imaging/blurMean.go:35-45 | one window row adds the sum of its visited cells to `result` and its number of columns to `kernelInnerSize` |
| `Mean.BlurActionMean.FillRow` | internal/imaging/blurMean.go:82-98 | row i of the target gets the aggregate of every cell of row i at (X=j, Y=i) and no other row changes; it panics exactly when the row has a cell and k < 2 |
| `Mean.BlurActionMean.FillTarget` | internal/imaging/blurMean.go:79-101 | the pass panics exactly when the grid has a cell and k < 2; otherwise the target, read row by row, is the pass function of the grid |
| `Mean.BlurActionMean.RunPass` | internal/imaging/blurMean.go:66-101 | one round is the pass function of the current image: validation, a fresh target of the same bounds, then the cells |
| `Mean.BlurActionMean.Blur` | internal/imaging/blurMean.go:56-106 | the result and the final `b.Image` are those of the iteration-loop function |
| `Gaussian.BlurActionGaussian.constructor` | internal/cli/blur.go:53-56 | the struct literal sets the fields and the sigma, and leaves the kernel nil |
| `Gaussian.BlurActionGaussian.GetUpdatedPixel` | internal/imaging/blurGaussian.go:17-55 | the same window and count as the mean action; an empty grid or an empty window panics; otherwise the result is the capped weighted sum of exactly the visited cells over their count |
| `Gaussian.BlurActionGaussian.AddWindowRow` | internal/imaging/blurGaussian.go:34-45 | one window row adds the weighted contribution of each visited cell, with weight kernel[i-startIdx][j-startYIdx], and its number of columns to the count |
| `Gaussian.BlurActionGaussian.FillRow` | internal/imaging/blurGaussian.go:84-101 | row i of the target gets the weighted aggregate of every cell at (X=j, Y=i), and no other row changes |
| `Gaussian.BlurActionGaussian.FillTarget` | internal/imaging/blurGaussian.go:83-103 | the pass panics exactly when the grid has a cell and k < 2; otherwise the target is the pass function of the grid |
| `Gaussian.BlurActionGaussian.RunPass` | internal/imaging/blurGaussian.go:69-103 | one round is the pass function of the current image with the stored kernel |
| `Gaussian.BlurActionGaussian.Blur` | internal/imaging/blurGaussian.go:57-108 | a negative size panics in `make` with nothing changed; otherwise the stored kernel is `GaussianKernel` of the size, and the result and the final `b.Image` are those of the iteration-loop function with that kernel |
| `Gaussian.BlurActionGaussian.BlurWithKernel` | internal/imaging/blurGaussian.go:62-107 | the kernel is assigned once before the loop and is the same in every pass; the result and the final `b.Image` are those of the iteration-loop function with that kernel |
| `Gaussian.BlurActionGaussian.RunRounds` | internal/imaging/blurGaussian.go:68-107 | with the stored kernel, the result and the final `b.Image` are those of the iteration-loop function |
| `Iteration.PassRows` | internal/imaging/blurMean.go:81-98 | the output of a pass has one cell per input cell, with the same row count and row lengths |
| `Iteration.HasCellIffNonEmpty` | internal/imaging/pixel.go:26-39 | the grid of an image has a cell exactly when both bounds are positive |
| `Iteration.OnePassOutcome` | internal/imaging/blurMean.go:66-101 | a pass fails exactly when validation does; it panics (division by zero) exactly when a valid image has a cell and k < 2; otherwise its output has its input's bounds |
| `Iteration.OnePassCells` | internal/imaging/blurMean.go:81-96 | each cell of a successful pass, at (X=j, Y=i), is the aggregate of a non-empty window centred on cell (i, j) of the previous grid |
| `Iteration.UniformMeanPixel` | internal/imaging/blurMean.go:34-53 | on a grid whose every cell is the pixel p, the mean window of every cell is p capped at 255 |
| `Iteration.UniformImageIsFixedPoint` | internal/imaging/blurMean.go:34-53 | a mean pass over a grid whose every cell is the pixel p fills the target with p capped at 255, edges included |
| `Iteration.SnapshotIsPassRows` | internal/imaging/blurMean.go:81-105 | a target whose every cell holds its aggregate is, read row by row, the pass result |
| `Iteration.ZeroIterations` | internal/imaging/blurMean.go:57-64 | with `Iterations` ≤ 0 no pass runs: a nil image, a nil error and `b.Image` unchanged |
| `Iteration.OnePass` | internal/imaging/blurMean.go:66-101 | a pass fails exactly when validation does, with its error; a panic is a division by zero and needs k < 2; a success holds the pass function of the image's grid |
| `Iteration.Passes` | internal/imaging/blurMean.go:64-105 | definition of n rounds of the iteration loop: zero rounds give the nil image; a failing or panicking pass ends the run; otherwise the next round reads the target back |
| `Iteration.PassesLastRound` | internal/imaging/blurMean.go:64-105 | the image last read keeps the starting bounds; zero rounds give exactly the nil image; a failure, a panic or an image is the outcome of the last round's pass on the image last read |
| `Iteration.PassesOutcome` | internal/imaging/blurMean.go:64-105 | every later round validates as the first did, so the run fails (with that error) exactly when validation fails, panics exactly when the first pass does, and otherwise returns an image of the input's bounds |
| `Iteration.ComposeRounds` | internal/imaging/blurMean.go:64-73 | m + n rounds are m rounds followed by n rounds on the image read back from the m-th output |
| `Iteration.UniformImageStaysUniform` | internal/imaging/blurMean.go:64-105 | from a grid whose every cell is the pixel p, any number of valid mean rounds fill the target with p capped at 255, given that this capped colour, read back through `widen`, converts to a pixel with the same capped colour |
| `Iteration.WidenedChannel` | internal/imaging/pixel.go:15-17 | an 8-bit channel v widened to v·257 by the image library and divided by 255 is v for v < 128, v + 1 for 128-254, and 257 (capped to 255) for 255 |
| `Iteration.LibraryRoundTrip` | internal/imaging/pixel.go:15-17 | an 8-bit colour read back through the library widening and capped keeps its channels 0-127 and 255 and raises 128-254 by one |
| `Iteration.UniformColourPass` | internal/imaging/blurMean.go:34-53 | one mean pass over a decoded image of the single 8-bit colour c fills the target with c, its channels 128-254 raised by one |
| `Iteration.UniformColourStays` | internal/imaging/blurMean.go:64-105 | with the library widening, an image of an 8-bit colour with no channel in 128-254 (opaque and transparent ones included) stays that colour through any number of valid mean rounds |
| `Blur.GoRem` | internal/imaging/blur.go:16 | Go's `%`: the remainder has the sign of the dividend, lies strictly between -b and b, and is the dividend minus the truncated quotient times b |
| `Blur.GoRemTwoIsZeroIffEven` | internal/imaging/blur.go:16 | `k % 2 == 0` holds exactly for even k, negative ones included; a negative odd k gives -1 |
| `Blur.ValidateAndGatherImage` | internal/imaging/blur.go:14-36 | fails exactly when k is even or exceeds min(width, height); an even k is rejected first, with its own error; otherwise the grid of the image |
| `Blur.NegativeOddKernelPasses` | internal/imaging/blur.go:16-35 | every negative odd size passes both checks |
| `Blur.ValidationDependsOnBoundsOnly` | internal/imaging/blur.go:14-36 | two images with the same bounds validate alike, with the same error |
| `Blur.DraftSpan` | internal/imaging/blur.go:42-46 | the draft window on one axis, not clamped, spans exactly k-1 indices |
| `Blur.DraftCellInBounds` | internal/imaging/blur.go:57-62 | inside a draft window that lies in the grid, `pixels[i][j]` is in range |
| `Blur.Wrap8` | internal/imaging/blur.go:67-70 | definition of `uint8(v)`: v modulo 256 |
| `Blur.KernelArea` | internal/imaging/blur.go:48 | the fixed divisor k² is positive for every non-zero k |
| `Blur.DivideWrap` | internal/imaging/blur.go:66-71 | definition of the draft's conversion: every channel is the sum divided by the fixed divisor, truncating, then taken modulo 256 |
| `Blur.DraftMean` | internal/imaging/blur.go:57-71 | every channel is the sum over the unclamped draft window divided by k², modulo 256; for k ≤ 1 the window is empty and the colour is transparent black |
| `Blur.DetermineMeanValuesWithinKernel` | internal/imaging/blur.go:41-72 | the sum of the unclamped (k-1)×(k-1) window from x - k/2 - 1, divided by k² whatever was visited, wrapped into 8 bits with no cap |
| `Blur.AddDraftRow` | internal/imaging/blur.go:58-63 | one draft window row adds the sum of its cells to `result` |
| `Blur.StartingOffset` | internal/imaging/blur.go:95 | definition of `startingOffset`, floor(k/2) + 1 |
| `Blur.InBand` | internal/imaging/blur.go:102-103 | definition of the loop range: both indexes lie in [startingOffset, len - startingOffset) |
| `Blur.DraftBandInBounds` | internal/imaging/blur.go:95-103 | for every (i, j) of the loop range [k/2+1, len - (k/2+1)), every index the draft touches is in bounds |
| `Blur.FillBandRow` | internal/imaging/blur.go:103-119 | row i's band cells get the draft mean at (X=j, Y=i), and no other cell changes |
| `Blur.BlurMean` | internal/imaging/blur.go:74-125 | a validation error is returned before any pixel is computed; a size of -3 or below panics on a negative index; otherwise band cells hold the draft mean at (X=j, Y=i) and every other cell keeps the fresh target's zero value |
| `Blur.DraftMeanOfUniformWindow` | internal/imaging/blur.go:57-70 | on a uniform window of value v the draft returns ((k-1)²·v / k²) mod 256, not v |
| `Cli.LowerChar` | internal/cli/blur.go:27 | an ASCII capital becomes its lower-case letter, and every other character is unchanged |
| `Cli.ToLower` | internal/cli/blur.go:27 | the same length, and every character lower-cased |
| `Cli.ToLowerIdempotent` | internal/cli/blur.go:27 | lower-casing twice is lower-casing once |
| `Cli.IndexFrom` | internal/cli/blur.go:28 | the first occurrence at or after k, or -1 when there is none |
| `Cli.IndexOf` | internal/cli/blur.go:28 | `strings.Index`: -1 exactly when there is no occurrence, otherwise the first occurrence |
| `Cli.BeforeFirstDot` | internal/cli/blur.go:66 | `strings.Split(name, ".")[0]`: the longest prefix without '.', followed by '.' when shorter than the name |
| `Cli.ExtensionSupported` | internal/cli/blur.go:28 | definition of the test: `strings.Index` of the extension in ".jpg.jpeg.png" is not -1 |
| `Cli.ExtensionSupportedIffSubstring` | internal/cli/blur.go:27-30 | a lower-cased extension is accepted exactly when it is a substring of ".jpg.jpeg.png" |
| `Cli.ExtensionExamples` | internal/cli/blur.go:27-30 | ".jpg", ".jpeg", ".png" and ".JPG" are accepted, and so are "", ".jp", ".pn" and "g.jp" |
| `Cli.ExtensionRejected` | internal/cli/blur.go:27-30 | an extension with a character the joined list lacks is rejected |
| `Cli.GifAndBmpRejected` | internal/cli/blur.go:27-30 | ".gif" and ".bmp" are rejected |
| `Cli.SelectBlurAction` | internal/cli/blur.go:48-57 | "mean" selects the mean action and "gaussian" the Gaussian action with sigma; any other kind leaves the action nil |
| `Cli.KindMatchIsCaseSensitive` | internal/cli/blur.go:48-57 | "Mean" and "GAUSSIAN" select nothing |
| `Cli.OutputPath` | internal/cli/blur.go:65-68 | definition of the output path: directory, "/", the base name up to its first '.', "-blur" and the extension |
| `Cli.OutputPathExample` | internal/cli/blur.go:65-68 | the name stops at the first '.': "a.b.png" in "d" gives "d/a-blur.png" |
| `Cli.EncoderFor` | internal/cli/blur.go:73-81 | ".jpg" is encoded as JPEG and ".png" as PNG; every other extension, ".jpeg" included, encodes nothing |
| `Cli.JpegSpellingIsNotEncoded` | internal/cli/blur.go:27-81 | ".jpeg" passes the extension test and yet is never encoded |
| `Cli.OutputCreatedIff` | internal/cli/blur.go:23-68 | an output file is created exactly when the file exists, the extension passes, the kind names an action and its blur returns no error; its path is dir + "/" + the base name up to its first '.' + "-blur" + the lower-cased extension |
| `Cli.BlurErrorCreatesNoFile` | internal/cli/blur.go:59-68 | a blur error is returned before any output file is created |
| `Cli.PerformBlurOnImage` | internal/cli/blur.go:17-84 | a missing file gives the not-exists error; an unsupported lower-cased extension gives its error, carrying that extension; a blur error is the selected action's error; a created output uses the encoder of the lower-cased extension |
| `Cli.UnknownKindPanics` | internal/cli/blur.go:35-59 | an unknown kind reaches the call on the nil action once both checks pass |

## Left out

- Image decoding and encoding, `os.Stat`, `os.Open`, `os.Create` and the `filepath` functions are I/O. Their results are parameters: `fileExists`, `rawExt`, `folderPath`, `baseName`, and the `blur` outcome of `PerformBlurOnImage`. Encoding errors are not modelled; `Cli.PerformBlurOnImage` returns which encoder would run.
- The `cli.Context` flag reading is left out, including the panic of `StringSlice("type")[0]` on an empty list. So are cmd/blur/main.go and the stub `BlurGaussian` of internal/imaging/blur.go:127-141. The debug printing is also left out.
- `sync.WaitGroup` and the per-cell goroutines are left out. Each goroutine writes its own cell of a fresh target and reads only the previous grid, so every pass is modelled as a sequential loop. The helper methods `FillRow`, `FillTarget`, `RunPass`, `RunRounds`, `BlurWithKernel`, `AddWindowRow`, `AddDraftRow` and `FillBandRow` split those Go loops into parts without changing what they do.
- A Go panic ends the whole program. Here it is a `Panicked` outcome, or an `Err` of `GetUpdatedPixel`, that the callers pass on.
- Floating point is modelled differently:
  - `helpers.Gaussian` (the exp/pow density) is a parameter `gaussian`.
  - The truncated product `int(float64(channel) * weight)` is a parameter `contribution` returning a natural number.
  - The other floats are `real`.
  - `math.Floor(float64(k)/2)` is Dafny's `k / 2`, which also rounds down for negative k.
  - The `math.Min` caps are integer minima.
- The colour conversions of Go's image library are parameters:
  - `At(x, y).RGBA()` of a decoded image is the `at` function of a `Picture`.
  - The widening of an 8-bit target colour when a later pass reads it back is `widen`.
  - The minimum corner of the bounds is taken to be the origin.
- `helpers.KernelGaussian` is declared with one parameter, but blurGaussian.go:62 calls it with two. `Gaussian.BlurActionGaussian.Blur` calls the one-parameter version and ignores the sigma; the constant 3 used instead is modelled in `Helpers.KernelGaussian`. `Gaussian.BlurActionGaussian.BlurWithKernel` takes any kernel that covers every index a window can produce (`KernelCovers`). The claim that the largest weight sits at the centre is not modelled, because it depends on the density.
- `BlurAction`, `validateAndGetImagePixels` and `helpers.Max` are not part of this model. Validation is taken to behave as `validateAndGatherImage`, and `Max` to mirror `Min`.
- With the image library's widening (`RGBA()` turns an 8-bit channel c into c·257), pixel.go divides by 255 rather than 257. An image of a single 8-bit colour with a channel in 128-254 is therefore not returned unchanged by the mean blur: that channel comes back one higher (`Iteration.UniformColourPass`). The widening is otherwise a parameter `widen`; `Pixels.LibraryWiden` is the library's, used only for these lemmas.
- When `Iterations` is 0 or below, Go returns a nil `*image.RGBA` inside a non-nil interface. This is modelled as `Blurred(None)`.
- `Helpers.ARangeAutoStep`: requires non-negative `start` and `stop`. With a negative `stop` Go panics in `make`; with a negative `start` below a positive `stop` it indexes out of range. The only caller passes start 0.
- `Helpers.KernelGaussian`: requires a non-negative size, for the same `make` panic. `Gaussian.BlurActionGaussian.Blur` models that panic as `Panicked(NegativeLength)` before calling it.
- When `Iterations` is 0 or below and the blur returns no error, `PerformBlurOnImage` still creates the output file and then hands the nil `*image.RGBA` to `jpeg.Encode` or `png.Encode` (internal/cli/blur.go:68-79), which panics. The encoders are not modelled, so `Cli.PerformBlurOnImage` returns `OutputCreated` with the encoder that would run.
- `Cli.LowerChar` and `Cli.ToLower`: only ASCII letters are lower-cased, not the Unicode case mapping of `strings.ToLower`.
- `Mean.BlurActionMean.GetUpdatedPixel` and `Gaussian.BlurActionGaussian.GetUpdatedPixel`: both require a rectangular grid. Every grid the code builds comes from `GetPixelsFromImage`, whose rows all have the image's width.
- `Blur.DetermineMeanValuesWithinKernel`: it requires its window to lie in the grid (or be empty) and a non-zero size. The Go function indexes out of range otherwise. Its only caller's loop bounds ensure both (`Blur.DraftBandInBounds`).
