/**
 * The numeric helpers of internal/helpers/math.go: `Min` (and `Max`,
 * which the imaging code calls and which is taken to mirror `Min`), the
 * centred coordinate range `ARangeAutoStep`, and the outer-product loop
 * of `KernelGaussian`. Floating point numbers are modelled as `real`; the
 * Gaussian density itself is a parameter.
 */
module Helpers {

  /** The smaller of `x` and `y`; `x` when they are equal. */
  function Min(x: int, y: int): (r: int)
    ensures r <= x && r <= y
    ensures r == x || r == y
  {
    if x > y then y else x
  }

  /** The larger of `x` and `y`; `x` when they are equal. */
  function Max(x: int, y: int): (r: int)
    ensures r >= x && r >= y
    ensures r == x || r == y
  {
    if x < y then y else x
  }

  /**
   * The value `ARangeAutoStep(start, stop)` returns: a slice of length
   * `stop` whose entry `i` is `i - (stop - 1) / 2` from `start` on and
   * keeps the zero value of `make` below `start`.
   */
  function CentredRange(start: nat, stop: nat): (r: seq<real>)
    ensures |r| == stop
  {
    seq(stop, i => if i >= start then (i as real) - ((stop as real) - 1.0) / 2.0 else 0.0)
  }

  /** internal/helpers/math.go `ARangeAutoStep`: fills a fresh slice in a loop. */
  method ARangeAutoStep(start: int, stop: int) returns (rnge: array<real>)
    requires 0 <= stop   // make([]float64, stop, ...) panics on a negative length
    requires 0 <= start  // otherwise the first write is rnge[start] with start < 0
    ensures fresh(rnge)
    ensures rnge[..] == CentredRange(start, stop)
  {
    rnge := new real[stop](_ => 0.0);
    var step := ((stop as real) - 1.0) / 2.0;
    var i := start;
    while i < stop
      invariant start <= i || stop <= start
      invariant forall m :: 0 <= m < stop ==> rnge[m] == if start <= m < i then (m as real) - step else 0.0
    {
      rnge[i] := (i as real) - step;
      i := i + 1;
    }
    assert forall m :: 0 <= m < stop ==> rnge[m] == CentredRange(start, stop)[m];
  }

  /** With start 0 the range is symmetric around zero: entry i is minus entry stop-1-i. */
  lemma CentredRangeAntisymmetric(stop: nat, i: nat)
    requires i < stop
    ensures CentredRange(0, stop)[i] == -CentredRange(0, stop)[stop - 1 - i]
  {
  }

  /** For an odd length the middle entry is the centre coordinate 0. */
  lemma CentredRangeMiddleIsZero(stop: nat)
    requires stop % 2 == 1
    ensures CentredRange(0, stop)[stop / 2] == 0.0
  {
    assert (stop as real) - 1.0 == 2.0 * ((stop / 2) as real);
  }

  /** Entries below `start` keep the zero value. */
  lemma CentredRangeBelowStartIsZero(start: nat, stop: nat, i: nat)
    requires i < start && i < stop
    ensures CentredRange(start, stop)[i] == 0.0
  {
  }

  /**
   * The one-dimensional weight `KernelGaussian` uses at index i: the
   * Gaussian density at the centred coordinate, with the spread fixed at 3.
   */
  function Weight(kernelSize: nat, gaussian: (real, real) -> real, i: nat): real
    requires i < kernelSize
  {
    gaussian(CentredRange(0, kernelSize)[i], 3.0)
  }

  /** The kernel `KernelGaussian` builds: entry (i, j) is the product of the weights at i and j. */
  function GaussianKernel(kernelSize: nat, gaussian: (real, real) -> real): (kernel: seq<seq<real>>)
    ensures |kernel| == kernelSize
    ensures forall i :: 0 <= i < kernelSize ==> |kernel[i]| == kernelSize
  {
    seq(kernelSize, i requires 0 <= i < kernelSize =>
      seq(kernelSize, j requires 0 <= j < kernelSize => Weight(kernelSize, gaussian, i) * Weight(kernelSize, gaussian, j)))
  }

  /** A square matrix whose every entry is the product of the weights at its row and column is `GaussianKernel`. */
  lemma EntrywiseGaussianKernel(kernel: seq<seq<real>>, kernelSize: nat, gaussian: (real, real) -> real)
    requires |kernel| == kernelSize
    requires forall i :: 0 <= i < kernelSize ==> |kernel[i]| == kernelSize
    requires forall i, j :: 0 <= i < kernelSize && 0 <= j < kernelSize ==>
               kernel[i][j] == Weight(kernelSize, gaussian, i) * Weight(kernelSize, gaussian, j)
    ensures kernel == GaussianKernel(kernelSize, gaussian)
  {
    var spec := GaussianKernel(kernelSize, gaussian);
    forall i | 0 <= i < kernelSize
      ensures kernel[i] == spec[i]
    {
      assert forall j :: 0 <= j < kernelSize ==> kernel[i][j] == spec[i][j];
    }
  }

  /** The loop at the head of `KernelGaussian`: each coordinate is replaced in place by its weight. */
  method ApplyGaussian(arr: array<real>, gaussian: (real, real) -> real)
    modifies arr
    ensures forall m :: 0 <= m < arr.Length ==> arr[m] == gaussian(old(arr[m]), 3.0)
  {
    for index := 0 to arr.Length
      invariant forall m :: 0 <= m < index ==> arr[m] == gaussian(old(arr[m]), 3.0)
      invariant forall m :: index <= m < arr.Length ==> arr[m] == old(arr[m])
    {
      arr[index] := gaussian(arr[index], 3.0);
    }
  }

  /** The nested loop of `KernelGaussian`: row i collects w[i] * w[j] by appending. */
  method OuterProduct(w: seq<real>) returns (kernel: seq<seq<real>>)
    ensures |kernel| == |w|
    ensures forall i :: 0 <= i < |w| ==> |kernel[i]| == |w|
    ensures forall i, j :: 0 <= i < |w| && 0 <= j < |w| ==> kernel[i][j] == w[i] * w[j]
  {
    kernel := seq(|w|, _ => []);
    for i := 0 to |w|
      invariant |kernel| == |w|
      invariant forall m :: i <= m < |w| ==> kernel[m] == []
      invariant forall m :: 0 <= m < i ==> |kernel[m]| == |w|
      invariant forall m, n :: 0 <= m < i && 0 <= n < |w| ==> kernel[m][n] == w[m] * w[n]
    {
      // every append of the inner loop goes to kernel[i]
      var row := kernel[i];
      for j := 0 to |w|
        invariant |row| == j
        invariant forall n :: 0 <= n < j ==> row[n] == w[i] * w[n]
      {
        row := row + [w[i] * w[j]];
      }
      kernel := kernel[i := row];
    }
  }

  /**
   * internal/helpers/math.go `KernelGaussian`: overwrites the centred range
   * with Gaussian weights (the spread is the constant 3; no caller value is
   * used) and forms their outer product. The kernel is square and symmetric.
   */
  method KernelGaussian(kernelSize: int, gaussian: (real, real) -> real) returns (kernel: seq<seq<real>>)
    requires 0 <= kernelSize  // make with a negative length panics
    ensures |kernel| == kernelSize
    ensures forall i :: 0 <= i < kernelSize ==> |kernel[i]| == kernelSize
    ensures forall i, j :: 0 <= i < kernelSize && 0 <= j < kernelSize ==>
              kernel[i][j] == Weight(kernelSize, gaussian, i) * Weight(kernelSize, gaussian, j)
    ensures forall i, j :: 0 <= i < kernelSize && 0 <= j < kernelSize ==> kernel[i][j] == kernel[j][i]
    ensures kernel == GaussianKernel(kernelSize, gaussian)
  {
    var arr := ARangeAutoStep(0, kernelSize);
    ApplyGaussian(arr, gaussian);
    assert forall m :: 0 <= m < kernelSize ==> arr[m] == Weight(kernelSize, gaussian, m);
    kernel := OuterProduct(arr[..]);
    forall i, j | 0 <= i < kernelSize && 0 <= j < kernelSize
      ensures kernel[i][j] == kernel[j][i]
    {
      assert kernel[i][j] == arr[i] * arr[j] && kernel[j][i] == arr[j] * arr[i];
    }
    EntrywiseGaussianKernel(kernel, kernelSize, gaussian);
  }

  /**
   * When the density is even in its coordinate, the kernel is unchanged by
   * a rotation through 180 degrees.
   */
  lemma KernelRotationSymmetric(kernelSize: nat, gaussian: (real, real) -> real, i: nat, j: nat)
    requires forall x: real :: gaussian(-x, 3.0) == gaussian(x, 3.0)
    requires i < kernelSize && j < kernelSize
    ensures Weight(kernelSize, gaussian, i) * Weight(kernelSize, gaussian, j)
         == Weight(kernelSize, gaussian, kernelSize - 1 - i) * Weight(kernelSize, gaussian, kernelSize - 1 - j)
  {
    CentredRangeAntisymmetric(kernelSize, i);
    CentredRangeAntisymmetric(kernelSize, j);
    var ci := CentredRange(0, kernelSize)[kernelSize - 1 - i];
    var cj := CentredRange(0, kernelSize)[kernelSize - 1 - j];
    assert gaussian(-ci, 3.0) == gaussian(ci, 3.0);
    assert gaussian(-cj, 3.0) == gaussian(cj, 3.0);
  }
}
