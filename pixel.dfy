/**
 * internal/imaging/pixel.go: the integer pixel grid built from a decoded
 * image, together with the parts of Go's image library the blur code relies
 * on, described at their boundary: an image as its bounds and a sample
 * function, and the 8-bit `image.RGBA` target buffer that `SetRGBA` writes.
 */
module Pixels {

  newtype uint8 = x: int | 0 <= x < 0x100
  newtype uint32 = x: int | 0 <= x < 0x1_0000_0000

  /**
   * `Pixel` of pixel.go. The Go fields are `int`; they are `nat` here because
   * the only producer, `RgbaToPixel`, divides unsigned samples, so no channel
   * is ever negative (and Go's truncating `/` then agrees with Dafny's).
   */
  datatype Pixel = Pixel(r: nat, g: nat, b: nat, a: nat)

  const Blank := Pixel(0, 0, 0, 0)

  /** What `Color.RGBA()` returns: four unsigned 32-bit samples. */
  datatype Sample = Sample(r: uint32, g: uint32, b: uint32, a: uint32)

  /** `color.RGBA`, the 8-bit colour that `SetRGBA` stores. */
  datatype Rgba8 = Rgba8(r: uint8, g: uint8, b: uint8, a: uint8)

  /** The zero value of a fresh `image.RGBA` cell: transparent black. */
  const Transparent := Rgba8(0, 0, 0, 0)

  /**
   * A decoded image as the core sees it: `Bounds().Max` (the minimum corner
   * is the origin) and `At(x, y).RGBA()`.
   */
  datatype Picture = Picture(width: nat, height: nat, at: (int, int) -> Sample)

  /** pixel.go `RgbaToPixel`: every channel independently divided by 255, truncating. */
  function RgbaToPixel(r: uint32, g: uint32, b: uint32, a: uint32): (p: Pixel)
    ensures p.r * 255 <= r as int < (p.r + 1) * 255 && p.g * 255 <= g as int < (p.g + 1) * 255
    ensures p.b * 255 <= b as int < (p.b + 1) * 255 && p.a * 255 <= a as int < (p.a + 1) * 255
  {
    Pixel(r as int / 255, g as int / 255, b as int / 255, a as int / 255)
  }

  function SampleToPixel(s: Sample): Pixel
  {
    RgbaToPixel(s.r, s.g, s.b, s.a)
  }

  /**
   * `RGBA()` of a `color.RGBA` in Go's image/color library: every 8-bit
   * channel c widens to the 16-bit c · 257 (`c | c << 8`).
   */
  function LibraryWiden(c: Rgba8): Sample
  {
    Sample((c.r as int * 257) as uint32, (c.g as int * 257) as uint32, (c.b as int * 257) as uint32, (c.a as int * 257) as uint32)
  }

  /** The scaling is monotone in every channel. */
  lemma RgbaToPixelMonotone(s: Sample, t: Sample)
    requires s.r <= t.r && s.g <= t.g && s.b <= t.b && s.a <= t.a
    ensures SampleToPixel(s).r <= SampleToPixel(t).r && SampleToPixel(s).g <= SampleToPixel(t).g
    ensures SampleToPixel(s).b <= SampleToPixel(t).b && SampleToPixel(s).a <= SampleToPixel(t).a
  {
  }

  /** Zero maps to zero; the 16-bit maximum 65535 maps to 257, above the 8-bit range. */
  lemma RgbaToPixelExtremes()
    ensures RgbaToPixel(0, 0, 0, 0) == Blank
    ensures RgbaToPixel(65535, 65535, 65535, 65535) == Pixel(257, 257, 257, 257)
  {
  }

  /** A grid whose rows all have the length of the first. */
  ghost predicate Rectangular(pixels: seq<seq<Pixel>>)
  {
    forall i :: 0 <= i < |pixels| ==> |pixels[i]| == Width(pixels)
  }

  /** `len(pixels[0])`, or 0 for a grid without rows. */
  function Width(pixels: seq<seq<Pixel>>): nat
  {
    if |pixels| == 0 then 0 else |pixels[0]|
  }

  /** The grid `GetPixelsFromImage` builds: row y, column x holds the sample at (x, y). */
  function PixelsOf(img: Picture): seq<seq<Pixel>>
  {
    seq(img.height, y => seq(img.width, x => SampleToPixel(img.at(x, y))))
  }

  lemma PixelsOfShape(img: Picture)
    ensures |PixelsOf(img)| == img.height && Rectangular(PixelsOf(img))
    ensures img.height > 0 ==> Width(PixelsOf(img)) == img.width
  {
  }

  /**
   * pixel.go `GetPixelsFromImage`: `height` rows, each of `width` entries,
   * appended in row-major order, so that the row index is Y and the column
   * index is X. (The Go function also returns an error, which is always nil.)
   */
  method GetPixelsFromImage(img: Picture) returns (pixels: seq<seq<Pixel>>)
    ensures |pixels| == img.height
    ensures forall y :: 0 <= y < |pixels| ==> |pixels[y]| == img.width
    ensures forall y, x :: 0 <= y < img.height && 0 <= x < img.width ==>
              pixels[y][x] == RgbaToPixel(img.at(x, y).r, img.at(x, y).g, img.at(x, y).b, img.at(x, y).a)
    ensures pixels == PixelsOf(img)
  {
    pixels := [];
    var y := 0;
    while y < img.height
      invariant 0 <= y <= img.height
      invariant pixels == PixelsOf(img)[..y]
    {
      var row: seq<Pixel> := [];
      var x := 0;
      while x < img.width
        invariant 0 <= x <= img.width
        invariant row == PixelsOf(img)[y][..x]
      {
        row := row + [SampleToPixel(img.at(x, y))];
        x := x + 1;
      }
      assert PixelsOf(img)[y][..x] == PixelsOf(img)[y];
      assert PixelsOf(img)[..y + 1] == PixelsOf(img)[..y] + [PixelsOf(img)[y]];
      pixels := pixels + [row];
      y := y + 1;
    }
  }

  // ----- the 8-bit target buffer (Go's image.RGBA), indexed [Y, X] -----

  /** `image.NewRGBA`: a fresh width x height buffer of transparent black. */
  method NewRGBA(width: nat, height: nat) returns (img: array2<Rgba8>)
    ensures fresh(img)
    ensures img.Length0 == height && img.Length1 == width
    ensures forall y, x :: 0 <= y < height && 0 <= x < width ==> img[y, x] == Transparent
  {
    img := new Rgba8[height, width]((_, _) => Transparent);
  }

  /** `(*image.RGBA).SetRGBA(x, y, c)`: stores c at column x of row y; a point outside the bounds is ignored. */
  method SetRGBA(img: array2<Rgba8>, x: int, y: int, c: Rgba8)
    modifies img
    ensures 0 <= y < img.Length0 && 0 <= x < img.Length1 ==> img[y, x] == c
    ensures forall y', x' :: 0 <= y' < img.Length0 && 0 <= x' < img.Length1 && (y' != y || x' != x) ==>
              img[y', x'] == old(img[y', x'])
  {
    if 0 <= y < img.Length0 && 0 <= x < img.Length1 {
      img[y, x] := c;
    }
  }

  /** The contents of a target buffer, row (Y) by row. */
  function Snapshot(img: array2<Rgba8>): (rows: seq<seq<Rgba8>>)
    reads img
    ensures |rows| == img.Length0
    ensures forall y :: 0 <= y < img.Length0 ==> |rows[y]| == img.Length1
    ensures forall y, x :: 0 <= y < img.Length0 && 0 <= x < img.Length1 ==> rows[y][x] == img[y, x]
  {
    seq(img.Length0, y requires 0 <= y < img.Length0 reads img =>
      seq(img.Length1, x requires 0 <= x < img.Length1 reads img => img[y, x]))
  }

  /**
   * A finished target buffer seen again as an image, as a later pass does
   * when it assigns the target to `b.Image`: `At(x, y).RGBA()` widens the
   * stored 8-bit colour back to 16-bit samples (`widen`, Go's library
   * conversion).
   */
  function Reread(rows: seq<seq<Rgba8>>, width: nat, height: nat, widen: Rgba8 -> Sample): Picture
  {
    Picture(width, height,
      (x, y) => if 0 <= y < |rows| && 0 <= x < |rows[y]| then widen(rows[y][x]) else widen(Transparent))
  }
}
