/** The pixel buffer of a decoded image and the point queries on it:
    addressing one pixel in a row-major, channel-interleaved buffer and the
    fast luminance approximation. */
module Pixels {
  import opened Arith

  /** One channel sample, as `uint8_t`. */
  type byte = b: int | 0 <= b < 256

  /** The `std::out_of_range` conditions of the queries, one per message. */
  datatype Error =
    | YTooLarge           // "Y value too large"
    | XTooLarge           // "X value too large"
    | BoxWiderThanImage   // "Box size is greater than image width"
    | BoxTallerThanImage  // "Box size is greater than image height"

  datatype Result<T> = Success(value: T) | Failure(error: Error)

  /** Every scanline holds `width * pixelSize` samples. */
  predicate Shaped(rows: seq<seq<byte>>, width: nat, pixelSize: nat) {
    forall y :: 0 <= y < |rows| ==> |rows[y]| == width * pixelSize
  }

  /** The invariant of a loaded image: `height` scanlines of `width` pixels,
      each pixel `pixelSize` interleaved samples (1 for gray, 3 for R, G, B;
      the decoder may also deliver other counts, such as 4 for CMYK). */
  predicate WellFormed(rows: seq<seq<byte>>, width: nat, height: nat, pixelSize: nat) {
    |rows| == height && width >= 1 && height >= 1 &&
    pixelSize >= 1 &&
    Shaped(rows, width, pixelSize)
  }

  /** Sample `c` of pixel `x` lies inside a scanline of `width` pixels. */
  lemma SampleInRow(x: nat, c: nat, width: nat, pixelSize: nat)
    requires x < width && c < pixelSize
    ensures x * pixelSize + c < width * pixelSize
    ensures x * pixelSize + pixelSize <= width * pixelSize
  {
    var d: nat := width - x - 1;
    var rest: nat := d * pixelSize;
    calc {
      width * pixelSize;
      (x + 1 + d) * pixelSize;
      x * pixelSize + pixelSize + rest;
    }
  }

  /** Channel `c` of the pixel at column `x` of scanline `y`. */
  function Sample(rows: seq<seq<byte>>, width: nat, pixelSize: nat, x: nat, y: nat, c: nat): byte
    requires Shaped(rows, width, pixelSize) && y < |rows| && x < width && c < pixelSize
  {
    SampleInRow(x, c, width, pixelSize);
    rows[y][x * pixelSize + c]
  }

  /** Under `Shaped`, the pixel count the bounds check uses,
      `|rows[0]| / pixelSize`, is the width. */
  lemma RowWidth(rows: seq<seq<byte>>, width: nat, pixelSize: nat)
    requires |rows| > 0 && pixelSize >= 1 && Shaped(rows, width, pixelSize)
    ensures |rows[0]| / pixelSize == width
  {
    assert |rows[0]| == pixelSize * width;
    MulDivCancel(pixelSize, width);
  }

  /** The pixel at column `x` of scanline `y`: its `pixelSize` samples in
      channel order, or the error the bounds checks raise. */
  function PixelAt(rows: seq<seq<byte>>, width: nat, pixelSize: nat, x: nat, y: nat): (r: Result<seq<byte>>)
    requires pixelSize >= 1 && Shaped(rows, width, pixelSize)
    ensures r.Failure? <==> (y >= |rows| || x >= width)
    ensures r.Failure? ==> r.error == (if y >= |rows| then YTooLarge else XTooLarge)
    ensures r.Success? ==> x * pixelSize + pixelSize <= |rows[y]|
    ensures r.Success? ==>
      |r.value| == pixelSize &&
      forall n :: 0 <= n < pixelSize ==> r.value[n] == rows[y][x * pixelSize + n]
  {
    if y >= |rows| then Failure(YTooLarge)
    else
      RowWidth(rows, width, pixelSize);
      if x >= |rows[0]| / pixelSize then Failure(XTooLarge)
      else
        SampleInRow(x, 0, width, pixelSize);
        var row := rows[y];
        assert |row| == width * pixelSize;
        Success(seq(pixelSize, n requires 0 <= n < pixelSize => row[x * pixelSize + n]))
  }

  /** Every pixel of the image is `colour`. */
  predicate Uniform(rows: seq<seq<byte>>, width: nat, pixelSize: nat, colour: seq<byte>)
    requires pixelSize >= 1 && Shaped(rows, width, pixelSize)
  {
    forall y, x :: 0 <= y < |rows| && 0 <= x < width ==> PixelAt(rows, width, pixelSize, x, y) == Success(colour)
  }

  /** In an image of one colour, sample column `col` of any scanline holds
      channel `col % pixelSize` of that colour. */
  lemma UniformSample(rows: seq<seq<byte>>, width: nat, pixelSize: nat, colour: seq<byte>, y: nat, col: nat)
    requires pixelSize >= 1 && Shaped(rows, width, pixelSize) && |colour| == pixelSize
    requires Uniform(rows, width, pixelSize, colour)
    requires y < |rows| && col < |rows[y]|
    ensures rows[y][col] == colour[col % pixelSize]
  {
    var x, n := col / pixelSize, col % pixelSize;
    Decompose(col, pixelSize);
    DivBelow(col, width, pixelSize);
    var p := PixelAt(rows, width, pixelSize, x, y);
    assert p == Success(colour);
    assert x * pixelSize + n == col;
    assert p.value[n] == rows[y][col];
  }

  /** Conversely, scanlines that repeat `colour` channel by channel make an
      image of that one colour. */
  lemma UniformBySamples(rows: seq<seq<byte>>, width: nat, pixelSize: nat, colour: seq<byte>)
    requires pixelSize >= 1 && Shaped(rows, width, pixelSize) && |colour| == pixelSize
    requires forall y, col :: 0 <= y < |rows| && 0 <= col < |rows[y]| ==> rows[y][col] == colour[col % pixelSize]
    ensures Uniform(rows, width, pixelSize, colour)
  {
    forall y, x | 0 <= y < |rows| && 0 <= x < width
      ensures PixelAt(rows, width, pixelSize, x, y) == Success(colour)
    {
      var p := PixelAt(rows, width, pixelSize, x, y);
      forall n | 0 <= n < pixelSize
        ensures p.value[n] == colour[n]
      {
        DivExact(x, n, pixelSize);
        assert p.value[n] == rows[y][x * pixelSize + n];
      }
      assert p.value == colour;
    }
  }

  /** The fast brightness approximation: the sample itself for a gray pixel,
      `(2R + 3G + B) / 6` truncated for an RGB pixel, 0 for any other shape. */
  function Luminance(pixel: seq<byte>): (l: byte)
    ensures |pixel| == 1 ==> l == pixel[0]
    ensures |pixel| == 3 ==>
      6 * l <= 2 * (pixel[0] as int) + 3 * (pixel[1] as int) + pixel[2] as int < 6 * l + 6
    ensures |pixel| != 1 && |pixel| != 3 ==> l == 0
  {
    if |pixel| == 1 then pixel[0]
    else if |pixel| == 3 then (2 * (pixel[0] as int) + 3 * (pixel[1] as int) + pixel[2] as int) / 6
    else 0
  }

  /** The weights add up to 6, so a gray RGB pixel keeps its level; black
      stays black and white stays white. */
  lemma LuminanceOfGray(v: byte)
    ensures Luminance([v, v, v]) == v
    ensures Luminance([0, 0, 0]) == 0 && Luminance([255, 255, 255]) == 255
  {
  }

  /** Brightening any channel never darkens the approximation. */
  lemma LuminanceMonotone(p: seq<byte>, q: seq<byte>)
    requires |p| == |q| == 3
    requires forall n :: 0 <= n < 3 ==> p[n] <= q[n]
    ensures Luminance(p) <= Luminance(q)
  {
    assert p[0] <= q[0] && p[1] <= q[1] && p[2] <= q[2];
    assert 2 * (p[0] as int) + 3 * (p[1] as int) + p[2] as int <= 2 * (q[0] as int) + 3 * (q[1] as int) + q[2] as int;
  }

  /** The approximation lies between the darkest and the brightest channel. */
  lemma LuminanceBetweenChannels(p: seq<byte>)
    requires |p| == 3
    ensures Luminance(p) <= p[0] || Luminance(p) <= p[1] || Luminance(p) <= p[2]
    ensures Luminance(p) >= p[0] || Luminance(p) >= p[1] || Luminance(p) >= p[2]
  {
  }
}
