/** The box average of a square window of pixels, per channel, with the
    window's origin shifted left/up so that it fits inside the image. */
module BoxAverage {
  import opened Pixels
  import opened Arith

  /** The origin actually used for a window of `box` pixels requested at
      `p` along an axis of `extent` pixels: `p` itself when the window
      fits, otherwise the last origin at which it fits. */
  function ClampOrigin(p: nat, box: nat, extent: nat): (o: nat)
    requires box <= extent
    ensures o + box <= extent
    ensures o <= p
    ensures o == p <==> p + box <= extent
  {
    if p + box >= extent then extent - box else p
  }

  /** Clamping an origin that has already been clamped changes nothing. */
  lemma ClampOriginIdempotent(p: nat, box: nat, extent: nat)
    requires box <= extent
    ensures ClampOrigin(ClampOrigin(p, box, extent), box, extent) == ClampOrigin(p, box, extent)
  {
  }

  /** Sum of channel `c` over the `n` pixels of scanline `y` starting at
      column `x0`. */
  function SpanSum(rows: seq<seq<byte>>, width: nat, pixelSize: nat, y: nat, x0: nat, n: nat, c: nat): nat
    requires Shaped(rows, width, pixelSize) && y < |rows| && x0 + n <= width && c < pixelSize
  {
    if n == 0 then 0
    else SpanSum(rows, width, pixelSize, y, x0, n - 1, c) + Sample(rows, width, pixelSize, x0 + n - 1, y, c)
  }

  /** Sum of channel `c` over the window of `n` scanlines from `y0` and
      `boxWidth` pixels from `x0`. */
  function BoxSum(rows: seq<seq<byte>>, width: nat, pixelSize: nat, x0: nat, y0: nat, boxWidth: nat, n: nat, c: nat): nat
    requires Shaped(rows, width, pixelSize) && y0 + n <= |rows| && x0 + boxWidth <= width && c < pixelSize
  {
    if n == 0 then 0
    else BoxSum(rows, width, pixelSize, x0, y0, boxWidth, n - 1, c) + SpanSum(rows, width, pixelSize, y0 + n - 1, x0, boxWidth, c)
  }

  lemma {:induction false} SpanSumBound(rows: seq<seq<byte>>, width: nat, pixelSize: nat, y: nat, x0: nat, n: nat, c: nat)
    requires Shaped(rows, width, pixelSize) && y < |rows| && x0 + n <= width && c < pixelSize
    ensures SpanSum(rows, width, pixelSize, y, x0, n, c) <= 255 * n
  {
    if n > 0 {
      SpanSumBound(rows, width, pixelSize, y, x0, n - 1, c);
    }
  }

  lemma {:induction false} BoxSumBound(rows: seq<seq<byte>>, width: nat, pixelSize: nat, x0: nat, y0: nat, boxWidth: nat, n: nat, c: nat)
    requires Shaped(rows, width, pixelSize) && y0 + n <= |rows| && x0 + boxWidth <= width && c < pixelSize
    ensures BoxSum(rows, width, pixelSize, x0, y0, boxWidth, n, c) <= n * boxWidth * 255
  {
    if n > 0 {
      BoxSumBound(rows, width, pixelSize, x0, y0, boxWidth, n - 1, c);
      SpanSumBound(rows, width, pixelSize, y0 + n - 1, x0, boxWidth, c);
      PeelFactor(n, boxWidth, 255);
    }
  }

  /** Channel `c` of the average of the window at `(x0, y0)`: the window's
      sum divided by `box * box`, truncated. */
  function ChannelMean(rows: seq<seq<byte>>, width: nat, height: nat, pixelSize: nat, x0: nat, y0: nat, box: nat, c: nat): byte
    requires WellFormed(rows, width, height, pixelSize)
    requires box >= 1 && x0 + box <= width && y0 + box <= height && c < pixelSize
  {
    BoxSumBound(rows, width, pixelSize, x0, y0, box, box, c);
    assert box * box * 255 == 255 * (box * box);
    QuotientIsByte(BoxSum(rows, width, pixelSize, x0, y0, box, box, c), box * box);
    BoxSum(rows, width, pixelSize, x0, y0, box, box, c) / (box * box)
  }

  /** The average of the `box` by `box` window whose top-left pixel is
      `(x, y)`, shifted to fit; an error when the window is wider or taller
      than the image. */
  function AverageAt(rows: seq<seq<byte>>, width: nat, height: nat, pixelSize: nat, x: nat, y: nat, box: nat): (r: Result<seq<byte>>)
    requires WellFormed(rows, width, height, pixelSize) && box >= 1
    ensures r.Failure? <==> (box > width || box > height)
    ensures r.Failure? ==> r.error == (if box > width then BoxWiderThanImage else BoxTallerThanImage)
    ensures r.Success? ==> |r.value| == if pixelSize == 3 then 3 else 1
  {
    if box > width then Failure(BoxWiderThanImage)
    else if box > height then Failure(BoxTallerThanImage)
    else
      var x0 := ClampOrigin(x, box, width);
      var y0 := ClampOrigin(y, box, height);
      Success([ChannelMean(rows, width, height, pixelSize, x0, y0, box, 0)] +
              if pixelSize == 3 then
                [ChannelMean(rows, width, height, pixelSize, x0, y0, box, 1),
                 ChannelMean(rows, width, height, pixelSize, x0, y0, box, 2)]
              else [])
  }

  /** A window requested near the right or bottom edge averages the same
      pixels as the window requested at the shifted origin. */
  lemma AverageShiftPolicy(rows: seq<seq<byte>>, width: nat, height: nat, pixelSize: nat, x: nat, y: nat, box: nat)
    requires WellFormed(rows, width, height, pixelSize) && 1 <= box <= width && box <= height
    ensures AverageAt(rows, width, height, pixelSize, x, y, box) ==
            AverageAt(rows, width, height, pixelSize, ClampOrigin(x, box, width), ClampOrigin(y, box, height), box)
  {
    ClampOriginIdempotent(x, box, width);
    ClampOriginIdempotent(y, box, height);
  }

  lemma {:induction false} SpanSumUniform(rows: seq<seq<byte>>, width: nat, pixelSize: nat, colour: seq<byte>, y: nat, x0: nat, n: nat, c: nat)
    requires pixelSize >= 1 && Shaped(rows, width, pixelSize) && |colour| == pixelSize
    requires Uniform(rows, width, pixelSize, colour)
    requires y < |rows| && x0 + n <= width && c < pixelSize
    ensures SpanSum(rows, width, pixelSize, y, x0, n, c) == n * colour[c]
  {
    if n > 0 {
      SpanSumUniform(rows, width, pixelSize, colour, y, x0, n - 1, c);
      var p := PixelAt(rows, width, pixelSize, x0 + n - 1, y);
      assert p.value[c] == Sample(rows, width, pixelSize, x0 + n - 1, y, c);
      MulSucc(n - 1, colour[c]);
    }
  }

  lemma {:induction false} BoxSumUniform(rows: seq<seq<byte>>, width: nat, pixelSize: nat, colour: seq<byte>, x0: nat, y0: nat, boxWidth: nat, n: nat, c: nat)
    requires pixelSize >= 1 && Shaped(rows, width, pixelSize) && |colour| == pixelSize
    requires Uniform(rows, width, pixelSize, colour)
    requires y0 + n <= |rows| && x0 + boxWidth <= width && c < pixelSize
    ensures BoxSum(rows, width, pixelSize, x0, y0, boxWidth, n, c) == n * boxWidth * colour[c]
  {
    if n > 0 {
      BoxSumUniform(rows, width, pixelSize, colour, x0, y0, boxWidth, n - 1, c);
      SpanSumUniform(rows, width, pixelSize, colour, y0 + n - 1, x0, boxWidth, c);
      PeelFactor(n, boxWidth, colour[c]);
    }
  }

  /** Averaging an image of one colour gives that colour back, whatever the
      window; for a pixel size other than 3 only the first channel is
      averaged. */
  lemma AverageOfUniform(rows: seq<seq<byte>>, width: nat, height: nat, pixelSize: nat, colour: seq<byte>, x: nat, y: nat, box: nat)
    requires WellFormed(rows, width, height, pixelSize) && |colour| == pixelSize
    requires Uniform(rows, width, pixelSize, colour)
    requires 1 <= box <= width && box <= height
    ensures AverageAt(rows, width, height, pixelSize, x, y, box) == Success(if pixelSize == 3 then colour else colour[..1])
  {
    var x0 := ClampOrigin(x, box, width);
    var y0 := ClampOrigin(y, box, height);
    forall c | 0 <= c < pixelSize
      ensures ChannelMean(rows, width, height, pixelSize, x0, y0, box, c) == colour[c]
    {
      BoxSumUniform(rows, width, pixelSize, colour, x0, y0, box, box, c);
      MulDivCancel(box * box, colour[c]);
    }
    var r := AverageAt(rows, width, height, pixelSize, x, y, box);
    if pixelSize == 3 {
      assert r.value == colour;
    } else {
      assert r.value == colour[..1];
    }
  }

  lemma {:induction false} SpanSumLocal(rows: seq<seq<byte>>, other: seq<seq<byte>>, width: nat, pixelSize: nat, y: nat, x0: nat, n: nat, c: nat)
    requires Shaped(rows, width, pixelSize) && Shaped(other, width, pixelSize)
    requires y < |rows| && y < |other| && x0 + n <= width && c < pixelSize
    requires forall x :: x0 <= x < x0 + n ==> Sample(rows, width, pixelSize, x, y, c) == Sample(other, width, pixelSize, x, y, c)
    ensures SpanSum(rows, width, pixelSize, y, x0, n, c) == SpanSum(other, width, pixelSize, y, x0, n, c)
  {
    if n > 0 {
      SpanSumLocal(rows, other, width, pixelSize, y, x0, n - 1, c);
    }
  }

  lemma {:induction false} BoxSumLocal(rows: seq<seq<byte>>, other: seq<seq<byte>>, width: nat, pixelSize: nat, x0: nat, y0: nat, boxWidth: nat, n: nat, c: nat)
    requires Shaped(rows, width, pixelSize) && Shaped(other, width, pixelSize)
    requires y0 + n <= |rows| && y0 + n <= |other| && x0 + boxWidth <= width && c < pixelSize
    requires forall y, x :: y0 <= y < y0 + n && x0 <= x < x0 + boxWidth ==>
               Sample(rows, width, pixelSize, x, y, c) == Sample(other, width, pixelSize, x, y, c)
    ensures BoxSum(rows, width, pixelSize, x0, y0, boxWidth, n, c) == BoxSum(other, width, pixelSize, x0, y0, boxWidth, n, c)
  {
    if n > 0 {
      BoxSumLocal(rows, other, width, pixelSize, x0, y0, boxWidth, n - 1, c);
      SpanSumLocal(rows, other, width, pixelSize, y0 + n - 1, x0, boxWidth, c);
    }
  }

  /** The average reads only the pixels of the (shifted) window: two images
      of the same shape that agree there have the same average. */
  lemma AverageReadsOnlyWindow(rows: seq<seq<byte>>, other: seq<seq<byte>>, width: nat, height: nat, pixelSize: nat, x: nat, y: nat, box: nat)
    requires WellFormed(rows, width, height, pixelSize) && WellFormed(other, width, height, pixelSize)
    requires 1 <= box <= width && box <= height
    requires forall row, col, c ::
               ClampOrigin(y, box, height) <= row < ClampOrigin(y, box, height) + box &&
               ClampOrigin(x, box, width) <= col < ClampOrigin(x, box, width) + box && 0 <= c < pixelSize ==>
               Sample(rows, width, pixelSize, col, row, c) == Sample(other, width, pixelSize, col, row, c)
    ensures AverageAt(rows, width, height, pixelSize, x, y, box) == AverageAt(other, width, height, pixelSize, x, y, box)
  {
    var x0 := ClampOrigin(x, box, width);
    var y0 := ClampOrigin(y, box, height);
    forall c | 0 <= c < pixelSize
      ensures ChannelMean(rows, width, height, pixelSize, x0, y0, box, c) == ChannelMean(other, width, height, pixelSize, x0, y0, box, c)
    {
      BoxSumLocal(rows, other, width, pixelSize, x0, y0, box, box, c);
    }
  }
}
