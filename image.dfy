/** The decoded image object: a pixel buffer with its dimensions, the point
    and box queries on it, the shrink that replaces the buffer with a newly
    built one, and the two writers. The JPEG codec itself is outside the
    model: the constructor receives what the decoder delivered, and `Save`
    returns what it would hand to the encoder. */
module Jpeg {
  import opened Pixels
  import opened Arith
  import opened BoxAverage
  import opened Resample
  import opened Output

  class Image {
    /** The scanlines, top to bottom, each `width * pixelSize` samples. */
    var rows: seq<seq<byte>>
    var width: nat
    var height: nat
    var pixelSize: nat
    /** The decoder's output colour space, handed on to the encoder. */
    var colorSpace: int

    ghost predicate Valid()
      reads this
    {
      WellFormed(rows, width, height, pixelSize)
    }

    /** Loads the image the decoder delivered: its output dimensions and
        component count, and its scanlines read one at a time. */
    constructor (decodedWidth: nat, decodedHeight: nat, components: nat, outColorSpace: int, scanlines: seq<seq<byte>>)
      requires WellFormed(scanlines, decodedWidth, decodedHeight, components)
      ensures Valid()
      ensures rows == scanlines && width == decodedWidth && height == decodedHeight
      ensures pixelSize == components && colorSpace == outColorSpace
    {
      width := decodedWidth;
      height := decodedHeight;
      pixelSize := components;
      colorSpace := outColorSpace;
      var stride := decodedWidth * components;
      var loaded: seq<seq<byte>> := [];
      while |loaded| < decodedHeight
        invariant |loaded| <= decodedHeight
        invariant loaded == scanlines[..|loaded|]
      {
        var line := scanlines[|loaded|];
        assert |line| == stride;
        loaded := loaded + [line];
      }
      rows := loaded;
    }

    /** The number of scanlines. */
    function GetHeight(): (h: nat)
      reads this
      requires Valid()
      ensures h == height
      ensures h == |rows| && h >= 1
    {
      height
    }

    /** The number of pixels per scanline. */
    function GetWidth(): (w: nat)
      reads this
      requires Valid()
      ensures w == width
      ensures w >= 1 && |rows[0]| == w * pixelSize
    {
      width
    }

    /** The number of samples per pixel. */
    function GetPixelSize(): (p: nat)
      reads this
      requires Valid()
      ensures p == pixelSize
      ensures p >= 1 && |rows[0]| / p == width
    {
      RowWidth(rows, width, pixelSize);
      pixelSize
    }

    /** The samples of the pixel at column `x` of scanline `y`, copied one
        channel at a time, or the out-of-range error. */
    method GetPixel(x: nat, y: nat) returns (r: Result<seq<byte>>)
      requires Valid()
      ensures r == PixelAt(rows, width, pixelSize, x, y)
    {
      if y >= |rows| {
        return Failure(YTooLarge);
      }
      RowWidth(rows, width, pixelSize);
      if x >= |rows[0]| / pixelSize {
        return Failure(XTooLarge);
      }
      SampleInRow(x, 0, width, pixelSize);
      var vec: seq<byte> := [];
      var n := 0;
      while n < pixelSize
        invariant n <= pixelSize && |vec| == n
        invariant forall j :: 0 <= j < n ==> vec[j] == rows[y][x * pixelSize + j]
      {
        vec := vec + [rows[y][x * pixelSize + n]];
        n := n + 1;
      }
      r := Success(vec);
      assert r.value == PixelAt(rows, width, pixelSize, x, y).value;
    }

    /** The brightness of the pixel at `(x, y)`: the sample of a gray pixel,
        the weighted approximation for an RGB pixel, 0 for any other shape. */
    method GetLuminance(x: nat, y: nat) returns (r: Result<byte>)
      requires Valid()
      ensures r.Failure? <==> PixelAt(rows, width, pixelSize, x, y).Failure?
      ensures r.Failure? ==> r.error == PixelAt(rows, width, pixelSize, x, y).error
      ensures r.Success? ==> r.value == Luminance(PixelAt(rows, width, pixelSize, x, y).value)
      ensures r.Success? && pixelSize == 1 ==> r.value == rows[y][x]
      ensures r.Success? && pixelSize == 3 ==>
        r.value == (2 * (rows[y][3 * x] as int) + 3 * (rows[y][3 * x + 1] as int) + rows[y][3 * x + 2] as int) / 6
    {
      var vec := GetPixel(x, y);
      if vec.Failure? {
        return Failure(vec.error);
      }
      var p := vec.value;
      if |p| == 1 {
        r := Success(p[0]);
      } else if |p| == 3 {
        r := Success((p[0] as int * 2 + p[1] as int * 3 + p[2] as int) / 6);
      } else {
        r := Success(0);
      }
      assert x * pixelSize == pixelSize * x;
    }

    /** The average of the `boxSize` by `boxSize` window with top-left pixel
        `(x, y)`, shifted left/up to fit, computed by visiting every pixel
        of the window and keeping running totals per channel. */
    method GetAverage(x: nat, y: nat, boxSize: nat) returns (r: Result<seq<byte>>)
      requires Valid() && boxSize >= 1
      ensures r == AverageAt(rows, width, height, pixelSize, x, y, boxSize)
    {
      if boxSize > width {
        return Failure(BoxWiderThanImage);
      }
      if boxSize > height {
        return Failure(BoxTallerThanImage);
      }
      var x0 := if x + boxSize >= width then width - boxSize else x;
      var y0 := if y + boxSize >= height then height - boxSize else y;
      assert x0 == ClampOrigin(x, boxSize, width) && y0 == ClampOrigin(y, boxSize, height);
      var red, green, blue := WindowSums(x0, y0, boxSize);
      var area := boxSize * boxSize;
      assert red / area == ChannelMean(rows, width, height, pixelSize, x0, y0, boxSize, 0);
      var retVec: seq<byte> := [red / area];
      if pixelSize == 3 {
        assert green / area == ChannelMean(rows, width, height, pixelSize, x0, y0, boxSize, 1);
        assert blue / area == ChannelMean(rows, width, height, pixelSize, x0, y0, boxSize, 2);
        retVec := retVec + [green / area, blue / area];
      }
      r := Success(retVec);
      assert retVec == [ChannelMean(rows, width, height, pixelSize, x0, y0, boxSize, 0)] +
        if pixelSize == 3 then
          [ChannelMean(rows, width, height, pixelSize, x0, y0, boxSize, 1),
           ChannelMean(rows, width, height, pixelSize, x0, y0, boxSize, 2)]
        else [];
    }

    /** The running totals of the three channel sums over the window of
        `boxSize` by `boxSize` pixels at `(x0, y0)`, visited row by row
        through `GetPixel`; green and blue are only added for RGB pixels. */
    method WindowSums(x0: nat, y0: nat, boxSize: nat) returns (red: nat, green: nat, blue: nat)
      requires Valid() && x0 + boxSize <= width && y0 + boxSize <= height
      ensures red == BoxSum(rows, width, pixelSize, x0, y0, boxSize, boxSize, 0)
      ensures pixelSize == 3 ==> green == BoxSum(rows, width, pixelSize, x0, y0, boxSize, boxSize, 1)
      ensures pixelSize == 3 ==> blue == BoxSum(rows, width, pixelSize, x0, y0, boxSize, boxSize, 2)
    {
      red, green, blue := 0, 0, 0;
      var row := y0;
      while row < y0 + boxSize
        invariant y0 <= row <= y0 + boxSize
        invariant red == BoxSum(rows, width, pixelSize, x0, y0, boxSize, row - y0, 0)
        invariant pixelSize == 3 ==> green == BoxSum(rows, width, pixelSize, x0, y0, boxSize, row - y0, 1)
        invariant pixelSize == 3 ==> blue == BoxSum(rows, width, pixelSize, x0, y0, boxSize, row - y0, 2)
      {
        var r, g, b := SpanSums(x0, row, boxSize, red, green, blue);
        red, green, blue := r, g, b;
        row := row + 1;
      }
    }

    /** The inner loop of the window sums: the `boxSize` pixels of scanline
        `row` from column `x0` added to the running totals. */
    method SpanSums(x0: nat, row: nat, boxSize: nat, red0: nat, green0: nat, blue0: nat) returns (red: nat, green: nat, blue: nat)
      requires Valid() && x0 + boxSize <= width && row < height
      ensures red == red0 + SpanSum(rows, width, pixelSize, row, x0, boxSize, 0)
      ensures pixelSize == 3 ==> green == green0 + SpanSum(rows, width, pixelSize, row, x0, boxSize, 1)
      ensures pixelSize == 3 ==> blue == blue0 + SpanSum(rows, width, pixelSize, row, x0, boxSize, 2)
    {
      red, green, blue := red0, green0, blue0;
      var col := x0;
      while col < x0 + boxSize
        invariant x0 <= col <= x0 + boxSize
        invariant red == red0 + SpanSum(rows, width, pixelSize, row, x0, col - x0, 0)
        invariant pixelSize == 3 ==> green == green0 + SpanSum(rows, width, pixelSize, row, x0, col - x0, 1)
        invariant pixelSize == 3 ==> blue == blue0 + SpanSum(rows, width, pixelSize, row, x0, col - x0, 2)
      {
        var vec := GetPixel(col, row);
        var p := vec.value;
        assert p[0] == Sample(rows, width, pixelSize, col, row, 0);
        red := red + p[0];
        if |p| == 3 {
          assert p[1] == Sample(rows, width, pixelSize, col, row, 1);
          assert p[2] == Sample(rows, width, pixelSize, col, row, 2);
          green := green + p[1];
          blue := blue + p[2];
        }
        col := col + 1;
      }
    }

    /** What the JPEG writer hands to the encoder: the dimensions, the
        component count, the decoder's colour space, the clamped quality
        and every scanline in order. Without an argument the quality
        requested is 95. */
    method Save(quality: int := 95) returns (job: CompressJob)
      requires Valid()
      ensures job.imageWidth == width && job.imageHeight == height
      ensures job.inputComponents == pixelSize && job.colorSpace == colorSpace
      ensures job.quality == EffectiveQuality(quality)
      ensures job.scanlines == rows
    {
      var q := quality;
      if q < 0 {
        q := 0;
      }
      if q > 100 {
        q := 100;
      }
      var written: seq<seq<byte>> := [];
      for i := 0 to |rows|
        invariant written == rows[..i]
      {
        written := written + [rows[i]];
      }
      assert written == rows;
      job := CompressJob(width, height, pixelSize, colorSpace, q, written);
    }

    /** The bytes the PPM writer emits: the text header, then every
        scanline's samples written out as they are. */
    method SavePpm() returns (bytes: seq<byte>)
      requires Valid()
      ensures bytes == PpmBytes(width, height, rows)
      ensures ParsePpm(bytes, pixelSize) == Some(PpmImage(width, height, rows))
    {
      bytes := PpmHeader(width, height);
      for i := 0 to |rows|
        invariant bytes == PpmHeader(width, height) + Concat(rows[..i])
      {
        ConcatSnoc(rows[..i], rows[i]);
        assert rows[..i + 1] == rows[..i] + [rows[i]];
        bytes := bytes + rows[i];
      }
      assert rows[..|rows|] == rows;
      PpmRoundTrip(rows, width, height, pixelSize);
    }

    /** Shrinks to `newWidth` pixels per scanline, the height scaled by the
        same factor, in one pass over the scanlines with the column map `m`
        and the row test `rm`. Every source scanline is folded into running
        totals and counts, and a destination scanline of truncated means is
        emitted, and the accumulators cleared, whenever the scaled row index
        moves past the last one recorded. A target width that is not
        smaller leaves the image as it is. */
    method ShrinkBy(m: ColumnMap, rm: RowMap, newWidth: nat)
      requires Valid()
      requires newWidth < width ==> Shrinkable(rm, newWidth, width, height)
      modifies this
      ensures Valid()
      ensures pixelSize == old(pixelSize) && colorSpace == old(colorSpace)
      ensures newWidth >= old(width) ==> rows == old(rows) && width == old(width) && height == old(height)
      ensures newWidth < old(width) ==>
        rows == ShrunkRows(m, rm, old(rows), newWidth, old(width), pixelSize) &&
        width == newWidth && height == Band(rm, newWidth, old(width), old(height))
    {
      if newWidth >= width {
        return;
      }
      var out := ShrinkPass(m, rm, rows, newWidth, width, pixelSize);
      ShrunkWidth(out, newWidth, pixelSize);
      rows := out;
      height := |out|;
      width := |out[0]| / pixelSize;
    }

    /** The shrink as `Image::shrink` writes it: the sample-level column map and
        the row test made before the row's successor is considered. The
        result is `scaleFactor * (height - 1)` rows high. */
    method Shrink(newWidth: nat)
      requires Valid()
      requires newWidth < width ==> Shrinkable(LaggingRows, newWidth, width, height)
      modifies this
      ensures Valid()
      ensures pixelSize == old(pixelSize) && colorSpace == old(colorSpace)
      ensures newWidth >= old(width) ==> rows == old(rows) && width == old(width) && height == old(height)
      ensures newWidth < old(width) ==>
        rows == ShrunkRows(SampleColumns, LaggingRows, old(rows), newWidth, old(width), pixelSize) &&
        width == newWidth && height == Scaled(newWidth, old(width), old(height) - 1)
    {
      ShrinkBy(SampleColumns, LaggingRows, newWidth);
    }

    /** The shrink with both corrections: channels kept apart and source row
        `r` averaged into destination row `scaleFactor * r`. The result is
        `scaleFactor * height` rows high. */
    method ShrinkAligned(newWidth: nat)
      requires Valid()
      requires newWidth < width ==> Shrinkable(AlignedRows, newWidth, width, height)
      modifies this
      ensures Valid()
      ensures pixelSize == old(pixelSize) && colorSpace == old(colorSpace)
      ensures newWidth >= old(width) ==> rows == old(rows) && width == old(width) && height == old(height)
      ensures newWidth < old(width) ==>
        rows == ShrunkRows(PixelColumns, AlignedRows, old(rows), newWidth, old(width), pixelSize) &&
        width == newWidth && height == Scaled(newWidth, old(width), old(height))
    {
      ShrinkBy(PixelColumns, AlignedRows, newWidth);
    }
  }

  /** The pass itself over the scanlines `source`: the running totals and
      counts are fresh arrays of `newWidth * pixelSize` slots. */
  method ShrinkPass(m: ColumnMap, rm: RowMap, source: seq<seq<byte>>, newWidth: nat, width: nat, pixelSize: nat)
    returns (out: seq<seq<byte>>)
    requires 1 <= newWidth < width && pixelSize >= 1 && Shaped(source, width, pixelSize) && |source| >= 1
    ensures out == ShrunkRows(m, rm, source, newWidth, width, pixelSize)
  {
    var slots := newWidth * pixelSize;
    var totals := new nat[slots](_ => 0);
    var counts := new nat[slots](_ => 0);
    out := [];
    var oldRow: nat := 0;
    BandNotStarted(m, rm, source, newWidth, width, pixelSize, 0, 0, 0);
    for row := 0 to |source|
      invariant oldRow == Band(rm, newWidth, width, row) && |out| == oldRow
      invariant Emitted(m, rm, source, newWidth, width, pixelSize, row, out)
      invariant Accumulated(m, rm, source, newWidth, width, pixelSize, row, oldRow, totals[..], counts[..])
    {
      out, oldRow := FoldRow(m, rm, source, newWidth, width, pixelSize, row, totals, counts, out, oldRow);
    }
    ShrinkComplete(m, rm, source, newWidth, width, pixelSize, out);
  }

  /** A shrunk image with at least one row is `newWidth` pixels wide. */
  lemma ShrunkWidth(out: seq<seq<byte>>, newWidth: nat, pixelSize: nat)
    requires pixelSize >= 1 && |out| >= 1 && Shaped(out, newWidth, pixelSize)
    ensures |out[0]| / pixelSize == newWidth
  {
    MulDivCancel(pixelSize, newWidth);
    assert pixelSize * newWidth == newWidth * pixelSize;
  }

  /** Folds one source scanline into the accumulators: sample column `col`
      is added to slot `Destination(m, ..., col)` and counted there. */
  method AddScanline(m: ColumnMap, line: seq<byte>, newWidth: nat, width: nat, pixelSize: nat,
                     totals: array<nat>, counts: array<nat>)
    requires 1 <= newWidth < width && pixelSize >= 1 && |line| == width * pixelSize
    requires totals.Length == newWidth * pixelSize && counts.Length == newWidth * pixelSize && totals != counts
    modifies totals, counts
    ensures forall i :: 0 <= i < totals.Length ==>
      totals[i] == old(totals[i]) + RowTotal(m, line, newWidth, width, pixelSize, width * pixelSize, i)
    ensures forall i :: 0 <= i < counts.Length ==>
      counts[i] == old(counts[i]) + RowCount(m, newWidth, width, pixelSize, width * pixelSize, i)
  {
    for col := 0 to width * pixelSize
      invariant forall i :: 0 <= i < totals.Length ==>
        totals[i] == old(totals[i]) + RowTotal(m, line, newWidth, width, pixelSize, col, i)
      invariant forall i :: 0 <= i < counts.Length ==>
        counts[i] == old(counts[i]) + RowCount(m, newWidth, width, pixelSize, col, i)
    {
      var idx := if m == SampleColumns then newWidth * col / width
                 else (newWidth * (col / pixelSize) / width) * pixelSize + col % pixelSize;
      assert idx == Destination(m, newWidth, width, pixelSize, col);
      totals[idx] := totals[idx] + line[col];
      counts[idx] := counts[idx] + 1;
    }
  }

  /** Emits one destination scanline, the truncated mean of every slot,
      and clears the accumulators. */
  method EmitLine(totals: array<nat>, counts: array<nat>) returns (line: seq<byte>)
    requires totals.Length == counts.Length && totals != counts
    requires forall i :: 0 <= i < counts.Length ==> counts[i] >= 1 && totals[i] <= 255 * counts[i]
    modifies totals, counts
    ensures |line| == totals.Length
    ensures forall i :: 0 <= i < |line| ==> line[i] == old(totals[i]) / old(counts[i])
    ensures forall i :: 0 <= i < totals.Length ==> totals[i] == 0 && counts[i] == 0
  {
    line := [];
    for i := 0 to totals.Length
      invariant |line| == i
      invariant forall j :: 0 <= j < i ==> line[j] == old(totals[j]) / old(counts[j])
      invariant forall j :: 0 <= j < i ==> totals[j] == 0 && counts[j] == 0
      invariant forall j :: i <= j < totals.Length ==> totals[j] == old(totals[j]) && counts[j] == old(counts[j])
    {
      QuotientIsByte(totals[i], counts[i]);
      line := line + [totals[i] / counts[i]];
      totals[i] := 0;
      counts[i] := 0;
    }
  }

  /** The destination scanlines emitted after folding in `n` source rows:
      each is the truncated mean, per slot, of its band so far. */
  ghost predicate Emitted(m: ColumnMap, rm: RowMap, rows: seq<seq<byte>>, newWidth: nat, width: nat, pixelSize: nat, n: nat, out: seq<seq<byte>>)
    requires 1 <= newWidth < width && pixelSize >= 1 && Shaped(rows, width, pixelSize) && n <= |rows|
  {
    (forall k :: 0 <= k < |out| ==> |out[k]| == newWidth * pixelSize && BandSize(rm, newWidth, width, n, k) >= 1) &&
    forall k, i :: 0 <= k < |out| && 0 <= i < newWidth * pixelSize ==>
      out[k][i] == BandMean(m, rm, rows, newWidth, width, pixelSize, n, k, i)
  }

  /** The running totals and counts after folding in `n` source rows hold
      band `k`'s sums and sample counts. */
  ghost predicate Accumulated(m: ColumnMap, rm: RowMap, rows: seq<seq<byte>>, newWidth: nat, width: nat, pixelSize: nat, n: nat, k: nat,
                              totals: seq<nat>, counts: seq<nat>)
    requires 1 <= newWidth < width && pixelSize >= 1 && Shaped(rows, width, pixelSize) && n <= |rows|
  {
    |totals| == newWidth * pixelSize && |counts| == newWidth * pixelSize &&
    forall i :: 0 <= i < newWidth * pixelSize ==>
      totals[i] == BandTotal(m, rm, rows, newWidth, width, pixelSize, n, k, i) &&
      counts[i] == BandSize(rm, newWidth, width, n, k) * RowCount(m, newWidth, width, pixelSize, width * pixelSize, i)
  }

  /** Folding in a row of another band leaves band `k` as it is. */
  lemma BandUnchanged(m: ColumnMap, rm: RowMap, rows: seq<seq<byte>>, newWidth: nat, width: nat, pixelSize: nat, n: nat, k: nat, i: nat)
    requires 1 <= newWidth < width && pixelSize >= 1 && Shaped(rows, width, pixelSize) && n < |rows|
    requires Band(rm, newWidth, width, n) != k && i < newWidth * pixelSize && BandSize(rm, newWidth, width, n, k) >= 1
    ensures BandSize(rm, newWidth, width, n + 1, k) == BandSize(rm, newWidth, width, n, k)
    ensures BandMean(m, rm, rows, newWidth, width, pixelSize, n + 1, k, i) == BandMean(m, rm, rows, newWidth, width, pixelSize, n, k, i)
  {
    assert BandTotal(m, rm, rows, newWidth, width, pixelSize, n + 1, k, i) == BandTotal(m, rm, rows, newWidth, width, pixelSize, n, k, i);
  }

  /** Rows folded in after a band's last row leave its emitted scanline as
      it is. */
  lemma EmittedStable(m: ColumnMap, rm: RowMap, rows: seq<seq<byte>>, newWidth: nat, width: nat, pixelSize: nat, n: nat, out: seq<seq<byte>>)
    requires 1 <= newWidth < width && pixelSize >= 1 && Shaped(rows, width, pixelSize) && n < |rows|
    requires Emitted(m, rm, rows, newWidth, width, pixelSize, n, out) && |out| <= Band(rm, newWidth, width, n)
    ensures Emitted(m, rm, rows, newWidth, width, pixelSize, n + 1, out)
  {
    var next := n + 1;
    forall k | 0 <= k < |out|
      ensures BandSize(rm, newWidth, width, next, k) >= 1
    {
      BandUnchanged(m, rm, rows, newWidth, width, pixelSize, n, k, 0);
    }
    forall k, i | 0 <= k < |out| && 0 <= i < newWidth * pixelSize
      ensures out[k][i] == BandMean(m, rm, rows, newWidth, width, pixelSize, next, k, i)
    {
      BandUnchanged(m, rm, rows, newWidth, width, pixelSize, n, k, i);
    }
  }

  /** One step of the pass: fold source row `row` into the accumulators,
      then, when the scaled row index has moved on, emit the band's means
      and clear the accumulators. */
  method FoldRow(m: ColumnMap, rm: RowMap, source: seq<seq<byte>>, newWidth: nat, width: nat, pixelSize: nat, row: nat,
                 totals: array<nat>, counts: array<nat>, out: seq<seq<byte>>, oldRow: nat)
    returns (out': seq<seq<byte>>, oldRow': nat)
    requires 1 <= newWidth < width && pixelSize >= 1 && Shaped(source, width, pixelSize) && row < |source|
    requires totals != counts && totals.Length == newWidth * pixelSize && counts.Length == newWidth * pixelSize
    requires oldRow == Band(rm, newWidth, width, row) && |out| == oldRow
    requires Emitted(m, rm, source, newWidth, width, pixelSize, row, out)
    requires Accumulated(m, rm, source, newWidth, width, pixelSize, row, oldRow, totals[..], counts[..])
    modifies totals, counts
    ensures oldRow' == Band(rm, newWidth, width, row + 1) && |out'| == oldRow'
    ensures Emitted(m, rm, source, newWidth, width, pixelSize, row + 1, out')
    ensures Accumulated(m, rm, source, newWidth, width, pixelSize, row + 1, oldRow', totals[..], counts[..])
  {
    AddScanline(m, source[row], newWidth, width, pixelSize, totals, counts);
    BandFolded(m, rm, source, newWidth, width, pixelSize, row, oldRow);
    assert Accumulated(m, rm, source, newWidth, width, pixelSize, row + 1, oldRow, totals[..], counts[..]);
    EmittedStable(m, rm, source, newWidth, width, pixelSize, row, out);
    BandAdvances(rm, newWidth, width, row);
    var scaled := if rm == LaggingRows then newWidth * row / width else newWidth * (row + 1) / width;
    assert scaled == Scaled(newWidth, width, TestedRow(rm, row));
    if scaled > oldRow {
      EmitFed(m, rm, source, newWidth, width, pixelSize, row, oldRow);
      ghost var before := totals[..];
      ghost var beforeCounts := counts[..];
      var line := EmitLine(totals, counts);
      assert forall i :: 0 <= i < |line| ==> line[i] == before[i] / beforeCounts[i];
      out' := out + [line];
      oldRow' := scaled;
      ghost var next := row + 1;
      BandNotStarted(m, rm, source, newWidth, width, pixelSize, next, oldRow', 0);
      forall i | 0 <= i < newWidth * pixelSize
        ensures BandTotal(m, rm, source, newWidth, width, pixelSize, next, oldRow', i) == 0
      {
        BandNotStarted(m, rm, source, newWidth, width, pixelSize, next, oldRow', i);
      }
    } else {
      out', oldRow' := out, oldRow;
    }
  }

  /** When band `k` is emitted after row `r`, it holds at least one row,
      every slot has been fed, and every total fits the byte mean. */
  lemma EmitFed(m: ColumnMap, rm: RowMap, rows: seq<seq<byte>>, newWidth: nat, width: nat, pixelSize: nat, r: nat, k: nat)
    requires 1 <= newWidth < width && pixelSize >= 1 && Shaped(rows, width, pixelSize) && r < |rows|
    requires Band(rm, newWidth, width, r) == k
    ensures BandSize(rm, newWidth, width, r + 1, k) >= 1
    ensures forall i :: 0 <= i < newWidth * pixelSize ==>
      var c := BandSize(rm, newWidth, width, r + 1, k) * RowCount(m, newWidth, width, pixelSize, width * pixelSize, i);
      c >= 1 && BandTotal(m, rm, rows, newWidth, width, pixelSize, r + 1, k, i) <= 255 * c
  {
    BandSizePositive(rm, newWidth, width, r + 1, k, r);
    forall i | 0 <= i < newWidth * pixelSize
      ensures var c := BandSize(rm, newWidth, width, r + 1, k) * RowCount(m, newWidth, width, pixelSize, width * pixelSize, i);
        c >= 1 && BandTotal(m, rm, rows, newWidth, width, pixelSize, r + 1, k, i) <= 255 * c
    {
      EverySlotFed(m, newWidth, width, pixelSize, i);
      BandTotalBound(m, rm, rows, newWidth, width, pixelSize, r + 1, k, i);
      MeanBounds(BandTotal(m, rm, rows, newWidth, width, pixelSize, r + 1, k, i), BandSize(rm, newWidth, width, r + 1, k),
                 RowCount(m, newWidth, width, pixelSize, width * pixelSize, i));
    }
  }

  /** After the last source row, the emitted scanlines are the shrunk image. */
  lemma ShrinkComplete(m: ColumnMap, rm: RowMap, rows: seq<seq<byte>>, newWidth: nat, width: nat, pixelSize: nat, out: seq<seq<byte>>)
    requires 1 <= newWidth < width && pixelSize >= 1 && Shaped(rows, width, pixelSize) && |rows| >= 1
    requires Emitted(m, rm, rows, newWidth, width, pixelSize, |rows|, out)
    requires |out| == Band(rm, newWidth, width, |rows|)
    ensures out == ShrunkRows(m, rm, rows, newWidth, width, pixelSize)
  {
    var shrunk := ShrunkRows(m, rm, rows, newWidth, width, pixelSize);
    forall k | 0 <= k < |out|
      ensures out[k] == shrunk[k]
    {
      forall i | 0 <= i < newWidth * pixelSize
        ensures out[k][i] == shrunk[k][i]
      {
      }
    }
  }
}
