/** The single-pass proportional downscale behind `Image::shrink`, stated
    as what it produces: destination row `k`, sample `i` is the truncated
    mean of every source sample that the pass folds into that slot.

    The scale factor `newWidth / width` is taken as an exact rational, so
    `scaleFactor * k` truncated is `(newWidth * k) / width`. */
module Resample {
  import opened Pixels
  import opened Arith

  /** `scaleFactor * k`, truncated toward zero. */
  function Scaled(newWidth: nat, width: nat, k: nat): (s: nat)
    requires width >= 1
    ensures s * width <= newWidth * k < s * width + width
  {
    newWidth * k / width
  }

  lemma ScaledMonotone(newWidth: nat, width: nat, a: nat, b: nat)
    requires width >= 1 && a <= b
    ensures Scaled(newWidth, width, a) <= Scaled(newWidth, width, b)
  {
    MulMonotone(newWidth, a, b);
    DivMonotone(newWidth * a, newWidth * b, width);
  }

  /** With a factor below one, the scaled index grows by at most one per
      step. */
  lemma ScaledStep(newWidth: nat, width: nat, k: nat)
    requires newWidth < width
    ensures Scaled(newWidth, width, k) <= Scaled(newWidth, width, k + 1) <= Scaled(newWidth, width, k) + 1
  {
    ScaledMonotone(newWidth, width, k, k + 1);
    assert newWidth * (k + 1) == newWidth * k + newWidth;
    DivStep(newWidth * k, newWidth, width);
  }

  /** Below `n * width` the scaled index stays below `n * newWidth`. */
  lemma ScaledBelow(newWidth: nat, width: nat, n: nat, k: nat)
    requires 1 <= newWidth && width >= 1 && k < n * width
    ensures Scaled(newWidth, width, k) < n * newWidth
  {
    assert newWidth * k < newWidth * (n * width) by {
      MulMonotone(newWidth, k + 1, n * width);
    }
    assert newWidth * (n * width) == (n * newWidth) * width;
    DivBelow(newWidth * k, n * newWidth, width);
  }

  /** The last of `n * width` indices scales to the last of `n * newWidth`. */
  lemma ScaledLast(newWidth: nat, width: nat, n: nat)
    requires 1 <= newWidth < width && n >= 1
    ensures Scaled(newWidth, width, n * width - 1) == n * newWidth - 1
  {
    assert newWidth * (n * width - 1) == (n * newWidth - 1) * width + (width - newWidth);
    DivExact(n * newWidth - 1, width - newWidth, width);
  }

  /** Every index up to the scaled value of `n - 1` is the scaled value of
      some index below `n`. */
  lemma {:induction false} ScaledReaches(newWidth: nat, width: nat, n: nat, k: nat) returns (j: nat)
    requires newWidth < width && n >= 1 && k <= Scaled(newWidth, width, n - 1)
    ensures j < n && Scaled(newWidth, width, j) == k
  {
    if Scaled(newWidth, width, n - 1) == k {
      j := n - 1;
    } else {
      ScaledStep(newWidth, width, n - 2);
      j := ScaledReaches(newWidth, width, n - 1, k);
    }
  }

  /** How a source sample column is folded into a destination slot.
      `SampleColumns` is the code's map, which scales the sample index
      itself; `PixelColumns` scales the pixel index and keeps the channel. */
  datatype ColumnMap = SampleColumns | PixelColumns

  /** The accumulator slot that source sample column `col` is added to. */
  function Destination(m: ColumnMap, newWidth: nat, width: nat, pixelSize: nat, col: nat): (i: nat)
    requires 1 <= newWidth < width && pixelSize >= 1 && col < width * pixelSize
    ensures i < newWidth * pixelSize
  {
    match m
    case SampleColumns =>
      SampleSlotBelow(newWidth, width, pixelSize, col);
      Scaled(newWidth, width, col)
    case PixelColumns =>
      PixelSlotBelow(newWidth, width, pixelSize, col);
      Scaled(newWidth, width, col / pixelSize) * pixelSize + col % pixelSize
  }

  lemma SampleSlotBelow(newWidth: nat, width: nat, pixelSize: nat, col: nat)
    requires 1 <= newWidth < width && pixelSize >= 1 && col < width * pixelSize
    ensures Scaled(newWidth, width, col) < newWidth * pixelSize
  {
    assert col < pixelSize * width;
    ScaledBelow(newWidth, width, pixelSize, col);
    assert pixelSize * newWidth == newWidth * pixelSize;
  }

  lemma PixelSlotBelow(newWidth: nat, width: nat, pixelSize: nat, col: nat)
    requires 1 <= newWidth < width && pixelSize >= 1 && col < width * pixelSize
    ensures Scaled(newWidth, width, col / pixelSize) * pixelSize + col % pixelSize < newWidth * pixelSize
  {
    var p, c := col / pixelSize, col % pixelSize;
    DivBelow(col, width, pixelSize);
    assert p < 1 * width;
    ScaledBelow(newWidth, width, 1, p);
    SampleInRow(Scaled(newWidth, width, p), c, newWidth, pixelSize);
  }

  /** Sum of the first `n` samples of `row` that land in slot `i`. */
  function RowTotal(m: ColumnMap, row: seq<byte>, newWidth: nat, width: nat, pixelSize: nat, n: nat, i: nat): nat
    requires 1 <= newWidth < width && pixelSize >= 1 && n <= width * pixelSize && n <= |row|
  {
    if n == 0 then 0
    else RowTotal(m, row, newWidth, width, pixelSize, n - 1, i) +
         if Destination(m, newWidth, width, pixelSize, n - 1) == i then row[n - 1] else 0
  }

  /** How many of the first `n` sample columns land in slot `i`. */
  function RowCount(m: ColumnMap, newWidth: nat, width: nat, pixelSize: nat, n: nat, i: nat): nat
    requires 1 <= newWidth < width && pixelSize >= 1 && n <= width * pixelSize
  {
    if n == 0 then 0
    else RowCount(m, newWidth, width, pixelSize, n - 1, i) +
         if Destination(m, newWidth, width, pixelSize, n - 1) == i then 1 else 0
  }

  /** When a destination row is emitted. `LaggingRows` is the code's
      test, made after source row `r` has been folded in: emit when
      `scaleFactor * r` exceeds the last recorded row index.
      `AlignedRows` makes the same test with `scaleFactor * (r + 1)`, so
      that source row `r` ends up in destination row `scaleFactor * r`. */
  datatype RowMap = LaggingRows | AlignedRows

  /** The source row index that the emission test after row `r` scales. */
  function TestedRow(rm: RowMap, r: nat): nat {
    match rm
    case LaggingRows => r
    case AlignedRows => r + 1
  }

  /** The destination row that source row `r` is folded into: the number of
      rows emitted before it, which is the index the test recorded after
      the row above (0 for the first row). */
  function Band(rm: RowMap, newWidth: nat, width: nat, r: nat): nat
    requires width >= 1
  {
    if r == 0 then 0 else Scaled(newWidth, width, TestedRow(rm, r - 1))
  }

  /** A destination row is emitted after source row `r` exactly when the
      scaled row index exceeds the last recorded one. */
  predicate Emits(rm: RowMap, newWidth: nat, width: nat, r: nat)
    requires width >= 1
  {
    Scaled(newWidth, width, TestedRow(rm, r)) > Band(rm, newWidth, width, r)
  }

  /** Sum over the first `n` source rows of band `k` of what lands in slot `i`. */
  function BandTotal(m: ColumnMap, rm: RowMap, rows: seq<seq<byte>>, newWidth: nat, width: nat, pixelSize: nat, n: nat, k: nat, i: nat): nat
    requires 1 <= newWidth < width && pixelSize >= 1 && Shaped(rows, width, pixelSize) && n <= |rows|
  {
    if n == 0 then 0
    else BandTotal(m, rm, rows, newWidth, width, pixelSize, n - 1, k, i) +
         if Band(rm, newWidth, width, n - 1) == k then RowTotal(m, rows[n - 1], newWidth, width, pixelSize, width * pixelSize, i) else 0
  }

  /** How many of the first `n` source rows fall in band `k`. */
  function BandSize(rm: RowMap, newWidth: nat, width: nat, n: nat, k: nat): nat
    requires width >= 1
  {
    if n == 0 then 0
    else BandSize(rm, newWidth, width, n - 1, k) + if Band(rm, newWidth, width, n - 1) == k then 1 else 0
  }

  /** The preconditions the pass needs when it does not return early: a
      nonzero target width (otherwise the accumulators are empty) and at
      least one emitted row (otherwise the new width is read from a missing
      first row). */
  predicate Shrinkable(rm: RowMap, newWidth: nat, width: nat, height: nat) {
    1 <= newWidth < width && height >= 1 && Band(rm, newWidth, width, height) >= 1
  }

  /** The band index grows by one exactly after an emission. */
  lemma BandAdvances(rm: RowMap, newWidth: nat, width: nat, r: nat)
    requires newWidth < width
    ensures Band(rm, newWidth, width, r + 1) == Band(rm, newWidth, width, r) + if Emits(rm, newWidth, width, r) then 1 else 0
  {
    if r > 0 {
      ScaledStep(newWidth, width, TestedRow(rm, r - 1));
    } else {
      ScaledStep(newWidth, width, 0);
    }
  }

  /** The number of rows emitted while folding in the first `n` source rows. */
  function Emissions(rm: RowMap, newWidth: nat, width: nat, n: nat): nat
    requires width >= 1
  {
    if n == 0 then 0 else Emissions(rm, newWidth, width, n - 1) + if Emits(rm, newWidth, width, n - 1) then 1 else 0
  }

  /** After `n` source rows the pass has emitted `Band(n)` rows, so the whole
      image yields `Scaled(height - 1)` of them. */
  lemma {:induction false} EmissionCount(rm: RowMap, newWidth: nat, width: nat, n: nat)
    requires newWidth < width
    ensures Emissions(rm, newWidth, width, n) == Band(rm, newWidth, width, n)
  {
    if n > 0 {
      EmissionCount(rm, newWidth, width, n - 1);
      BandAdvances(rm, newWidth, width, n - 1);
    }
  }

  lemma {:induction false} BandMonotone(rm: RowMap, newWidth: nat, width: nat, a: nat, b: nat)
    requires width >= 1 && a <= b
    ensures Band(rm, newWidth, width, a) <= Band(rm, newWidth, width, b)
  {
    if a > 0 {
      ScaledMonotone(newWidth, width, TestedRow(rm, a - 1), TestedRow(rm, b - 1));
    }
  }

  lemma {:induction false} RowCountPositive(m: ColumnMap, newWidth: nat, width: nat, pixelSize: nat, n: nat, i: nat, col: nat)
    requires 1 <= newWidth < width && pixelSize >= 1 && n <= width * pixelSize
    requires col < n && Destination(m, newWidth, width, pixelSize, col) == i
    ensures RowCount(m, newWidth, width, pixelSize, n, i) >= 1
  {
    if col < n - 1 {
      RowCountPositive(m, newWidth, width, pixelSize, n - 1, i, col);
    }
  }

  /** Under the sample-level map, some column of a full scanline lands in
      slot `i`. */
  lemma SampleSlotFed(newWidth: nat, width: nat, pixelSize: nat, i: nat)
    requires 1 <= newWidth < width && pixelSize >= 1 && i < newWidth * pixelSize
    ensures RowCount(SampleColumns, newWidth, width, pixelSize, width * pixelSize, i) >= 1
  {
    ScaledLast(newWidth, width, pixelSize);
    assert pixelSize * width == width * pixelSize;
    assert pixelSize * newWidth == newWidth * pixelSize;
    var col := ScaledReaches(newWidth, width, width * pixelSize, i);
    RowCountPositive(SampleColumns, newWidth, width, pixelSize, width * pixelSize, i, col);
  }

  /** Channel `c` of source pixel `p` lands in channel `c` of the scaled pixel. */
  lemma PixelLandsAt(newWidth: nat, width: nat, pixelSize: nat, p: nat, c: nat)
    requires 1 <= newWidth < width && c < pixelSize && p < width
    ensures p * pixelSize + c < width * pixelSize
    ensures Destination(PixelColumns, newWidth, width, pixelSize, p * pixelSize + c) ==
            Scaled(newWidth, width, p) * pixelSize + c
  {
    SampleInRow(p, c, width, pixelSize);
    DivExact(p, c, pixelSize);
  }

  /** Slot `i` is channel `c` of destination pixel `q`. */
  lemma SlotSplit(newWidth: nat, pixelSize: nat, i: nat) returns (q: nat, c: nat)
    requires pixelSize >= 1 && i < newWidth * pixelSize
    ensures q < newWidth && c < pixelSize && i == q * pixelSize + c
  {
    q, c := i / pixelSize, i % pixelSize;
    Decompose(i, pixelSize);
    DivBelow(i, newWidth, pixelSize);
  }

  /** Every destination pixel is the scaled index of some source pixel. */
  lemma PixelReaches(newWidth: nat, width: nat, q: nat) returns (p: nat)
    requires 1 <= newWidth < width && q < newWidth
    ensures p < width && Scaled(newWidth, width, p) == q
  {
    ScaledLast(newWidth, width, 1);
    assert Scaled(newWidth, width, width - 1) == newWidth - 1;
    p := ScaledReaches(newWidth, width, width, q);
  }

  /** Under the pixel-level map, channel `i % pixelSize` of some source pixel
      lands in slot `i`. */
  lemma PixelSlotSource(newWidth: nat, width: nat, pixelSize: nat, i: nat) returns (col: nat)
    requires 1 <= newWidth < width && pixelSize >= 1 && i < newWidth * pixelSize
    ensures col < width * pixelSize && Destination(PixelColumns, newWidth, width, pixelSize, col) == i
  {
    var q, c := SlotSplit(newWidth, pixelSize, i);
    var p := PixelReaches(newWidth, width, q);
    PixelLandsAt(newWidth, width, pixelSize, p, c);
    col := p * pixelSize + c;
  }

  lemma PixelSlotFed(newWidth: nat, width: nat, pixelSize: nat, i: nat)
    requires 1 <= newWidth < width && pixelSize >= 1 && i < newWidth * pixelSize
    ensures RowCount(PixelColumns, newWidth, width, pixelSize, width * pixelSize, i) >= 1
  {
    var col := PixelSlotSource(newWidth, width, pixelSize, i);
    RowCountPositive(PixelColumns, newWidth, width, pixelSize, width * pixelSize, i, col);
  }

  /** Every slot receives at least one sample of every source row, so the
      division of the emitted mean is never by zero. */
  lemma EverySlotFed(m: ColumnMap, newWidth: nat, width: nat, pixelSize: nat, i: nat)
    requires 1 <= newWidth < width && pixelSize >= 1 && i < newWidth * pixelSize
    ensures RowCount(m, newWidth, width, pixelSize, width * pixelSize, i) >= 1
  {
    if m == SampleColumns {
      SampleSlotFed(newWidth, width, pixelSize, i);
    } else {
      PixelSlotFed(newWidth, width, pixelSize, i);
    }
  }

  lemma {:induction false} BandSizePositive(rm: RowMap, newWidth: nat, width: nat, n: nat, k: nat, r: nat)
    requires width >= 1 && r < n && Band(rm, newWidth, width, r) == k
    ensures BandSize(rm, newWidth, width, n, k) >= 1
  {
    if r < n - 1 {
      BandSizePositive(rm, newWidth, width, n - 1, k, r);
    }
  }

  /** Every band index below `Band(n)` is the band of some row below `n`. */
  lemma {:induction false} BandReaches(rm: RowMap, newWidth: nat, width: nat, n: nat, k: nat) returns (r: nat)
    requires newWidth < width && k < Band(rm, newWidth, width, n)
    ensures r < n && Band(rm, newWidth, width, r) == k
  {
    BandAdvances(rm, newWidth, width, n - 1);
    if k < Band(rm, newWidth, width, n - 1) {
      r := BandReaches(rm, newWidth, width, n - 1, k);
    } else {
      r := n - 1;
    }
  }

  /** Every emitted band holds at least one source row. */
  lemma EveryBandFed(rm: RowMap, newWidth: nat, width: nat, height: nat, k: nat)
    requires newWidth < width && k < Band(rm, newWidth, width, height)
    ensures BandSize(rm, newWidth, width, height, k) >= 1
  {
    var r := BandReaches(rm, newWidth, width, height, k);
    BandSizePositive(rm, newWidth, width, height, k, r);
  }

  lemma {:induction false} RowTotalBound(m: ColumnMap, row: seq<byte>, newWidth: nat, width: nat, pixelSize: nat, n: nat, i: nat)
    requires 1 <= newWidth < width && pixelSize >= 1 && n <= width * pixelSize && n <= |row|
    ensures RowTotal(m, row, newWidth, width, pixelSize, n, i) <= 255 * RowCount(m, newWidth, width, pixelSize, n, i)
  {
    if n > 0 {
      RowTotalBound(m, row, newWidth, width, pixelSize, n - 1, i);
    }
  }

  lemma {:induction false} BandTotalBound(m: ColumnMap, rm: RowMap, rows: seq<seq<byte>>, newWidth: nat, width: nat, pixelSize: nat, n: nat, k: nat, i: nat)
    requires 1 <= newWidth < width && pixelSize >= 1 && Shaped(rows, width, pixelSize) && n <= |rows|
    ensures BandTotal(m, rm, rows, newWidth, width, pixelSize, n, k, i) <=
            BandSize(rm, newWidth, width, n, k) * (255 * RowCount(m, newWidth, width, pixelSize, width * pixelSize, i))
  {
    if n > 0 {
      BandTotalBound(m, rm, rows, newWidth, width, pixelSize, n - 1, k, i);
      RowTotalBound(m, rows[n - 1], newWidth, width, pixelSize, width * pixelSize, i);
      MulSucc(BandSize(rm, newWidth, width, n - 1, k), 255 * RowCount(m, newWidth, width, pixelSize, width * pixelSize, i));
    }
  }

  /** The mean that the pass emits for band `total`/`count` pairs: a byte. */
  function Mean(total: nat, count: nat): byte
    requires count >= 1 && total <= 255 * count
  {
    QuotientIsByte(total, count);
    total / count
  }

  /** The truncated mean, for slot `i`, of everything band `k` has
      received from the first `n` source rows. */
  function BandMean(m: ColumnMap, rm: RowMap, rows: seq<seq<byte>>, newWidth: nat, width: nat, pixelSize: nat, n: nat, k: nat, i: nat): byte
    requires 1 <= newWidth < width && pixelSize >= 1 && Shaped(rows, width, pixelSize) && n <= |rows|
    requires i < newWidth * pixelSize && BandSize(rm, newWidth, width, n, k) >= 1
  {
    var size := BandSize(rm, newWidth, width, n, k);
    var count := RowCount(m, newWidth, width, pixelSize, width * pixelSize, i);
    EverySlotFed(m, newWidth, width, pixelSize, i);
    BandTotalBound(m, rm, rows, newWidth, width, pixelSize, n, k, i);
    MeanBounds(BandTotal(m, rm, rows, newWidth, width, pixelSize, n, k, i), size, count);
    Mean(BandTotal(m, rm, rows, newWidth, width, pixelSize, n, k, i), size * count)
  }

  /** Destination row `k`, sample `i`: the truncated mean of all source
      samples of band `k` that land in slot `i`. */
  function ShrunkSample(m: ColumnMap, rm: RowMap, rows: seq<seq<byte>>, newWidth: nat, width: nat, pixelSize: nat, k: nat, i: nat): byte
    requires 1 <= newWidth < width && pixelSize >= 1 && Shaped(rows, width, pixelSize) && |rows| >= 1
    requires k < Band(rm, newWidth, width, |rows|) && i < newWidth * pixelSize
  {
    EveryBandFed(rm, newWidth, width, |rows|, k);
    BandMean(m, rm, rows, newWidth, width, pixelSize, |rows|, k, i)
  }

  /** The image the pass produces: one row per emitted band, each row
      `newWidth * pixelSize` samples wide. */
  function ShrunkRows(m: ColumnMap, rm: RowMap, rows: seq<seq<byte>>, newWidth: nat, width: nat, pixelSize: nat): (out: seq<seq<byte>>)
    requires 1 <= newWidth < width && pixelSize >= 1 && Shaped(rows, width, pixelSize) && |rows| >= 1
    ensures |out| == Band(rm, newWidth, width, |rows|)
    ensures Shaped(out, newWidth, pixelSize)
    ensures forall k, i :: 0 <= k < |out| && 0 <= i < newWidth * pixelSize ==>
              out[k][i] == ShrunkSample(m, rm, rows, newWidth, width, pixelSize, k, i)
  {
    seq(Band(rm, newWidth, width, |rows|), k requires 0 <= k < Band(rm, newWidth, width, |rows|) =>
      seq(newWidth * pixelSize, i requires 0 <= i < newWidth * pixelSize =>
        ShrunkSample(m, rm, rows, newWidth, width, pixelSize, k, i)))
  }

  /** The pass emits fewer rows than the `scaleFactor * height` it reserves
      room for, or as many. */
  lemma ShrunkHeight(m: ColumnMap, rm: RowMap, rows: seq<seq<byte>>, newWidth: nat, width: nat, pixelSize: nat)
    requires 1 <= newWidth < width && pixelSize >= 1 && Shaped(rows, width, pixelSize) && |rows| >= 1
    ensures |ShrunkRows(m, rm, rows, newWidth, width, pixelSize)| <= Scaled(newWidth, width, |rows|)
    ensures |ShrunkRows(m, rm, rows, newWidth, width, pixelSize)| == Emissions(rm, newWidth, width, |rows|)
    ensures rm == LaggingRows ==> |ShrunkRows(m, rm, rows, newWidth, width, pixelSize)| == Scaled(newWidth, width, |rows| - 1)
    ensures rm == AlignedRows ==> |ShrunkRows(m, rm, rows, newWidth, width, pixelSize)| == Scaled(newWidth, width, |rows|)
  {
    ScaledMonotone(newWidth, width, TestedRow(rm, |rows| - 1), |rows|);
    EmissionCount(rm, newWidth, width, |rows|);
  }

  lemma {:induction false} BandTotalLocal(m: ColumnMap, rm: RowMap, rows: seq<seq<byte>>, other: seq<seq<byte>>, newWidth: nat, width: nat, pixelSize: nat, n: nat, k: nat, i: nat)
    requires 1 <= newWidth < width && pixelSize >= 1
    requires Shaped(rows, width, pixelSize) && Shaped(other, width, pixelSize) && n <= |rows| && n <= |other|
    requires forall r :: 0 <= r < n && Band(rm, newWidth, width, r) == k ==> rows[r] == other[r]
    ensures BandTotal(m, rm, rows, newWidth, width, pixelSize, n, k, i) == BandTotal(m, rm, other, newWidth, width, pixelSize, n, k, i)
  {
    if n > 0 {
      BandTotalLocal(m, rm, rows, other, newWidth, width, pixelSize, n - 1, k, i);
    }
  }

  /** Source rows after the last emission are dropped: changing them does
      not change the result. */
  lemma TrailingRowsIgnored(m: ColumnMap, rm: RowMap, rows: seq<seq<byte>>, other: seq<seq<byte>>, newWidth: nat, width: nat, pixelSize: nat)
    requires 1 <= newWidth < width && pixelSize >= 1 && |rows| >= 1 && |other| == |rows|
    requires Shaped(rows, width, pixelSize) && Shaped(other, width, pixelSize)
    requires forall r :: 0 <= r < |rows| && Band(rm, newWidth, width, r) < Band(rm, newWidth, width, |rows|) ==> rows[r] == other[r]
    ensures ShrunkRows(m, rm, rows, newWidth, width, pixelSize) == ShrunkRows(m, rm, other, newWidth, width, pixelSize)
  {
    var a := ShrunkRows(m, rm, rows, newWidth, width, pixelSize);
    var b := ShrunkRows(m, rm, other, newWidth, width, pixelSize);
    forall k | 0 <= k < |a|
      ensures a[k] == b[k]
    {
      forall i | 0 <= i < newWidth * pixelSize
        ensures a[k][i] == b[k][i]
      {
        BandTotalLocal(m, rm, rows, other, newWidth, width, pixelSize, |rows|, k, i);
      }
    }
  }

  /** No source row of band `k` has been folded in yet when every row so
      far lies in an earlier band. */
  lemma {:induction false} BandNotStarted(m: ColumnMap, rm: RowMap, rows: seq<seq<byte>>, newWidth: nat, width: nat, pixelSize: nat, n: nat, k: nat, i: nat)
    requires 1 <= newWidth < width && pixelSize >= 1 && Shaped(rows, width, pixelSize) && n <= |rows|
    requires n == 0 || Band(rm, newWidth, width, n - 1) < k
    ensures BandTotal(m, rm, rows, newWidth, width, pixelSize, n, k, i) == 0
    ensures BandSize(rm, newWidth, width, n, k) == 0
  {
    if n > 0 {
      if n > 1 {
        BandMonotone(rm, newWidth, width, n - 2, n - 1);
      }
      BandNotStarted(m, rm, rows, newWidth, width, pixelSize, n - 1, k, i);
    }
  }

  /** Folding source row `r` into its own band `k` adds the row's slot
      totals to the band's and one row to its size, and leaves every other
      band as it was. */
  lemma BandFolded(m: ColumnMap, rm: RowMap, rows: seq<seq<byte>>, newWidth: nat, width: nat, pixelSize: nat, r: nat, k: nat)
    requires 1 <= newWidth < width && pixelSize >= 1 && Shaped(rows, width, pixelSize) && r < |rows|
    requires Band(rm, newWidth, width, r) == k
    ensures forall i :: 0 <= i < newWidth * pixelSize ==>
      BandTotal(m, rm, rows, newWidth, width, pixelSize, r + 1, k, i) ==
      BandTotal(m, rm, rows, newWidth, width, pixelSize, r, k, i) + RowTotal(m, rows[r], newWidth, width, pixelSize, width * pixelSize, i)
    ensures BandSize(rm, newWidth, width, r + 1, k) == BandSize(rm, newWidth, width, r, k) + 1
    ensures forall i :: 0 <= i < newWidth * pixelSize ==>
      BandSize(rm, newWidth, width, r + 1, k) * RowCount(m, newWidth, width, pixelSize, width * pixelSize, i) ==
      BandSize(rm, newWidth, width, r, k) * RowCount(m, newWidth, width, pixelSize, width * pixelSize, i) +
      RowCount(m, newWidth, width, pixelSize, width * pixelSize, i)
    ensures forall other, i :: other != k && 0 <= i < newWidth * pixelSize ==>
      BandTotal(m, rm, rows, newWidth, width, pixelSize, r + 1, other, i) ==
      BandTotal(m, rm, rows, newWidth, width, pixelSize, r, other, i)
    ensures forall other :: other != k ==>
      BandSize(rm, newWidth, width, r + 1, other) == BandSize(rm, newWidth, width, r, other)
  {
    forall i | 0 <= i < newWidth * pixelSize
      ensures BandSize(rm, newWidth, width, r + 1, k) * RowCount(m, newWidth, width, pixelSize, width * pixelSize, i) ==
              BandSize(rm, newWidth, width, r, k) * RowCount(m, newWidth, width, pixelSize, width * pixelSize, i) +
              RowCount(m, newWidth, width, pixelSize, width * pixelSize, i)
    {
      MulSucc(BandSize(rm, newWidth, width, r, k), RowCount(m, newWidth, width, pixelSize, width * pixelSize, i));
    }
  }

  // The column maps compared

  /** For gray images the two maps are the same map. */
  lemma ColumnMapsAgreeOnGray(newWidth: nat, width: nat, col: nat)
    requires 1 <= newWidth < width && col < width
    ensures Destination(SampleColumns, newWidth, width, 1, col) == Destination(PixelColumns, newWidth, width, 1, col)
  {
  }

  /** The pixel map keeps every sample in its own channel and puts it in the
      destination pixel its source pixel scales to. */
  lemma PixelColumnsKeepChannels(newWidth: nat, width: nat, pixelSize: nat, col: nat)
    requires 1 <= newWidth < width && pixelSize >= 1 && col < width * pixelSize
    ensures Destination(PixelColumns, newWidth, width, pixelSize, col) % pixelSize == col % pixelSize
    ensures Destination(PixelColumns, newWidth, width, pixelSize, col) / pixelSize == Scaled(newWidth, width, col / pixelSize)
  {
    DivExact(Scaled(newWidth, width, col / pixelSize), col % pixelSize, pixelSize);
  }

  /** Halving an RGB image 2 pixels wide, the code's map adds the green
      sample of pixel 0 (column 1) to slot 0, the red sample of destination
      pixel 0. */
  lemma SampleColumnsMixChannels()
    ensures Destination(SampleColumns, 1, 2, 3, 1) == 0
    ensures Destination(SampleColumns, 1, 2, 3, 1) % 3 != 1 % 3
  {
  }

  lemma DestinationChannel(m: ColumnMap, newWidth: nat, width: nat, pixelSize: nat, col: nat)
    requires 1 <= newWidth < width && pixelSize >= 1 && col < width * pixelSize
    requires m == PixelColumns || pixelSize == 1
    ensures Destination(m, newWidth, width, pixelSize, col) % pixelSize == col % pixelSize
  {
    if m == PixelColumns {
      PixelColumnsKeepChannels(newWidth, width, pixelSize, col);
    }
  }

  lemma {:induction false} RowTotalUniform(m: ColumnMap, rows: seq<seq<byte>>, y: nat, newWidth: nat, width: nat, pixelSize: nat, colour: seq<byte>, n: nat, i: nat)
    requires 1 <= newWidth < width && pixelSize >= 1 && |colour| == pixelSize && (m == PixelColumns || pixelSize == 1)
    requires Shaped(rows, width, pixelSize) && y < |rows| && Uniform(rows, width, pixelSize, colour)
    requires n <= width * pixelSize && i < newWidth * pixelSize
    ensures RowTotal(m, rows[y], newWidth, width, pixelSize, n, i) == RowCount(m, newWidth, width, pixelSize, n, i) * colour[i % pixelSize]
  {
    if n > 0 {
      RowTotalUniform(m, rows, y, newWidth, width, pixelSize, colour, n - 1, i);
      UniformSample(rows, width, pixelSize, colour, y, n - 1);
      DestinationChannel(m, newWidth, width, pixelSize, n - 1);
      MulSucc(RowCount(m, newWidth, width, pixelSize, n - 1, i), colour[i % pixelSize]);
    }
  }

  lemma {:induction false} BandTotalUniform(m: ColumnMap, rm: RowMap, rows: seq<seq<byte>>, newWidth: nat, width: nat, pixelSize: nat, colour: seq<byte>, n: nat, k: nat, i: nat)
    requires 1 <= newWidth < width && pixelSize >= 1 && |colour| == pixelSize && (m == PixelColumns || pixelSize == 1)
    requires Shaped(rows, width, pixelSize) && n <= |rows| && Uniform(rows, width, pixelSize, colour)
    requires i < newWidth * pixelSize
    ensures BandTotal(m, rm, rows, newWidth, width, pixelSize, n, k, i) ==
            BandSize(rm, newWidth, width, n, k) * (RowCount(m, newWidth, width, pixelSize, width * pixelSize, i) * colour[i % pixelSize])
  {
    if n > 0 {
      BandTotalUniform(m, rm, rows, newWidth, width, pixelSize, colour, n - 1, k, i);
      RowTotalUniform(m, rows, n - 1, newWidth, width, pixelSize, colour, width * pixelSize, i);
      MulSucc(BandSize(rm, newWidth, width, n - 1, k), RowCount(m, newWidth, width, pixelSize, width * pixelSize, i) * colour[i % pixelSize]);
    }
  }

  lemma ShrunkSampleUniform(m: ColumnMap, rm: RowMap, rows: seq<seq<byte>>, newWidth: nat, width: nat, pixelSize: nat, colour: seq<byte>, k: nat, i: nat)
    requires 1 <= newWidth < width && pixelSize >= 1 && |colour| == pixelSize && (m == PixelColumns || pixelSize == 1)
    requires Shaped(rows, width, pixelSize) && |rows| >= 1 && Uniform(rows, width, pixelSize, colour)
    requires k < Band(rm, newWidth, width, |rows|) && i < newWidth * pixelSize
    ensures ShrunkSample(m, rm, rows, newWidth, width, pixelSize, k, i) == colour[i % pixelSize]
  {
    var size := BandSize(rm, newWidth, width, |rows|, k);
    var count := RowCount(m, newWidth, width, pixelSize, width * pixelSize, i);
    var v := colour[i % pixelSize];
    BandTotalUniform(m, rm, rows, newWidth, width, pixelSize, colour, |rows|, k, i);
    EveryBandFed(rm, newWidth, width, |rows|, k);
    EverySlotFed(m, newWidth, width, pixelSize, i);
    MeanOfRepeated(size, count, v);
  }

  /** Shrinking an image of one colour keeps that colour in every pixel,
      with the pixel map, and with either map on a gray image. */
  lemma ShrinkOfUniform(m: ColumnMap, rm: RowMap, rows: seq<seq<byte>>, newWidth: nat, width: nat, pixelSize: nat, colour: seq<byte>)
    requires 1 <= newWidth < width && pixelSize >= 1 && |colour| == pixelSize && (m == PixelColumns || pixelSize == 1)
    requires Shaped(rows, width, pixelSize) && |rows| >= 1 && Uniform(rows, width, pixelSize, colour)
    ensures forall k, i :: 0 <= k < Band(rm, newWidth, width, |rows|) && 0 <= i < newWidth * pixelSize ==>
              ShrunkRows(m, rm, rows, newWidth, width, pixelSize)[k][i] == colour[i % pixelSize]
  {
    forall k, i | 0 <= k < Band(rm, newWidth, width, |rows|) && 0 <= i < newWidth * pixelSize
      ensures ShrunkSample(m, rm, rows, newWidth, width, pixelSize, k, i) == colour[i % pixelSize]
    {
      ShrunkSampleUniform(m, rm, rows, newWidth, width, pixelSize, colour, k, i);
    }
  }

  lemma RedRowTotals(row: seq<byte>)
    requires row == [255, 0, 0, 255, 0, 0]
    ensures RowTotal(SampleColumns, row, 1, 2, 3, 6, 0) == 255
    ensures RowTotal(SampleColumns, row, 1, 2, 3, 6, 1) == 255
    ensures RowTotal(SampleColumns, row, 1, 2, 3, 6, 2) == 0
    ensures forall i :: 0 <= i < 3 ==> RowCount(SampleColumns, 1, 2, 3, 6, i) == 2
  {
    forall col | 0 <= col < 6 ensures Destination(SampleColumns, 1, 2, 3, col) == col / 2 {
    }
    forall i | 0 <= i < 3
      ensures RowTotal(SampleColumns, row, 1, 2, 3, 6, i) == [255, 255, 0][i]
      ensures RowCount(SampleColumns, 1, 2, 3, 6, i) == 2
    {
      assert RowTotal(SampleColumns, row, 1, 2, 3, 1, i) == [255, 0, 0][i];
      assert RowTotal(SampleColumns, row, 1, 2, 3, 2, i) == [255, 0, 0][i];
      assert RowTotal(SampleColumns, row, 1, 2, 3, 3, i) == [255, 0, 0][i];
      assert RowTotal(SampleColumns, row, 1, 2, 3, 4, i) == [255, 255, 0][i];
      assert RowTotal(SampleColumns, row, 1, 2, 3, 5, i) == [255, 255, 0][i];
      assert RowCount(SampleColumns, 1, 2, 3, 1, i) == [1, 0, 0][i];
      assert RowCount(SampleColumns, 1, 2, 3, 2, i) == [2, 0, 0][i];
      assert RowCount(SampleColumns, 1, 2, 3, 3, i) == [2, 1, 0][i];
      assert RowCount(SampleColumns, 1, 2, 3, 4, i) == [2, 2, 0][i];
      assert RowCount(SampleColumns, 1, 2, 3, 5, i) == [2, 2, 1][i];
    }
  }

  lemma GrayRowTotals(row: seq<byte>)
    requires |row| == 4
    ensures RowTotal(SampleColumns, row, 2, 4, 1, 4, 0) == row[0] as int + row[1]
    ensures RowTotal(SampleColumns, row, 2, 4, 1, 4, 1) == row[2] as int + row[3]
    ensures RowCount(SampleColumns, 2, 4, 1, 4, 0) == 2 && RowCount(SampleColumns, 2, 4, 1, 4, 1) == 2
  {
    forall col | 0 <= col < 4 ensures Destination(SampleColumns, 2, 4, 1, col) == col / 2 {
    }
    assert RowTotal(SampleColumns, row, 2, 4, 1, 1, 0) == row[0];
    assert RowTotal(SampleColumns, row, 2, 4, 1, 2, 0) == row[0] as int + row[1];
    assert RowTotal(SampleColumns, row, 2, 4, 1, 3, 0) == row[0] as int + row[1];
    assert RowTotal(SampleColumns, row, 2, 4, 1, 1, 1) == 0;
    assert RowTotal(SampleColumns, row, 2, 4, 1, 2, 1) == 0;
    assert RowTotal(SampleColumns, row, 2, 4, 1, 3, 1) == row[2];
    assert RowCount(SampleColumns, 2, 4, 1, 1, 0) == 1 && RowCount(SampleColumns, 2, 4, 1, 1, 1) == 0;
    assert RowCount(SampleColumns, 2, 4, 1, 2, 0) == 2 && RowCount(SampleColumns, 2, 4, 1, 2, 1) == 0;
    assert RowCount(SampleColumns, 2, 4, 1, 3, 0) == 2 && RowCount(SampleColumns, 2, 4, 1, 3, 1) == 1;
  }

  /** The one band of three pure red rows, under the code's map: three
      rows, each adding 255 to slots 0 and 1 and nothing to slot 2. */
  lemma RedBandTotals(rows: seq<seq<byte>>)
    requires rows == [[255, 0, 0, 255, 0, 0], [255, 0, 0, 255, 0, 0], [255, 0, 0, 255, 0, 0]]
    ensures Shaped(rows, 2, 3)
    ensures Band(LaggingRows, 1, 2, 3) == 1 && BandSize(LaggingRows, 1, 2, 3, 0) == 3
    ensures forall i :: 0 <= i < 3 ==> RowCount(SampleColumns, 1, 2, 3, 6, i) == 2
    ensures forall i :: 0 <= i < 3 ==> BandTotal(SampleColumns, LaggingRows, rows, 1, 2, 3, 3, 0, i) == 3 * [255, 255, 0][i]
  {
    var red: seq<byte> := [255, 0, 0, 255, 0, 0];
    assert rows == [red, red, red];
    assert Scaled(1, 2, 2) == 1;
    assert Band(LaggingRows, 1, 2, 0) == 0 && Band(LaggingRows, 1, 2, 1) == 0 && Band(LaggingRows, 1, 2, 2) == 0;
    assert BandSize(LaggingRows, 1, 2, 3, 0) == 3;
    RedRowTotals(red);
    forall i | 0 <= i < 3 ensures BandTotal(SampleColumns, LaggingRows, rows, 1, 2, 3, 3, 0, i) == 3 * [255, 255, 0][i] {
      assert BandTotal(SampleColumns, LaggingRows, rows, 1, 2, 3, 1, 0, i) == [255, 255, 0][i];
      assert BandTotal(SampleColumns, LaggingRows, rows, 1, 2, 3, 2, 0, i) == 2 * [255, 255, 0][i];
    }
  }

  /** Three rows of two pure red pixels, shrunk to one pixel: the code's
      map yields (127, 127, 0), the pixel map keeps (255, 0, 0). */
  lemma RedShrinksToOlive()
    ensures ShrunkRows(SampleColumns, LaggingRows, [[255, 0, 0, 255, 0, 0], [255, 0, 0, 255, 0, 0], [255, 0, 0, 255, 0, 0]], 1, 2, 3) == [[127, 127, 0]]
    ensures ShrunkRows(PixelColumns, LaggingRows, [[255, 0, 0, 255, 0, 0], [255, 0, 0, 255, 0, 0], [255, 0, 0, 255, 0, 0]], 1, 2, 3) == [[255, 0, 0]]
  {
    var rows: seq<seq<byte>> := [[255, 0, 0, 255, 0, 0], [255, 0, 0, 255, 0, 0], [255, 0, 0, 255, 0, 0]];
    RedBandTotals(rows);
    var a := ShrunkRows(SampleColumns, LaggingRows, rows, 1, 2, 3);
    assert a[0][0] == 127 && a[0][1] == 127 && a[0][2] == 0;
    assert a[0] == [127, 127, 0];
    RedKeptByPixelColumns(rows);
  }

  /** The same three rows under the pixel map stay pure red. */
  lemma RedKeptByPixelColumns(rows: seq<seq<byte>>)
    requires rows == [[255, 0, 0, 255, 0, 0], [255, 0, 0, 255, 0, 0], [255, 0, 0, 255, 0, 0]]
    ensures ShrunkRows(PixelColumns, LaggingRows, rows, 1, 2, 3) == [[255, 0, 0]]
  {
    assert Scaled(1, 2, 2) == 1;
    assert Band(LaggingRows, 1, 2, 0) == 0 && Band(LaggingRows, 1, 2, 1) == 0 && Band(LaggingRows, 1, 2, 2) == 0;
    assert Band(LaggingRows, 1, 2, 3) == 1;
    UniformBySamples(rows, 2, 3, [255, 0, 0]);
    ShrinkOfUniform(PixelColumns, LaggingRows, rows, 1, 2, 3, [255, 0, 0]);
    var b := ShrunkRows(PixelColumns, LaggingRows, rows, 1, 2, 3);
    assert |rows| == 3 && 0 < Band(LaggingRows, 1, 2, |rows|);
    assert b[0][0] == [255, 0, 0][0 % 3] && b[0][1] == [255, 0, 0][1 % 3] && b[0][2] == [255, 0, 0][2 % 3];
    assert b[0] == [255, 0, 0];
  }

  lemma GrayBandTotals(a: seq<byte>, b: seq<byte>, c: seq<byte>, d: seq<byte>)
    requires |a| == |b| == |c| == |d| == 4
    ensures Shaped([a, b, c, d], 4, 1)
    ensures BandSize(LaggingRows, 2, 4, 4, 0) == 3
    ensures BandTotal(SampleColumns, LaggingRows, [a, b, c, d], 2, 4, 1, 4, 0, 0) == a[0] as int + a[1] + b[0] + b[1] + c[0] + c[1]
    ensures BandTotal(SampleColumns, LaggingRows, [a, b, c, d], 2, 4, 1, 4, 0, 1) == a[2] as int + a[3] + b[2] + b[3] + c[2] + c[3]
  {
    var rows := [a, b, c, d];
    assert Scaled(2, 4, 3) == 1;
    assert Band(LaggingRows, 2, 4, 3) == 1 && Band(LaggingRows, 2, 4, 2) == 0 && Band(LaggingRows, 2, 4, 1) == 0;
    assert BandSize(LaggingRows, 2, 4, 2, 0) == 2;
    GrayRowTotals(a);
    GrayRowTotals(b);
    GrayRowTotals(c);
    assert BandTotal(SampleColumns, LaggingRows, rows, 2, 4, 1, 1, 0, 0) == a[0] as int + a[1];
    assert BandTotal(SampleColumns, LaggingRows, rows, 2, 4, 1, 2, 0, 0) == a[0] as int + a[1] + b[0] + b[1];
    assert BandTotal(SampleColumns, LaggingRows, rows, 2, 4, 1, 1, 0, 1) == a[2] as int + a[3];
    assert BandTotal(SampleColumns, LaggingRows, rows, 2, 4, 1, 2, 0, 1) == a[2] as int + a[3] + b[2] + b[3];
  }

  /** A 4 by 4 gray image shrunk to width 2 comes out 2 by 1, not 2 by 2:
      the one emitted row averages source rows 0 to 2, and row 3 is dropped. */
  lemma FourByFourToTwo(a: seq<byte>, b: seq<byte>, c: seq<byte>, d: seq<byte>)
    requires |a| == |b| == |c| == |d| == 4
    ensures Scaled(2, 4, 4) == 2
    ensures ShrunkRows(SampleColumns, LaggingRows, [a, b, c, d], 2, 4, 1) ==
            [[(a[0] as int + a[1] + b[0] + b[1] + c[0] + c[1]) / 6, (a[2] as int + a[3] + b[2] + b[3] + c[2] + c[3]) / 6]]
  {
    var rows := [a, b, c, d];
    GrayBandTotals(a, b, c, d);
    GrayRowTotals(a);
    var left := a[0] as int + a[1] + b[0] + b[1] + c[0] + c[1];
    var right := a[2] as int + a[3] + b[2] + b[3] + c[2] + c[3];
    assert Scaled(2, 4, 3) == 1;
    assert ShrunkSample(SampleColumns, LaggingRows, rows, 2, 4, 1, 0, 0) == left / 6;
    assert ShrunkSample(SampleColumns, LaggingRows, rows, 2, 4, 1, 0, 1) == right / 6;
    var out := ShrunkRows(SampleColumns, LaggingRows, rows, 2, 4, 1);
    assert out[0] == [left / 6, right / 6];
  }

  lemma AlignedBands(a: seq<byte>, b: seq<byte>, c: seq<byte>, d: seq<byte>)
    requires |a| == |b| == |c| == |d| == 4
    ensures Shaped([a, b, c, d], 4, 1)
    ensures Band(AlignedRows, 2, 4, 1) == 0 && Band(AlignedRows, 2, 4, 2) == 1 && Band(AlignedRows, 2, 4, 3) == 1
    ensures BandSize(AlignedRows, 2, 4, 4, 0) == 2 && BandSize(AlignedRows, 2, 4, 4, 1) == 2
  {
    assert Scaled(2, 4, 1) == 0 && Scaled(2, 4, 2) == 1 && Scaled(2, 4, 3) == 1;
    assert BandSize(AlignedRows, 2, 4, 2, 0) == 2 && BandSize(AlignedRows, 2, 4, 2, 1) == 0;
    assert BandSize(AlignedRows, 2, 4, 3, 0) == 2 && BandSize(AlignedRows, 2, 4, 3, 1) == 1;
  }

  lemma AlignedTopBand(a: seq<byte>, b: seq<byte>, c: seq<byte>, d: seq<byte>)
    requires |a| == |b| == |c| == |d| == 4
    ensures Shaped([a, b, c, d], 4, 1)
    ensures BandTotal(SampleColumns, AlignedRows, [a, b, c, d], 2, 4, 1, 4, 0, 0) == a[0] as int + a[1] + b[0] + b[1]
    ensures BandTotal(SampleColumns, AlignedRows, [a, b, c, d], 2, 4, 1, 4, 0, 1) == a[2] as int + a[3] + b[2] + b[3]
  {
    var rows := [a, b, c, d];
    AlignedBands(a, b, c, d);
    GrayRowTotals(a);
    GrayRowTotals(b);
    assert Band(AlignedRows, 2, 4, 0) == 0;
    assert BandTotal(SampleColumns, AlignedRows, rows, 2, 4, 1, 1, 0, 0) == a[0] as int + a[1];
    assert BandTotal(SampleColumns, AlignedRows, rows, 2, 4, 1, 1, 0, 1) == a[2] as int + a[3];
    assert BandTotal(SampleColumns, AlignedRows, rows, 2, 4, 1, 2, 0, 0) == a[0] as int + a[1] + b[0] + b[1];
    assert BandTotal(SampleColumns, AlignedRows, rows, 2, 4, 1, 2, 0, 1) == a[2] as int + a[3] + b[2] + b[3];
    assert BandTotal(SampleColumns, AlignedRows, rows, 2, 4, 1, 3, 0, 0) == a[0] as int + a[1] + b[0] + b[1];
    assert BandTotal(SampleColumns, AlignedRows, rows, 2, 4, 1, 3, 0, 1) == a[2] as int + a[3] + b[2] + b[3];
  }

  lemma AlignedBottomBand(a: seq<byte>, b: seq<byte>, c: seq<byte>, d: seq<byte>)
    requires |a| == |b| == |c| == |d| == 4
    ensures Shaped([a, b, c, d], 4, 1)
    ensures BandTotal(SampleColumns, AlignedRows, [a, b, c, d], 2, 4, 1, 4, 1, 0) == c[0] as int + c[1] + d[0] + d[1]
    ensures BandTotal(SampleColumns, AlignedRows, [a, b, c, d], 2, 4, 1, 4, 1, 1) == c[2] as int + c[3] + d[2] + d[3]
  {
    var rows := [a, b, c, d];
    AlignedBands(a, b, c, d);
    GrayRowTotals(c);
    GrayRowTotals(d);
    assert BandTotal(SampleColumns, AlignedRows, rows, 2, 4, 1, 1, 1, 0) == 0;
    assert BandTotal(SampleColumns, AlignedRows, rows, 2, 4, 1, 1, 1, 1) == 0;
    assert BandTotal(SampleColumns, AlignedRows, rows, 2, 4, 1, 2, 1, 0) == 0;
    assert BandTotal(SampleColumns, AlignedRows, rows, 2, 4, 1, 2, 1, 1) == 0;
    assert BandTotal(SampleColumns, AlignedRows, rows, 2, 4, 1, 3, 1, 0) == c[0] as int + c[1];
    assert BandTotal(SampleColumns, AlignedRows, rows, 2, 4, 1, 3, 1, 1) == c[2] as int + c[3];
  }

  /** With the aligned row test the same 4 by 4 image comes out 2 by 2:
      each destination pixel averages one 2 by 2 block of source pixels. */
  lemma FourByFourAligned(a: seq<byte>, b: seq<byte>, c: seq<byte>, d: seq<byte>)
    requires |a| == |b| == |c| == |d| == 4
    ensures ShrunkRows(SampleColumns, AlignedRows, [a, b, c, d], 2, 4, 1) ==
            [[(a[0] as int + a[1] + b[0] + b[1]) / 4, (a[2] as int + a[3] + b[2] + b[3]) / 4],
             [(c[0] as int + c[1] + d[0] + d[1]) / 4, (c[2] as int + c[3] + d[2] + d[3]) / 4]]
  {
    var rows := [a, b, c, d];
    AlignedBands(a, b, c, d);
    AlignedTopBand(a, b, c, d);
    AlignedBottomBand(a, b, c, d);
    GrayRowTotals(a);
    assert Scaled(2, 4, 4) == 2;
    var out := ShrunkRows(SampleColumns, AlignedRows, rows, 2, 4, 1);
    assert out[0] == [(a[0] as int + a[1] + b[0] + b[1]) / 4, (a[2] as int + a[3] + b[2] + b[3]) / 4];
    assert out[1] == [(c[0] as int + c[1] + d[0] + d[1]) / 4, (c[2] as int + c[3] + d[2] + d[3]) / 4];
  }
}
