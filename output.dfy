/** What the two writers hand on: the parameters and scanlines passed to
    the JPEG compressor, and the bytes of the uncompressed PPM dump, with a
    reader for that dump that takes it back apart. */
module Output {
  import opened Pixels
  import opened Arith

  /** The compression quality actually used: the requested one clamped to
      the usable range 0 to 100. */
  function EffectiveQuality(quality: int): (q: int)
    ensures 0 <= q <= 100
    ensures 0 <= quality <= 100 ==> q == quality
    ensures quality < 0 ==> q == 0
    ensures quality > 100 ==> q == 100
  {
    if quality < 0 then 0
    else if quality > 100 then 100
    else quality
  }

  /** Clamping twice is clamping once, and a higher request never yields a
      lower quality. */
  lemma QualityClamp(a: int, b: int)
    ensures EffectiveQuality(EffectiveQuality(a)) == EffectiveQuality(a)
    ensures a <= b ==> EffectiveQuality(a) <= EffectiveQuality(b)
  {
  }

  /** The default quality of 95 is used unchanged; out-of-range requests
      land on the nearest end of the range. */
  lemma QualityExamples()
    ensures EffectiveQuality(95) == 95
    ensures EffectiveQuality(-5) == 0 && EffectiveQuality(150) == 100
  {
  }

  /** Everything the compressor is handed: image dimensions, component
      count, colour space (carried over from the decoder), quality, and the
      scanlines written one at a time, in order. */
  datatype CompressJob = CompressJob(
    imageWidth: nat,
    imageHeight: nat,
    inputComponents: nat,
    colorSpace: int,
    quality: int,
    scanlines: seq<seq<byte>>)

  /** The ASCII code of decimal digit `d`. */
  function DigitByte(d: nat): (b: byte)
    requires d < 10
    ensures 48 <= b <= 57
  {
    48 + d
  }

  predicate IsDigit(b: byte) {
    48 <= b <= 57
  }

  /** `n` written in decimal, as a stream inserter writes an unsigned
      integer: no sign, no padding, no leading zero. */
  function Decimal(n: nat): (s: seq<byte>)
    ensures |s| >= 1
    ensures forall i :: 0 <= i < |s| ==> IsDigit(s[i])
    ensures s[0] == 48 <==> n == 0
    decreases n
  {
    if n < 10 then [DigitByte(n)]
    else Decimal(n / 10) + [DigitByte(n % 10)]
  }

  /** The number a string of digits denotes, most significant first. */
  function DecimalValue(s: seq<byte>): nat
    requires forall i :: 0 <= i < |s| ==> IsDigit(s[i])
  {
    if |s| == 0 then 0
    else
      assert IsDigit(s[|s| - 1]);
      DecimalValue(s[..|s| - 1]) * 10 + (s[|s| - 1] as int - 48)
  }

  lemma {:induction false} DecimalDenotes(n: nat)
    ensures DecimalValue(Decimal(n)) == n
    decreases n
  {
    if n >= 10 {
      DecimalDenotes(n / 10);
      var s := Decimal(n);
      assert s[..|s| - 1] == Decimal(n / 10);
    }
  }

  /** Length of the longest run of digits at the front of `s`. */
  function DigitSpan(s: seq<byte>): (k: nat)
    ensures k <= |s|
    ensures forall i :: 0 <= i < k ==> IsDigit(s[i])
    ensures k < |s| ==> !IsDigit(s[k])
  {
    if |s| == 0 || !IsDigit(s[0]) then 0
    else 1 + DigitSpan(s[1..])
  }

  lemma {:induction false} DigitSpanOf(d: seq<byte>, rest: seq<byte>)
    requires forall i :: 0 <= i < |d| ==> IsDigit(d[i])
    requires |rest| == 0 || !IsDigit(rest[0])
    ensures DigitSpan(d + rest) == |d|
  {
    if |d| > 0 {
      assert (d + rest)[1..] == d[1..] + rest;
      DigitSpanOf(d[1..], rest);
    }
  }

  /** Reads an unsigned decimal number from the front of `s`: its value
      and what follows it, or nothing when `s` does not start with a digit. */
  function ParseDecimal(s: seq<byte>): Option<(nat, seq<byte>)> {
    var k := DigitSpan(s);
    if k == 0 then None else Some((DecimalValue(s[..k]), s[k..]))
  }

  datatype Option<T> = None | Some(value: T)

  /** A number followed by something that is not a digit reads back as
      that number, leaving the rest. */
  lemma DecimalRoundTrip(n: nat, rest: seq<byte>)
    requires |rest| == 0 || !IsDigit(rest[0])
    ensures ParseDecimal(Decimal(n) + rest) == Some((n, rest))
  {
    var d := Decimal(n);
    DigitSpanOf(d, rest);
    assert (d + rest)[..|d|] == d;
    assert (d + rest)[|d|..] == rest;
    DecimalDenotes(n);
  }

  /** "P6 " */
  const Magic: seq<byte> := [80, 54, 32]
  /** " 255\n": the separator before the maximum sample value, the value,
      and the newline that ends the header. */
  const MaxValueLine: seq<byte> := [32, 50, 53, 53, 10]

  /** The PPM header: magic, width, height and maximum sample value. */
  function PpmHeader(width: nat, height: nat): seq<byte> {
    Magic + Decimal(width) + [32] + Decimal(height) + MaxValueLine
  }

  /** The scanlines one after another, with no padding between them. */
  function Concat(rows: seq<seq<byte>>): (s: seq<byte>)
  {
    if |rows| == 0 then [] else rows[0] + Concat(rows[1..])
  }

  lemma {:induction false} ConcatSnoc(rows: seq<seq<byte>>, row: seq<byte>)
    ensures Concat(rows + [row]) == Concat(rows) + row
  {
    if |rows| > 0 {
      assert (rows + [row])[1..] == rows[1..] + [row];
      ConcatSnoc(rows[1..], row);
    }
  }

  lemma {:induction false} ConcatLength(rows: seq<seq<byte>>, len: nat)
    requires forall y :: 0 <= y < |rows| ==> |rows[y]| == len
    ensures |Concat(rows)| == len * |rows|
  {
    if |rows| > 0 {
      ConcatLength(rows[1..], len);
      MulSucc(|rows| - 1, len);
      assert len * |rows| == (|rows| - 1) * len + len;
    }
  }

  /** Everything the PPM writer emits: the header, then every scanline. */
  function PpmBytes(width: nat, height: nat, rows: seq<seq<byte>>): (b: seq<byte>)
    ensures |b| == |PpmHeader(width, height)| + |Concat(rows)|
    ensures |b| >= |Magic| + |MaxValueLine| && b[..|Magic|] == Magic
    ensures b[|b| - |Concat(rows)|..] == Concat(rows)
    ensures b[..|b| - |Concat(rows)|] == PpmHeader(width, height)
  {
    PpmHeader(width, height) + Concat(rows)
  }

  /** The image read back from a dump. */
  datatype PpmImage = PpmImage(width: nat, height: nat, rows: seq<seq<byte>>)

  /** Cuts `raster` into `count` scanlines of `len` bytes each. */
  function Chunk(raster: seq<byte>, len: nat, count: nat): (rows: seq<seq<byte>>)
    requires |raster| == len * count
    ensures |rows| == count
    ensures forall y :: 0 <= y < count ==> |rows[y]| == len
  {
    if count == 0 then []
    else
      MulSucc(count - 1, len);
      assert len * count == (count - 1) * len + len;
      assert len * (count - 1) == (count - 1) * len;
      [raster[..len]] + Chunk(raster[len..], len, count - 1)
  }

  lemma {:induction false} ChunkConcat(rows: seq<seq<byte>>, len: nat)
    requires forall y :: 0 <= y < |rows| ==> |rows[y]| == len
    ensures |Concat(rows)| == len * |rows|
    ensures Chunk(Concat(rows), len, |rows|) == rows
  {
    ConcatLength(rows, len);
    if |rows| > 0 {
      ChunkConcat(rows[1..], len);
      var s := Concat(rows);
      assert s[..len] == rows[0];
      assert s[len..] == Concat(rows[1..]);
      assert rows == [rows[0]] + rows[1..];
    }
  }

  /** Reads a PPM header: the width, the height and the bytes after the
      header, or nothing when the bytes do not start with a header in the
      writer's exact layout. */
  function ParseHeader(bytes: seq<byte>): Option<(nat, nat, seq<byte>)> {
    if |bytes| < 3 || bytes[..3] != Magic then None
    else match ParseDecimal(bytes[3..])
      case None => None
      case Some((width, afterWidth)) =>
        if |afterWidth| < 1 || afterWidth[0] != 32 then None
        else match ParseDecimal(afterWidth[1..])
          case None => None
          case Some((height, afterHeight)) =>
            if |afterHeight| < 5 || afterHeight[..5] != MaxValueLine then None
            else Some((width, height, afterHeight[5..]))
  }

  lemma HeaderTail(height: nat, rest: seq<byte>)
    ensures var tail := [32] + Decimal(height) + MaxValueLine + rest;
      |tail| >= 1 && tail[0] == 32 &&
      ParseDecimal(tail[1..]) == Some((height, MaxValueLine + rest))
  {
    var tail := [32] + Decimal(height) + MaxValueLine + rest;
    assert tail[1..] == Decimal(height) + (MaxValueLine + rest);
    DecimalRoundTrip(height, MaxValueLine + rest);
  }

  /** Any header the writer emits reads back, whatever follows it. */
  lemma HeaderRoundTrip(width: nat, height: nat, rest: seq<byte>)
    ensures ParseHeader(PpmHeader(width, height) + rest) == Some((width, height, rest))
  {
    var bytes := PpmHeader(width, height) + rest;
    var tail := [32] + Decimal(height) + MaxValueLine + rest;
    assert bytes == Magic + (Decimal(width) + tail);
    assert bytes[..3] == Magic;
    assert bytes[3..] == Decimal(width) + tail;
    DecimalRoundTrip(width, tail);
    HeaderTail(height, rest);
    var tail2 := MaxValueLine + rest;
    assert tail2[..5] == MaxValueLine;
    assert tail2[5..] == rest;
  }

  /** Reads a dump whose scanlines hold `pixelSize` samples per pixel: the
      header's width and height, then exactly `width * height * pixelSize`
      raster bytes. The pixel size is the caller's: the header does not
      record it, and a reader going by the "P6" magic alone would take 3. */
  function ParsePpm(bytes: seq<byte>, pixelSize: nat): (r: Option<PpmImage>)
    ensures r.Some? ==> |r.value.rows| == r.value.height
    ensures r.Some? ==> Shaped(r.value.rows, r.value.width, pixelSize)
  {
    match ParseHeader(bytes)
    case None => None
    case Some((width, height, raster)) =>
      if |raster| != (width * pixelSize) * height then None
      else Some(PpmImage(width, height, Chunk(raster, width * pixelSize, height)))
  }

  /** The dump of a well-formed image reads back as that image. */
  lemma PpmRoundTrip(rows: seq<seq<byte>>, width: nat, height: nat, pixelSize: nat)
    requires WellFormed(rows, width, height, pixelSize)
    ensures ParsePpm(PpmBytes(width, height, rows), pixelSize) == Some(PpmImage(width, height, rows))
  {
    HeaderRoundTrip(width, height, Concat(rows));
    ChunkConcat(rows, width * pixelSize);
  }

  /** The header always declares three samples per pixel ("P6"), while the
      raster holds `pixelSize` per pixel: the two agree exactly for RGB. */
  lemma RasterMatchesP6(rows: seq<seq<byte>>, width: nat, height: nat, pixelSize: nat)
    requires WellFormed(rows, width, height, pixelSize)
    ensures |Concat(rows)| == (width * pixelSize) * height
    ensures |Concat(rows)| == (width * 3) * height <==> pixelSize == 3
  {
    ConcatLength(rows, width * pixelSize);
    assert (width * pixelSize) * height == (width * height) * pixelSize;
    assert (width * 3) * height == (width * height) * 3;
    assert width * height >= 1;
    if (width * height) * pixelSize == (width * height) * 3 {
      MulCancelLess(width * height, pixelSize, 4);
      MulCancelLess(width * height, 2, pixelSize);
    }
  }

  /** The dump of a 1 by 1 gray image of level 200. */
  lemma SinglePixelDump()
    ensures PpmBytes(1, 1, [[200]]) == [80, 54, 32, 49, 32, 49, 32, 50, 53, 53, 10, 200]
  {
    assert Decimal(1) == [49];
    assert Concat([[200]]) == [200];
  }
}
