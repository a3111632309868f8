# A verified model of the `marengo::jpeg::Image` pixel buffer

`marengo::jpeg::Image` holds a decoded JPEG as a list of scanlines with one byte per channel sample, plus its width, height and pixel size (the component count). On that buffer it offers:

- bounds-checked pixel reads (`getPixel`);
- a fast luminance approximation (`getLuminance`);
- a box average whose window is pushed back inside the image at the right and bottom edges (`getAverage`);
- a one-pass proportional shrink that replaces the buffer with a newly built one (`shrink`);
- two writers: the JPEG encoder hand-off (`save`) and an uncompressed PPM dump (`savePpm`).

This project models all of that in Dafny and proves what the code and the class's documentation promise.

Modules, one per file:

- `Arith` (arith.dfy): small facts about integer multiplication and division, each proved on its own.
- `Pixels` (pixels.dfy): these pieces:
  - the sample type;
  - the error kinds;
  - the well-formedness of a buffer;
  - pixel addressing (`PixelAt`);
  - the luminance formula.
- `BoxAverage` (average.dfy): the window clamp, the box sums, and `AverageAt`, the specification of `getAverage`.
- `Resample` (resample.dfy): the specification of `shrink` (`ShrunkRows`) and the lemmas about it. `ShrunkRows` is parameterised by two choices:
  - a column map (`SampleColumns`, as written, or `PixelColumns`);
  - a row test (`LaggingRows`, as written, or `AlignedRows`).

  The two findings below live there.
- `Output` (output.dfy): the quality clamp, the record handed to the encoder, the PPM byte layout, and a PPM reader used to prove the dump is lossless.
- `Jpeg` (image.dfy): `class Image`, with fields `rows`, `width`, `height`, `pixelSize` and `colorSpace`.
  - The constructor receives the decoder's output.
  - The queries are methods that change nothing, each proved equal to its specification function.
  - The shrink is an imperative pass over two accumulator arrays, proved equal to `ShrunkRows`. It then reassigns the buffer and the dimensions.

Where the code and its documentation disagree, the model follows the code:

- **Component count.** The header comments say a pixel has 1 (gray) or 3 (RGB) components. The code stores whatever count the decoder reports (4 for CMYK, for instance), so `WellFormed` only asks for `pixelSize >= 1`. For the other counts:
  - `getLuminance` returns 0 for any count other than 1 and 3 (a gray pixel gives its sample);
  - `getAverage` returns one channel (the first) for any count other than 3.

  The model does both.
- **`savePpm` magic.** It always writes the `P6` magic, which declares three samples per pixel, even for gray images. `Output.RasterMatchesP6` proves that the header and the raster agree exactly when `pixelSize == 3`.
- **Shrunk height.** "Retaining proportion" suggests `scaleFactor * height` rows, and that is the size line 233 reserves. The code emits `scaleFactor * (height - 1)` rows; see Findings.

## Model

| member | source | states |
|---|---|---|
| Pixels.PixelAt | jpeg.cpp:135-151 | fails exactly when `y >= |rows|` or `x >= width`, with "Y value too large" taking precedence over "X value too large"; otherwise returns exactly `pixelSize` samples, element `n` being `rows[y][x*pixelSize+n]` |
| Pixels.RowWidth | jpeg.cpp:141 | on a well-formed buffer `|rows[0]| / pixelSize == width`, so the code's x-bound against the first row is the width |
| Pixels.SampleInRow | jpeg.cpp:148 | every sample index `x*pixelSize+c` of an in-range pixel lies inside its scanline |
| Pixels.UniformSample | jpeg.cpp:145-149 | in an image whose every pixel reads back as `colour`, sample column `col` of every scanline holds channel `col % pixelSize` of it |
| Pixels.UniformBySamples | jpeg.cpp:145-149 | conversely, scanlines repeating `colour` channel by channel make every pixel read back as `colour`, so the two descriptions of a one-colour image agree |
| Pixels.Luminance | jpeg.cpp:156-167 | a one-sample pixel gives its sample; an RGB pixel gives the largest `l` with `6*l <= 2R+3G+B`, i.e. `(2R+3G+B)/6` truncated; every other pixel size gives 0 |
| Pixels.LuminanceOfGray | jpeg.cpp:160-166 | an RGB pixel with three equal channels has that value as luminance; black is 0 and white 255 |
| Pixels.LuminanceMonotone | jpeg.cpp:163-165 | brightening any channel of an RGB pixel never lowers its luminance |
| Pixels.LuminanceBetweenChannels | jpeg.cpp:163-165 | the weighted mean lies between the smallest and the largest channel, so it always fits in a byte |
| Jpeg.Image.Valid | jpeg.h:73-76 | the class invariant over the buffer and its dimensions: `height` scanlines, each `width*pixelSize` samples, with width, height and pixel size at least 1 |
| Jpeg.Image.constructor | jpeg.cpp:49-64 | the image holds exactly the decoder's width, height, component count and scanlines, in order, and is well-formed |
| Jpeg.Image.GetHeight | jpeg.h:43 | returns the stored height, which is the number of scanlines and at least 1 |
| Jpeg.Image.GetWidth | jpeg.h:44 | returns the stored width, at least 1, with every scanline `width*pixelSize` samples long |
| Jpeg.Image.GetPixelSize | jpeg.h:45 | returns the stored component count, at least 1, which divides the first scanline into `width` pixels |
| Jpeg.Image.GetPixel | jpeg.cpp:135-151 | the sample-by-sample copy loop returns `PixelAt`: the same failures and the same samples; the image is not changed |
| Jpeg.Image.GetLuminance | jpeg.cpp:153-168 | fails exactly when the pixel read fails, with the same error; otherwise gray pixels give their sample, RGB pixels `(2R+3G+B)/6` truncated, other pixel sizes 0 |
| BoxAverage.ClampOrigin | jpeg.cpp:181-188 | the shifted origin keeps the box inside the extent, never moves right or down, and moves only when the box would overrun |
| BoxAverage.ClampOriginIdempotent | jpeg.cpp:181-188 | shifting an already shifted origin changes nothing |
| BoxAverage.AverageAt | jpeg.cpp:170-217 | fails exactly when the box is wider or taller than the image, width checked first; otherwise returns 3 channels for RGB and 1 for every other pixel size |
| BoxAverage.AverageShiftPolicy | jpeg.h:58-62 | a box requested near the right or bottom edge averages the same pixels as the box at the shifted origin |
| BoxAverage.SpanSumBound | jpeg.cpp:193-205 | a run of `n` samples of one channel sums to at most `255*n` |
| BoxAverage.BoxSumBound | jpeg.cpp:193-205 | a box of samples of one channel sums to at most `255` times its area, so each truncated mean is a byte |
| BoxAverage.AverageOfUniform | jpeg.cpp:189-216 | on an image whose every pixel is one colour, the average of any fitting box is that colour (its first channel for non-RGB) |
| BoxAverage.AverageReadsOnlyWindow | jpeg.cpp:193-205 | the average depends only on the pixels inside the shifted window |
| Jpeg.Image.SpanSums | jpeg.cpp:195-204 | the inner loop adds, for each channel the code reads, exactly the sum of one scanline's run of the window to the running totals |
| Jpeg.Image.WindowSums | jpeg.cpp:189-205 | the nested loops accumulate, for each channel the code reads, exactly the box sum over the window |
| Jpeg.Image.GetAverage | jpeg.cpp:170-217 | the clamping, the accumulation and the truncating division by `boxSize*boxSize` return `AverageAt`; the image is not changed |
| Resample.Scaled | jpeg.cpp:232-249 | `scaleFactor * k` truncated, taken exactly: the `s` with `s*width <= newWidth*k < s*width + width` |
| Resample.ScaledMonotone | jpeg.cpp:245-249 | `scaleFactor * k`, truncated, never decreases as `k` grows |
| Resample.ScaledStep | jpeg.cpp:249 | with `newWidth < width`, consecutive rows scale to the same destination row or to the next one |
| Resample.Destination | jpeg.cpp:243-247 | every source sample column maps to an accumulator index below `newWidth*pixelSize` |
| Resample.EverySlotFed | jpeg.cpp:243-256 | each source scanline adds at least one sample to every accumulator, so no count is zero when a row is emitted |
| Resample.ColumnMapsAgreeOnGray | jpeg.cpp:245 | for gray images the sample map and the per-pixel map coincide |
| Resample.SampleColumnsMixChannels | jpeg.cpp:245 | for RGB, the sample map sends the green sample of the first pixel (sample column 1) into slot 0, the red accumulator |
| Resample.PixelColumnsKeepChannels | jpeg.cpp:245 | the corrected map keeps each sample's channel and sends pixel `p` to destination pixel `scaleFactor * p` |
| Resample.DestinationChannel | jpeg.cpp:245 | under either map a gray image, or the corrected map on any image, keeps samples in their channel |
| Resample.Emits | jpeg.cpp:249-251 | the row test: after source row `r`, a row is emitted exactly when its scaled index exceeds `oldRow`, the band counter `Band` recorded so far |
| Resample.BandAdvances | jpeg.cpp:249-251 | the destination row counter grows by one exactly when the row test fires, otherwise stays |
| Resample.EmissionCount | jpeg.cpp:249-260 | the number of emitted rows after `n` source rows equals the final row counter |
| Resample.BandMonotone | jpeg.cpp:249-251 | the row counter never decreases |
| Resample.BandReaches | jpeg.cpp:249-251 | every destination row below the final counter is the band of some source row |
| Resample.EveryBandFed | jpeg.cpp:249-256 | every emitted row averages at least one source row |
| Resample.BandTotalBound | jpeg.cpp:246-256 | an accumulator never exceeds 255 times its count, so each emitted mean is a byte |
| Resample.ShrunkRows | jpeg.cpp:219-266 | the shrunk image has one row per emitted band, each `newWidth*pixelSize` samples, each sample the truncated mean of what its accumulator collected |
| Resample.ShrunkHeight | jpeg.cpp:233-264 | the emitted rows are at most the reserved `scaleFactor*height`; as written exactly `scaleFactor*(height-1)`, with aligned rows exactly `scaleFactor*height` |
| Resample.TrailingRowsIgnored | jpeg.cpp:241-263 | source rows whose band is never emitted have no influence on the result |
| Resample.BandNotStarted | jpeg.cpp:257-258 | a band not yet begun has zero totals and zero counts |
| Resample.BandFolded | jpeg.cpp:243-248 | folding source row `r` adds its row total and row count to the current band and to no other |
| Resample.ShrinkOfUniform | jpeg.h:64-66 | shrinking a one-colour image gives that colour everywhere, for gray images or with the corrected column map |
| Resample.RedShrinksToOlive | jpeg.cpp:243-247 | a pure red 2 by 3 RGB image shrunk to width 1 becomes (127,127,0) as written and (255,0,0) with the corrected map |
| Resample.FourByFourToTwo | jpeg.cpp:241-262 | a 4 by 4 gray image shrunk to width 2 becomes a single row, the means of its first three rows, as written |
| Resample.FourByFourAligned | jpeg.cpp:241-262 | with aligned rows the same image becomes two rows: the means of rows 0-1 and of rows 2-3 |
| Jpeg.AddScanline | jpeg.cpp:243-248 | adds every sample of one scanline to its mapped accumulator and counts it, touching nothing else |
| Jpeg.EmitLine | jpeg.cpp:252-260 | the emitted scanline holds each accumulator's truncated mean, and all accumulators are zero afterwards |
| Jpeg.FoldRow | jpeg.cpp:243-261 | one iteration of the row loop keeps the pass invariant: the emitted rows are the completed bands, the accumulators hold the open band |
| Jpeg.ShrinkPass | jpeg.cpp:238-262 | the whole row loop produces exactly `ShrunkRows` |
| Jpeg.ShrunkWidth | jpeg.cpp:265 | the width recomputed from the first new scanline is `newWidth` |
| Jpeg.Image.ShrinkBy | jpeg.cpp:219-266 | no-op when `newWidth >= width`; otherwise the buffer becomes `ShrunkRows`, width becomes `newWidth`, height is the number of emitted rows, the pixel size is kept and the image stays well-formed |
| Jpeg.Image.Shrink | jpeg.cpp:219-266 | the shrink as written: sample column map, lagging row test, height `scaleFactor*(height-1)` |
| Jpeg.Image.ShrinkAligned | jpeg.h:64-67 | the corrected shrink: channels kept apart and height `scaleFactor*height` |
| Output.EffectiveQuality | jpeg.cpp:76-83 | the quality used is the request clamped to 0..100, unchanged inside that range |
| Output.QualityClamp | jpeg.cpp:76-83 | clamping is idempotent and monotone |
| Output.QualityExamples | jpeg.h:37-38 | the default 95 is kept; -5 acts as 0 and 150 as 100 |
| Jpeg.Image.Save | jpeg.cpp:74-115 | the encoder receives the image's dimensions, component count, the decoder's colour space, the clamped quality (requested quality 95 when none is given, as jpeg.h:38 declares) and every scanline in order |
| Output.Decimal | jpeg.cpp:127 | a number is written as a nonempty string of decimal digits with a leading zero only for 0 |
| Output.DecimalRoundTrip | jpeg.cpp:127 | a written number followed by a non-digit reads back as that number |
| Output.HeaderRoundTrip | jpeg.cpp:127 | the "P6 w h 255\n" header reads back as its width and height, whatever follows |
| Output.PpmBytes | jpeg.cpp:127-131 | the dump is the header `P6 <width> <height> 255\n` followed by the concatenated scanlines: it starts with "P6 ", ends with the raster, and its length is the sum of the two |
| Output.ConcatLength | jpeg.cpp:128-131 | the rows written one after another occupy `width*pixelSize*height` bytes |
| Output.PpmRoundTrip | jpeg.cpp:127-131 | the dump of a well-formed image reads back, header and rows, as that image, when the reader is told the image's pixel size; a standard P6 reader assumes 3 samples per pixel, so for non-RGB dumps this holds only for this reader |
| Output.RasterMatchesP6 | jpeg.cpp:127-131 | the raster has `width*pixelSize*height` bytes, which is what "P6" declares exactly when the pixel size is 3 |
| Output.SinglePixelDump | jpeg.cpp:127-131 | the dump of a 1 by 1 gray pixel of level 200 is `P6 1 1 255\n` followed by that byte |
| Jpeg.Image.SavePpm | jpeg.cpp:117-133 | the bytes written are the header followed by every scanline in order, and they read back as the image through a reader told the pixel size (for non-RGB images a standard P6 reader would not) |

## Left out

- libjpeg decoding and encoding are foreign library calls, so the model leaves out the `jpeg_*` calls, the `error_exit` handler and the destructor. The constructor takes the decoder's dimensions, component count, colour space and scanlines as given. `Save` returns the record it would hand to the encoder.
- File handling (`fopen`, `fclose`, `std::ofstream`) and the errors thrown when a file cannot be opened are I/O. `SavePpm` returns the bytes that would be written.
- The colour space is carried as an opaque integer; its meaning belongs to libjpeg.
- Resample.Scaled: `scaleFactor` is a single-precision `float`, and the model takes `scaleFactor * k` as the exact floor `newWidth * k / width`. Rounding in the float product can put a sample column or a source row into the neighbouring slot or band, even on small images. For example, `13.0f / 22` is slightly below 13/22, so shrinking a 22-pixel RGB image to width 13 sends sample column 22 to slot 12, where the exact floor gives 13. The same holds for the row test on row 22 of a 44-row image. These shifts are not modelled.
- BoxAverage.AverageAt: `size_t` wrap-around is not modelled. This covers `x + boxSize` in the clamp test and sums of more than 2^64 / 255 samples. Integers here are unbounded.
- Jpeg.Image.GetAverage: requires `boxSize >= 1`. With 0 the code divides by zero, which is undefined behaviour, not an error path.
- Jpeg.Image.ShrinkBy: with `newWidth < width`, requires `newWidth >= 1` and at least one emitted row (`Resample.Shrinkable`). Without them the code writes outside its accumulators or reads the first row of an empty buffer, which is undefined behaviour.
- Copy and move construction and assignment are deleted in the class, so there is nothing to model.
- main.cpp (argument handling, console output and ASCII rendering) is not part of this model.

## Findings

| source | as written | input that shows it | evidently intended | confidence | as-written member | corrected member |
|---|---|---|---|---|---|---|
| jpeg.cpp:243-247 | the accumulator index is `scaleFactor * col` over sample columns, so for RGB the samples of one pixel land in accumulators of other channels | a 2 by 3 pure red image (255,0,0) shrunk to width 1 gives (127,127,0) | each pixel's channels averaged into the same channels of destination pixel `scaleFactor * x` | not executed | Resample.RedShrinksToOlive | Resample.PixelColumnsKeepChannels |
| jpeg.cpp:249-251 | the row test uses `scaleFactor * row` after row `row` was folded in, and the open band is never flushed after the loop, so the last band of rows is dropped and `scaleFactor * (height - 1)` rows come out | a 4 by 4 gray image shrunk to width 2 gives a 2 by 1 image averaging rows 0-2, with row 3 ignored | `scaleFactor * height` rows, as the reserved size and "retaining proportion" say, each the mean of its own band | not executed | Resample.FourByFourToTwo | Resample.FourByFourAligned |

`Jpeg.Image.Shrink` is the as-written shrink. `Jpeg.Image.ShrinkAligned` uses both corrections. Its contract is backed by `Resample.ShrunkHeight` (aligned height `scaleFactor * height`) and `Resample.ShrinkOfUniform` (colours preserved).
