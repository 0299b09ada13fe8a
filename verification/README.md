# ppmtools in Dafny

A model of the core of **ppmtools**, a small C toolkit for Netpbm raster images. The model has two parts.

**The binary raster codec.** This covers `ppm.c` (the three-plane 'P6' format) and `pgm.c` (the one-plane 'P5' format).
- The header reader handles:
  - the magic token and the whitespace after it;
  - `#` comment lines;
  - the required leading digit;
  - three `%d` fields;
  - the dimension check, [1, 32767].
- The payload has one byte per sample when maxval ≤ 255 and two otherwise. Two-byte samples are byte-swapped, which puts the high byte first on disk.
- Samples are interleaved by channel in row-major order.
- The writer emits a fixed header.
- Single-pixel set, get and clear.

**The integer pixel kernels.** These are shared by `main.c` and its near-duplicate `ppmtools.c`, and are modelled once:
- `sat` and `CLIP`;
- the edge-replicating `get_pixel`/`getPixel`;
- the cubic kernel `bicubic_filter` and the final clamp of `bicubic`;
- the 16.16 fixed-point RGB↔YCbCr macros, with the BT.601 luma weights in the full range of JFIF (ITU-T T.871, clause 7), and the image tools that apply them pixel by pixel;
- the RGGB mosaic of `ppm_to_bayer`;
- the block replication of `bayer_to_ppm`.

Everything is written as pure functions over immutable values:
- files are `seq<byte>`;
- a sample is a `u16` (C `u_short`);
- an image is a record with one `seq<u16>` per plane, in row-major order;
- every failure of the C code (`die`) is an `Err` of a `Result`.

Modules, bottom-up:
- `Results`: the error kinds and the `Result`/`Option` types.
- `Samples`: bytes, `u16`, the byte swap, and conversion between sample streams and bytes.
- `Grid`: the offset `y * width + x`.
- `Layout`: channel interleaving.
- `Codec`: sample width, payload size, decoding and encoding.
- `Decimal`: `%d` scanning and printing.
- `Header`: magic, comments, fields, dimension check and the printed header.
- `Raster`: the whole file for any number of planes.
- `Ppm` and `Pgm`: the two image records, their readers, writers and accessors.
- `Kernels`, `Colour` and `Bayer`: the tools' kernels.

The green replication of the demosaic follows the code (`main.c:351-354`):
- the top-right sensel fills the left column of the block;
- the bottom-left sensel fills the right column.

A diagonal placement, where the top-left and bottom-right positions share one green, would not match the code.

## Model

| member | source | states |
|---|---|---|
| Samples.Swap16 | ppm.c:121-123 | the swap exchanges the two bytes of a sample: the result's high byte is the input's low byte and vice versa |
| Samples.Swap16Involution | ppm.c:161-163 | swapping twice gives the sample back, so the swap on write and the swap on read cancel |
| Samples.LoadSwapIsBigEndian | pgm.c:110 | two disk bytes loaded as a little-endian word and swapped read as a big-endian number, first byte high |
| Samples.NarrowRoundTrip | ppm.c:165-167 | the 8-bit writer keeps `(u_char)` of each sample; reading those bytes back gives the samples whenever each is below 256 |
| Samples.WideRoundTrip | pgm.c:144 | two-byte samples written high byte first are read back unchanged |
| Samples.WideBytesRoundTrip | pgm.c:110 | any even-length byte string read as two-byte samples and written again is the same bytes |
| Grid.OffsetInRange | ppm.c:212 | the offset `y * width + x` of an in-range pixel lies in [0, width * height) |
| Grid.CoordinatesOfOffset | pgm.c:187 | dividing the offset `y * width + x` by the width gives back `y` and the remainder `x` |
| Grid.OffsetOfCoordinates | pgm.c:187 | every offset inside a `width` by `height` plane is `y * width + x` for an in-range pixel, namely its quotient and remainder by the width |
| Grid.OffsetIsProduct | pgm.c:195 | counting `width` samples for each row above the pixel and then `x` across reaches the row-major offset `y * width + x` |
| Grid.FlattenLength | pgm.c:110 | `height` rows of `width` samples laid end to end make a plane of `width * height` samples |
| Grid.FlattenAt | pgm.c:110 | in rows laid end to end, the sample at offset `y * width + x` is sample `x` of row `y` |
| Layout.Deinterleave | ppm.c:118-130 | channel `c` of pixel `i` of the decoded planes is stream sample `i * channels + c` |
| Layout.Interleave | ppm.c:158-170 | the written stream holds `channels` samples for each of the `n` pixels; where each one lands is stated by Layout.InterleaveAt, and Layout.DeinterleaveInterleave inverts it |
| Layout.InterleaveAt | ppm.c:158-170 | the writer puts channel `c` of pixel `i` at stream position `i * channels + c` |
| Layout.DeinterleaveInterleave | ppm.c:165-167 | splitting the written stream into planes gives back the planes |
| Layout.InterleaveDeinterleave | ppm.c:125-127 | interleaving the planes read from a stream gives back the stream |
| Codec.SampleBytes | ppm.c:102 | a sample takes 2 bytes exactly when maxval > 255, otherwise 1 |
| Codec.PayloadSize | ppm.c:103 | the payload size is a whole number of samples and is zero only for an empty image |
| Codec.DecodePayload | ppm.c:112-113 | decoding fails, with a short-read error, exactly when fewer bytes than the payload size remain; otherwise it gives `channels` planes of `n` samples |
| Codec.EncodePayload | ppm.c:176 | the writer emits exactly payload-size bytes |
| Codec.DecodeSample | ppm.c:120-127 | sample `c` of pixel `i` is the byte at `i * channels + c`, or the big-endian pair at twice that position |
| Codec.DecodedNarrow | pgm.c:112 | one-byte payloads decode to samples below 256 |
| Codec.DecodeEncode | pgm.c:141-156 | decoding an encoded payload, whatever follows it, returns the planes, provided one-byte samples fit in a byte |
| Codec.EncodeDecode | pgm.c:101-115 | re-encoding the decoded planes reproduces the payload bytes exactly |
| Decimal.SkipSpace | ppm.c:23 | the whitespace skip stops at the first non-space byte or at the end, and every skipped byte is whitespace |
| Decimal.DigitEnd | ppm.c:43 | the digit run ends at the first non-digit or at the end, and every byte before it is a digit |
| Decimal.ScanInt | ppm.c:43 | a `%d` field that succeeds ends after a digit and before a non-digit or the end |
| Decimal.ScanIntSucceeds | pgm.c:42 | `%d` succeeds exactly when whitespace and at most one sign are followed by a digit |
| Decimal.ScanIntValue | ppm.c:43 | a successful `%d` yields the decimal value of the whole digit run, negated after a minus sign, and stops after the run: a plus sign and leading zeros do not change the value |
| Decimal.FormatInt | ppm.c:175 | a printed `%d` is non-empty, never starts with whitespace, and is all digits for a non-negative number |
| Decimal.NatDigitsValue | pgm.c:154 | the decimal digits printed for `n` have the value `n` |
| Decimal.ScanFormatted | pgm.c:42 | scanning a printed integer after whitespace, with a non-digit after it, returns that integer and the position after its last digit |
| Header.ReadMagic | ppm.c:23-25 | the magic is accepted exactly when the file starts with 'P' and the magic character, then all whitespace after it is skipped; otherwise the error is not-raw-format |
| Header.FindNewline | ppm.c:30-32 | the comment scan finds the first newline at or after the start, or reports that there is none |
| Header.SkipComments | ppm.c:27-34 | comment lines are consumed through their newline: every line start it passes over is a '#', it stops at the first line start that is not '#', nothing is skipped when no comment starts, and it fails only when it reaches a '#' line — every line start before it being a '#' — that has no newline after it before the end of the file |
| Header.ReadFields | ppm.c:28-46 | the byte after the comments must be a digit, width and height must lie in [1, 32767], and a wrong magic gives the not-raw-format error |
| Header.ScanFields | ppm.c:43 | the three `%d` fields, when all present, end right after a digit and before a non-digit or the end of the file; the scan succeeds exactly when width, height and maxval each scan in turn, each from where the previous one stopped (Header.ScanFieldsOf gives the values) |
| Header.DimensionCheck | ppm.c:45-46 | once the fields are scanned, `checkDimension` (`Header.ValidDimension`, [1, 32767]) on width and height decides: both valid gives the fields, either invalid gives the bad-dimension error, whatever maxval is |
| Header.ReadHeader | ppm.c:19-47 | the reader as written succeeds exactly when the fields do and stops at the end of the file or at a non-whitespace byte: the trailing `\n` of the format swallows every whitespace byte |
| Header.ReadHeaderStrict | pgm.c:42 | the corrected reader consumes exactly one whitespace byte after maxval |
| Header.FormatHeader | ppm.c:175 | the printed header is six fixed bytes plus the three printed fields |
| Header.AfterFieldsSwallows | pgm.c:42 | when two whitespace bytes follow maxval, the reader as written stops past both |
| Header.ReadFormattedHeader | ppm.c:175 | the header the writer prints is read back with the same fields, ending right after its newline, provided the payload does not start with whitespace |
| Header.ReadFormattedHeaderStrict | pgm.c:154 | the corrected reader reads the printed header back with the same fields, ending right after its newline, whatever the payload |
| Raster.PlanesAfter | ppm.c:100-113 | the payload read fails with a short-read error exactly when fewer bytes than the payload size follow the header; on success the planes are shaped to the header |
| Raster.ReadPlanes | ppm.c:85-142 | header errors propagate unchanged, and a successful read has valid dimensions, one plane per channel of width * height samples, and byte-sized samples when maxval ≤ 255 |
| Raster.ReadPlanesStrict | pgm.c:78-125 | the same for the corrected header reader |
| Raster.OtherMagicRejected | pgm.c:23-25 | a file without 'P' and the expected magic is rejected by both readers as not raw format |
| Raster.ReadPlanesAfterHeader | pgm.c:90-101 | a successful read decodes the payload from where the header reader stopped |
| Raster.PlanesAfterSample | ppm.c:118-130 | sample `c` of pixel `i` is the payload byte, or big-endian pair, of stream sample `i * channels + c` |
| Raster.WritePlanes | ppm.c:144-182 | the written file is the printed header followed by exactly payload-size bytes |
| Raster.WriteReadStrict | pgm.c:127-161 | the corrected reader returns exactly the header and planes that were written |
| Raster.WriteRead | ppm.c:158-177 | the reader as written returns exactly what was written when the first payload byte is not whitespace |
| Raster.ShortPayload | pgm.c:101-102 | after a successful header, too few remaining bytes give the short-read error |
| Raster.WriteReadLeadingSpace | ppm.c:43 | when the first payload byte is whitespace, the reader as written fails on the written file with a short read |
| Ppm.ImageOfShaped | ppm.h:14-22 | the decoded planes fill the `Image` record's three planes of width * height samples |
| Ppm.ImageRead | ppm.c:85-142 | a successful read is a well-formed image with dimensions in [1, 32767], and 8-bit images hold byte-sized samples |
| Ppm.ImageReadStrict | ppm.c:98 | the same with the corrected header reader |
| Ppm.ImageWrite | ppm.c:144-182 | the file is the printed header followed by width * height * 3 * sample-width bytes |
| Ppm.ImageReadMagic | ppm.c:23-25 | a file that does not start with "P6" is rejected as not raw format |
| Ppm.ImageRoundTripStrict | ppm.c:175-177 | the corrected reader returns the written image whenever its dimensions are valid and 8-bit samples fit in a byte |
| Ppm.ImageRoundTrip | ppm.c:158-177 | the reader as written returns the written image under the same conditions, when the first payload byte is not whitespace |
| Ppm.ImageRoundTripLeadingSpace | ppm.c:43 | when the first payload byte is whitespace, the written image cannot be read back: short read |
| Ppm.SpaceRedPixelLost | ppm.c:165 | the 1x1 8-bit image with red sample 32 is lost by the reader as written and recovered by the corrected reader |
| Ppm.ChannelIndex | ppm.c:214 | channels 0 and 1 select the first and second plane and every other value the third |
| Ppm.ImageSetPixel | ppm.c:210-216 | setting a pixel keeps the header and shape and leaves the two other planes unchanged |
| Ppm.ImageGetPixel | ppm.c:218-225 | for in-range coordinates the flat offset `y * width + x` reads pixel (x, y) of the chosen plane counted row by row |
| Ppm.GetAfterSet | ppm.c:218-225 | after a set, the set offset and plane read `val`, and every other sample reads as before |
| Ppm.ImageClear | ppm.c:194-208 | clearing keeps the header and shape of the image |
| Ppm.GetAfterClear | ppm.c:203-207 | after a clear, every sample of each plane reads as that plane's clear value |
| Pgm.ImageOfShaped | pgm.h:14-20 | the decoded plane fills the `ImagePGM` record's plane of width * height samples |
| Pgm.ImagePGMRead | pgm.c:78-125 | a successful read is a well-formed image with dimensions in [1, 32767], and 8-bit images hold byte-sized samples |
| Pgm.ImagePGMReadStrict | pgm.c:90 | the same with the corrected header reader |
| Pgm.ImagePGMWrite | pgm.c:127-161 | the file is the printed header followed by width * height * sample-width bytes |
| Pgm.ImagePGMReadMagic | pgm.c:23-25 | a file that does not start with "P5" is rejected as not raw format |
| Pgm.ImagePGMRoundTripStrict | pgm.c:141-156 | the corrected reader returns the written image whenever its dimensions are valid and 8-bit samples fit in a byte |
| Pgm.ImagePGMRoundTrip | pgm.c:101-115 | the reader as written returns the written image under the same conditions, when the first payload byte is not whitespace |
| Pgm.ImagePGMRoundTripLeadingSpace | pgm.c:42 | when the first payload byte is whitespace, the written image cannot be read back: short read |
| Pgm.NewlineHighBytePixelLost | pgm.c:144 | the 2x1 16-bit image whose first sample is 0x0A00 is lost by the reader as written and recovered by the corrected reader |
| Pgm.ImagePGMSetPixel | pgm.c:185-191 | setting a pixel keeps the header and shape |
| Pgm.ImagePGMGetPixel | pgm.c:193-200 | for in-range coordinates the flat offset `y * width + x` reads pixel (x, y) of the plane counted row by row |
| Pgm.GetAfterSet | pgm.c:193-200 | after a set, the set offset reads `val` and every other offset reads as before |
| Pgm.ImagePGMClear | pgm.c:173-183 | clearing keeps the header and shape |
| Pgm.GetAfterClear | pgm.c:180-182 | after a clear, every sample reads `grey` |
| Kernels.Sat | main.c:61 | the clamp lies in [L0, L1] whenever L0 ≤ L1, and is the identity inside that range |
| Kernels.SatNearest | ppmtools.c:53 | the clamp is the point of [L0, L1] nearest to `X` |
| Kernels.SatMonotone | main.c:61 | the clamp is monotone and idempotent |
| Kernels.Clip | main.c:19 | `CLIP` lies in [0, 255] and is the identity inside it |
| Kernels.ClipIsSat | ppmtools.c:17 | `CLIP` is `sat` with bounds 0 and 255 |
| Kernels.GetPixel | main.c:73-79 | inside the plane the fetch reads the pixel itself, and above and to the left of the plane it reads the top-left pixel (Kernels.GetPixelEdge gives edge replication in general) |
| Kernels.FetchOffset | main.c:73-79 | the offset `get_pixel` reads is always inside the plane, and it is `y * w + x` for in-range coordinates |
| Kernels.GetPixelEdge | ppmtools.c:65-71 | outside the plane the fetch returns the nearest edge pixel, and inside it returns the pixel itself |
| Kernels.BicubicFilter | main.c:63-71 | the Catmull-Rom cubic passes through `B` at t = 0 and `C` at t = 1 |
| Kernels.FilterEndpoints | main.c:63-71 | the cubic kernel gives `B` at t = 0 and `C` at t = 1 |
| Kernels.FilterConstant | ppmtools.c:55-63 | four equal inputs give that value for every `t` |
| Kernels.FilterLinear | main.c:65-70 | samples on a line are reproduced exactly: the kernel interpolates linear data |
| Kernels.Trunc | main.c:132 | `(int)` truncates toward zero: the result has the sign of the input (or is zero), and its magnitude is below the input's by less than one |
| Kernels.Bicubic | main.c:101-132 | all sixteen neighbours are fetched through the clamped fetch, and the result, clamped to [0, mv] and converted to `u_short`, lies in [0, mv] whenever mv fits in 16 bits |
| Kernels.BicubicConstant | ppmtools.c:94-124 | on a constant plane the result is that constant, clamped to [0, mv] and converted to `u_short`, whatever the fractions |
| Kernels.BicubicAtBase | main.c:125-130 | with zero fractions the result is the base pixel, clamped to [0, mv] and converted to `u_short` |
| Colour.Shr16 | main.c:23 | `>> 16` is division by 65536 rounded down, also for negative values |
| Colour.RgbToY | main.c:23 | luma lies in [0, 255], and for an 8-bit pixel between its smallest and largest sample |
| Colour.RgbToCb | main.c:24 | Cb lies in [0, 255] and is 128 when blue equals the luma |
| Colour.RgbToCr | main.c:25 | Cr lies in [0, 255] and is 128 when red equals the luma |
| Colour.ChromaOverflow | main.c:24-25 | the 16-bit pure-blue and pure-red pixels keep the luma sum within `int` but overflow the chroma products, so the forward precondition excludes them |
| Colour.YCbCrToR | main.c:28 | red lies in [0, 255] and equals Y for Cr = 128 |
| Colour.YCbCrToG | main.c:29 | green lies in [0, 255] and equals Y for Cb = Cr = 128 |
| Colour.YCbCrToB | main.c:30 | blue lies in [0, 255] and equals Y for Cb = 128 |
| Colour.GreyToYCbCr | ppmtools.c:21-23 | a grey pixel (k, k, k) with k ≤ 255 maps to (k, 128, 128) |
| Colour.GreyFromYCbCr | ppmtools.c:26-28 | (k, 128, 128) with k ≤ 255 maps back to (k, k, k) |
| Colour.LumaIsFloor | main.c:23 | for an 8-bit pixel the luma is the weighted sum divided by 65536 rounded down |
| Colour.ForwardThenInverseFits | main.c:23-30 | for an 8-bit pixel neither the forward nor the inverse macros overflow a 32-bit `int` |
| Colour.RedTolerance | main.c:23-30 | red converted forward and back differs from the original by at most 2 |
| Colour.GreenTolerance | main.c:23-30 | green converted forward and back differs from the original by at most 2 |
| Colour.BlueTolerance | main.c:23-30 | blue converted forward and back differs from the original by at most 2 |
| Colour.RoundTripTolerance | main.c:23-30 | every 8-bit pixel converted forward and back differs from the original by at most 2 per channel |
| Colour.RgbToYuv | main.c:391-401 | the forward tool keeps width, height and maxval, and every output sample is at most 255 |
| Colour.YuvToRgb | main.c:424-434 | the inverse tool keeps width, height and maxval, and every output sample is at most 255 |
| Colour.RgbToYuvIsPerPixel | ppmtools.c:347-364 | the forward tool's output pixel depends only on the input pixel at the same offset |
| Colour.YuvToRgbIsPerPixel | ppmtools.c:388-398 | the inverse tool's output pixel depends only on the input pixel at the same offset |
| Colour.GreyImageRoundTrip | ppmtools.c:390-396 | a grey 8-bit image comes back unchanged from the forward and then the inverse tool |
| Bayer.Avg2 | main.c:294-298 | the `>> 1` pair average lies between the two samples and is their floor average |
| Bayer.Avg4 | main.c:289-292 | the `>> 2` average lies between the smallest and largest of the four and is their floor average |
| Bayer.Scale | main.c:305-308 | the rescale keeps 0, maps maxval to 65535, and is the identity when maxval is already 65535 |
| Bayer.PpmToBayer | main.c:287-311 | the mosaic has the input's width and height and maxval 65535 |
| Bayer.MosaicAt | main.c:305-308 | the mosaic follows the RGGB pattern: red average on even rows and columns, top green on even rows and odd columns, bottom green on odd rows and even columns, blue on odd rows and columns, each from the 2x2 block the pixel lies in |
| Bayer.MosaicBlock | ppmtools.c:262-275 | each 2x2 block holds the rescaled red average top-left, top green average top-right, bottom green average bottom-left and blue average bottom-right |
| Bayer.BayerToPpm | main.c:339-362 | the replication has the sensor image's width, height and maxval |
| Bayer.DemosaicAt | main.c:341-359 | every pixel of a block takes the block's top-left sensel as red and bottom-right sensel as blue; green is the top-right sensel in the left column and the bottom-left sensel in the right column |
| Bayer.DemosaicBlock | main.c:341-359 | each block fills plane 1 with the red sensel, plane 3 with the blue sensel, and plane 2 with the top-right sensel in the left column and the bottom-left sensel in the right column |
| Bayer.MosaicThenDemosaic | ppmtools.c:303-326 | mosaicking then replicating fills each block with its rescaled red and blue averages and puts the top and bottom green averages in the left and right columns |
| Bayer.DemosaicThenMosaic | ppmtools.c:262-275 | a 16-bit sensor image keeps its red and blue sensels through replication then mosaicking, and both greens of a block become their floor average |

## Left out

- File and memory plumbing is not modelled:
  - `fopen`, `fread`, `fwrite`, `fclose`, `malloc` and `free`;
  - `ImageCreate`, `ImageRelease`, `ImagePGMCreate` and `ImagePGMRelease`;
  - NULL checks and early returns that leak memory.

  The codec works on the whole file as a byte sequence.
- `ImageWidth`, `ImageHeight`, `ImagePGMWidth` and `ImagePGMHeight` are not modelled: they only read record fields.
- `die` and `exit` are not modelled. Each failure is an error value: not raw format, bad header, unterminated comment, bad dimension, or short read.
- The command line is not modelled: `main`, `usage`, `version_num`, argument checks and dispatch.
- End of file inside a comment makes the C loop run forever (`ppm.c:29-32`, `pgm.c:28-31`). The model returns an unterminated-comment error instead.
- `fscanf`'s result is never checked (`ppm.c:43`, `pgm.c:42`):
  - When a field does not parse, C carries on with uninitialised values. The model returns a bad-header error.
  - `%d` fields are unbounded integers. The overflow of very long digit strings is not modelled.
  - maxval is accepted as read, including zero, negative values and values above 65535.
- 32-bit `int` overflow of `width * height * byte * channel` is not modelled. It can happen for dimensions near 32767; sizes are mathematical integers.
- A little-endian host is assumed, as the byte swap intends. The disk bytes are modelled directly, high byte first.
- Floating-point work is not modelled:
  - the coordinate mapping of `bicubic` (`u - 0.5`, the truncating `(int)` cast, `floorf`), `apply_bicubic`, `scale_image` and `ppm_zoom`;
  - `bilinear` and `apply_bilinear`, which also read past the last row and column;
  - `diff_image`/`pgm_diff` and `conv_bitdepth`/`pgm_scale`.
- Kernels.Bicubic: evaluated over exact reals instead of `float`. It takes the integer base pixel and the two fractions as parameters, so float rounding, NaN and out-of-range casts are not modelled.
- Kernels.Trunc: models `(int)` only for values an `int` can hold.
- Bayer.Scale: the float rescale `(u_short)((avg / maxval) * 65535)` is idealised as ⌊avg · 65535 / maxval⌋. The float result may differ from it by one step.
- Bayer.PpmToBayer: requires whole 2x2 blocks (even width and height), maxval ≥ 1 and every sample ≤ maxval. Otherwise the C code reads past the plane, divides by zero, or converts a float above 65535 to `u_short`, all of which are undefined.
- Bayer.BayerToPpm: requires an even width and height (whole 2x2 blocks). The tools pass it any image the P5 reader returns, and for an odd size the C block loop addresses `x + 1` and `y + 1` beyond the last column or row: with an odd width it wraps into the next row and, in the last row, past the end of the plane, which is undefined. It also stops after block replication. The bicubic pass that `bayer_to_ppm` applies afterwards (`main.c:364-368`) uses the float coordinate mapping left out above.
- The tools' early return for a width or height ≤ 0 is not modelled, because the readers never produce such an image.
- Colour.RgbToY: the colour macros are defined only while their intermediate values fit in a 32-bit `int`: the luma sum and the two chroma products `36962 * (B - Y)` and `46727 * (R - Y)` going forward (`ForwardFits`), and the three products going back (`InverseFits`). Larger samples overflow in C, for instance the 16-bit pure-blue and pure-red pixels (`Colour.ChromaOverflow`), and the model does not say what the C code computes for them. The same precondition applies to Colour.RgbToCb, Colour.RgbToCr and Colour.RgbToYuv, and `InverseFits` likewise to Colour.YCbCrToR, Colour.YCbCrToG, Colour.YCbCrToB and Colour.YuvToRgb.
- Colour.RgbToYuv: the output keeps the input's maxval even though every sample is at most 255, as the C code does.

## Findings

| source | as written | input that shows it | evidently intended | confidence | as-written member | corrected member |
|---|---|---|---|---|---|---|
| ppm.c:43 | the `\n` at the end of `"%d%d%d\n"` skips every whitespace byte after maxval, including payload bytes that happen to be whitespace codes | the 1x1 8-bit P6 image with red sample 32: `ImageWrite` emits `P6\n1 1\n255\n` followed by the bytes 32 0 0, `ImageRead` skips the 32 and then finds only 2 of the 3 payload bytes | exactly one whitespace byte ends the header, as the Netpbm format (section DESCRIPTION of ppm(5)) lays out and as the writer emits | high, not executed | Ppm.SpaceRedPixelLost | Ppm.ImageRoundTripStrict |
| pgm.c:42 | the same directive in the P5 reader | the 2x1 16-bit P5 image whose first sample is 0x0A00: its high byte, written first, is a newline | exactly one whitespace byte ends the header (pgm(5), section DESCRIPTION) | high, not executed | Pgm.NewlineHighBytePixelLost | Pgm.ImagePGMRoundTripStrict |
