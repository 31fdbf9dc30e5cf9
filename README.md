# BMP image core: 8-bit codec and transforms, histogram equalisation, 24-bit grid

This project models the computational core of a small C library that handles
uncompressed Microsoft BMP images, and proves properties of that model.

- **8-bit images** (`bmp8.h`, `bmp8.c`, module `Bmp8`). A file is a 54-byte header, a
  1024-byte colour table and `dataSize` pixel bytes. Loading checks the "BM" signature
  and the bit depth 8. It reads width, height, depth and `dataSize` as little-endian
  header fields at offsets 18, 22, 28 and 34. Saving writes the three blocks back
  unchanged.
  - Loading and saving are the pure functions `Decode` and `Encode` over byte
    sequences, with a round-trip lemma.
  - The in-memory image is a class whose pixel buffer is an `array`. The negative,
    brightness and threshold transforms rewrite that buffer in place, with loop
    invariants.
- **Histogram equalisation** is split over three modules.
  - `Equalization` holds what both image types share: the 256-bin histogram, the
    cumulative distribution built by the unsigned 32-bit recurrence
    `cdf[i] = cdf[i-1] + hist[i]`, `cdf_min`, and the rounded scaling onto [0, 255].
  - `Bmp8Equalize` models `bmp8equalize.c`. Its histogram skips row padding. Its table
    is normalised in place with unsigned wrap-around and a clamp. The remap rewrites
    every byte of the buffer.
  - `Bmp24Equalize` models `bmp24equalize.c`. It equalises the clamped luminance and
    recolours each pixel from its mapped level and its own chrominance.
- **24-bit grid** (`bmp24.h`, `bmp24.c`, module `Bmp24`). This module holds the offset of
  the bits-per-pixel field, the pixel, and the image with one separately allocated array per row.
  `bmp24_allocateDataPixels` is modelled together with its unwinding when a row
  allocation fails.
- **Bit-depth detection** (`main.c`, module `BitDepth`). `detectBitDepth` decodes the
  2-byte field at offset 28.

## Modelling choices

- **Integers.** Unsigned C types are Dafny subset types (`byte`, `u16`, `u32`). C's
  unsigned subtraction and addition are written out as wrap-around modulo 2^32
  (`SubU32` for `cdf[i] - cdf_min`, and the `%` in `Cdf` and `FillCdf` for
  `cdf[i-1] + hist[i]`). Signed `int` arithmetic that could overflow is excluded by preconditions,
  listed under "Left out".
- **Rounding.** The `double` normalisation of `bmp8_computeCDF` and the float `map`
  formula of `bmp24_equalize` are modelled in exact rational arithmetic.
  `RoundedScale(d, m)` is the nearest integer to `255 * d / m`, with halves rounded up.
  That is what `round` and `roundf` do on non-negative values.
- **Colour conversions.** The float conversions `rgb2yuv` and the `roundf` calls in
  `yuv2rgb` are parameters of the model, the `ColourSpace` datatype:
  - `luma(p)` is `(int)roundf(Y)`;
  - `rounded(level, p)` holds the three rounded channel values.

  The integer clamps that follow these conversions are modelled exactly.
- **Outside effects.** Opening a file, `malloc` and `calloc` become parameters of the
  operations:
  - a file is `Option<seq<byte>>`, with `None` meaning the file cannot be opened;
  - each allocation has a boolean that says whether it succeeds;
  - `rowOk(i)` says whether the allocation of row `i` succeeds.

  Dafny's `new` initialises arrays, whereas an uninitialised `malloc` block has no
  defined contents. No modelled operation reads such a block before writing it.
- **Row offsets.** The 8-bit histogram reads at `y * rowSize + x`. The model computes
  the row offset as the repeated sum `RowStart`, which lemma `RowStartIsProduct` shows
  equal to the product.
- **Helper methods.** Several C functions are split into one method per loop level, for
  example `CountRows`/`CountRow` and `Recolour`/`RecolourRow`. Each keeps the C loop's
  order and its arithmetic.
- **Where the code does not compile or does not do what it evidently intends.** In these
  places the model follows what the code evidently intends:
  - `bmp8_loadImage` fills the image fields from `img->header` (bmp8.c:21-24) before
    `img` is declared (bmp8.c:26).
  - It reads the 54-byte header twice (bmp8.c:18 and bmp8.c:32). The model reads the
    header once, from the start of the file, and takes the fields from it.
  - `bmp8_saveImage` writes to a `file` it never opens (bmp8.c:93). Its declaration
    returns `int`, 0 or -1 (bmp8.h:48-55), but its definition returns `void`
    (bmp8.c:87). `Save` follows the declaration: it fails with -1 for a NULL image or a
    destination that cannot be opened, and otherwise returns 0.

## Model

| member | source | states |
|---|---|---|
| Bytes.U16At | bmp8.c:23 | the 16-bit field's low byte is `s[k]` and its high byte `s[k+1]` (little-endian) |
| Bytes.U32At | bmp8.c:21-24 | the 32-bit field's four bytes, least significant first, are `s[k..k+4]` |
| Bytes.SubU32 | bmp8equalize.c:61 | unsigned subtraction: `a - b` when `a >= b`, otherwise `a - b + 2^32` |
| Bytes.Clamp | bmp8.c:169-173 | the result is the byte nearest to `v`, and `v` itself when `v` lies in [0, 255] |
| Bytes.ClampMonotone | bmp8.c:166-175 | saturation never reverses the order of two values |
| Bmp8.HasMagic | bmp8.c:39 | a header carries the signature exactly when its first two bytes are 0x42, 0x4D ("BM") |
| Bmp8.Decode | bmp8.c:8-80 | checks the error cases in load order: short header; no "BM"; depth not 8; short colour table; fewer than `dataSize` data bytes. It succeeds exactly when none applies, and then the fields are the little-endian header values and the blocks re-encode to the file's first `1078 + dataSize` bytes |
| Bmp8.Encode | bmp8.c:93-99 | the output is the header, then the colour table, then `data[0..dataSize)`, nothing recomputed |
| Bmp8.DecodeEncode | bmp8.c:87-99 | loading what was saved gives back every well-formed image |
| Bmp8.Image.constructor | bmp8.h:28-38 | the in-memory record holds the given value: a 54-byte header, a 1024-byte colour table and a fresh buffer of `dataSize` bytes |
| Bmp8.Load | bmp8.c:8-80 | returns NULL exactly when the file cannot be opened, a malloc fails or decoding fails; otherwise the image holds the decoded value |
| Bmp8.Save | bmp8.c:87-102 | returns 0 or -1; 0 exactly for a non-NULL image and an opened destination, and then the bytes written are `Encode` of the image, `1078 + dataSize` of them |
| Bmp8.Negated | bmp8.c:149 | the negative has the input's length, and each output byte plus its input byte is 255 |
| Bmp8.Brightened | bmp8.c:166-175 | the change has the input's length; byte `b` becomes 255 when `b + value > 255`, 0 when `b + value < 0`, and `b + value` otherwise |
| Bmp8.Thresholded | bmp8.c:191 | the binarisation has the input's length; every output byte is 0 or 255, and 255 exactly when the input byte is at least the threshold |
| Bmp8.NegatedTwice | bmp8.c:148-150 | applying the negative twice is the identity |
| Bmp8.BrightenedByZero | bmp8.c:165-176 | brightness 0 changes no byte |
| Bmp8.BrightenedOrder | bmp8.c:165-176 | brightness keeps the order of bytes; a change of +255 or more gives 255 and one of -255 or less gives 0 |
| Bmp8.BrightenedTwice | bmp8.c:165-176 | two changes in the same direction equal one change by their sum |
| Bmp8.ThresholdedExample | bmp8.c:190-192 | with threshold 128, bytes 0, 127, 128, 255 become 0, 0, 255, 255 |
| Bmp8.Negative | bmp8.c:142-151 | with image and buffer present, every byte `b` becomes `255 - b`; otherwise nothing changes |
| Bmp8.Brightness | bmp8.c:159-177 | with image and buffer present, every byte `b` becomes `b + value` saturated into [0, 255]; otherwise nothing changes |
| Bmp8.Threshold | bmp8.c:184-193 | with image and buffer present, every byte becomes 255 if it is at least the threshold and 0 otherwise; otherwise nothing changes |
| Equalization.Count | bmp8equalize.c:22 | a level's sample count is at most the number of samples |
| Equalization.HistogramOf | bmp8equalize.c:20-24 | the histogram has 256 bins, none above the number of samples |
| Equalization.HistogramCounts | bmp8equalize.c:20-24 | bin `v` holds exactly the number of samples at level `v` |
| Equalization.HistogramTotal | bmp24equalize.c:96-106 | the bins add up to the number of samples |
| Equalization.Cdf | bmp8equalize.c:39-42 | one cumulative value per bin |
| Equalization.CdfIsPrefixSum | bmp8equalize.c:39-42 | below 2^32 samples nothing wraps, and `cdf[i]` is the sum of bins `0..i` |
| Equalization.CdfMonotone | bmp24equalize.c:114-117 | the cumulative distribution is non-decreasing, and its last value is the total |
| Equalization.FirstPositive | bmp8equalize.c:46-51 | the first positive index: every earlier entry is 0, and it is `|c|` when no entry is positive |
| Equalization.CdfMin | bmp8equalize.c:45-51 | `cdf_min` is 0 exactly when every entry is 0, and is otherwise an entry of the distribution |
| Equalization.CdfMinIsFirstCount | bmp24equalize.c:120-126 | `cdf_min` is the count of the first occupied level, and every lower level is empty |
| Equalization.RoundedScale | bmp8equalize.c:63 | the scaled value is a byte; a difference of 0 gives 0 and a difference equal to the range `m` gives 255 |
| Equalization.RoundedScaleNearest | bmp24equalize.c:131 | `RoundedScale(d, m)` lies within a half of `255 * d / m`, halves rounded up |
| Equalization.RoundedScaleMonotone | bmp8equalize.c:61-64 | the rounded scale is non-decreasing in `d`, sends 0 to 0 and sends `m` to 255 |
| Equalization.FillCdf | bmp8equalize.c:39-42 | the loop leaves `Cdf(hist)`, the unsigned recurrence, in `cdf` |
| Equalization.FindCdfMin | bmp24equalize.c:120-126 | the search returns the first positive entry, or 0 |
| Bmp8Equalize.RowSize | bmp8equalize.c:16-17 | a stored row is a multiple of 4 bytes long, and at least `width` but less than `width + 4` |
| Bmp8Equalize.RowStartIsProduct | bmp8equalize.c:22 | the row offset is `y * rowSize` |
| Bmp8Equalize.RowStartCovers | bmp8equalize.c:20-22 | row `y` starts at least `y * width` bytes into the buffer |
| Bmp8Equalize.PixelCountFits | bmp8equalize.c:20-24 | when the read positions lie in the buffer, `width * height` is at most its size |
| Bmp8Equalize.Pixels | bmp8equalize.c:20-24 | the samples the histogram reads number exactly `width * height` |
| Bmp8Equalize.PixelsAt | bmp8equalize.c:20-24 | sample `x` of row `y` is at `RowStart(width, y) + x` (that is `y * width + x`) in the samples and at `y * rowSize + x` in the buffer, and the two bytes are equal, so the padding is excluded |
| Bmp8Equalize.PixelsKeep | bmp8equalize.c:20-24 | the samples of the first `k` rows are a prefix of the samples of all rows |
| Bmp8Equalize.PixelsLastRow | bmp8equalize.c:21-23 | the samples of the last row follow those of the rows above and are that row's first `width` bytes |
| Bmp8Equalize.NormalisedLevel | bmp8equalize.c:61-64 | for `cdf_min <= c <= N` the entry is the rounded `(c - cdf_min) / (N - cdf_min) * 255`; when `cdf_min < N`, any other `c` gives a difference (after unsigned wrap-around) above the range and is clamped to 255 |
| Bmp8Equalize.Normalised | bmp8equalize.c:60-65 | the normalisation loop yields one entry per cumulative value; `NormalisedLevel` gives each entry |
| Bmp8Equalize.EqualizationTable | bmp8equalize.c:29-68 | there is no table exactly when the total is 0 or equals `cdf_min`; otherwise there are 256 entries |
| Bmp8Equalize.OccupiedFromFirst | bmp8equalize.c:45-51 | every occupied level lies at or above the first level with a positive cumulative value |
| Bmp8Equalize.TableLevels | bmp8equalize.c:59-65 | from the first occupied level on, an entry is the rounded `(cdf[v]-cdf_min)/(N-cdf_min)*255`. The first occupied level maps to 0 and a level whose cumulative value is the total maps to 255. Levels below the first occupied one map to 255 (unsigned wrap, then clamp) |
| Bmp8Equalize.OccupiedLevel | bmp8equalize.c:59-65 | an occupied level `v` has `cdf_min <= cdf[v] <= N` and maps to the rounded `(cdf[v]-cdf_min)/(N-cdf_min)*255`, to no more than any level above it, to 0 when `cdf[v] == cdf_min` and to 255 when `cdf[v] == N` |
| Bmp8Equalize.TableMonotone | bmp8equalize.c:59-65 | from the first occupied level on, the table is non-decreasing |
| Bmp8Equalize.TableWrapsBelowFirst | bmp8equalize.c:61-64 | when level 0 is empty, level 0 maps to 255 and the first occupied level to 0 |
| Bmp8Equalize.EqualizedBytes | bmp8equalize.c:72-86 | a byte at an occupied level becomes its rounded scaled cumulative value. Equalisation keeps the order of such bytes, sends the darkest occupied level to 0 and sends a level holding the total to 255 |
| Bmp8Equalize.Remapped | bmp8equalize.c:84-86 | the remap keeps the buffer's length |
| Bmp8Equalize.RemappedAt | bmp8equalize.c:85 | the byte at each position becomes the table entry `t[b]` of its old value `b` |
| Bmp8Equalize.Equalized | bmp8equalize.c:72-86 | the bytes are left alone exactly when `width * height` is 0 or equals `cdf_min` of the samples' histogram; otherwise the buffer keeps its length and equal bytes become equal bytes |
| Bmp8Equalize.ComputeHistogram | bmp8equalize.c:6-27 | NULL exactly for a NULL image, a NULL buffer or a failed calloc; otherwise the histogram of the `width * height` samples |
| Bmp8Equalize.CountRows | bmp8equalize.c:16-24 | the nested loops leave the histogram of the samples, padding skipped |
| Bmp8Equalize.CountRow | bmp8equalize.c:21-23 | one row's loop adds that row's `width` bytes to the histogram |
| Bmp8Equalize.ComputeCdf | bmp8equalize.c:29-68 | NULL exactly for a NULL histogram, a total of 0, a failed calloc or a total equal to `cdf_min`; otherwise the normalised table |
| Bmp8Equalize.Equalize | bmp8equalize.c:72-90 | when both allocations succeed and the table exists, every byte of the buffer becomes its table entry, padding included; otherwise nothing changes |
| Bmp8Equalize.Remap | bmp8equalize.c:84-86 | every byte `b` becomes `cdf[b]` |
| Bmp24.AllocateDataPixels | bmp24.c:18-37 | NULL exactly when the outer malloc or some row's malloc fails, and then every block allocated so far is freed. On success there are `height` fresh, distinct rows of `width` pixels, all of them live |
| Bmp24Equalize.Level | bmp24equalize.c:101-103 | the luminance index is the rounded luminance, 0 below 0 and 255 above 255 |
| Bmp24Equalize.Yuv2Rgb | bmp24equalize.c:47-49 | each stored channel is the byte nearest to its rounded value, and that value itself when it lies in [0, 255] |
| Bmp24Equalize.RowLevels | bmp24equalize.c:97-103 | a row yields one clamped level per pixel |
| Bmp24Equalize.RowLevelAt | bmp24equalize.c:98-103 | level `x` of a row is the clamped luminance of pixel `x` |
| Bmp24Equalize.LevelsPrefixLength | bmp24equalize.c:96-106 | the first `y` rows yield no more levels than the whole grid |
| Bmp24Equalize.LevelsLength | bmp24equalize.c:88-106 | the histogram pass visits `N = width * height` pixels |
| Bmp24Equalize.HistogramOfLevels | bmp24equalize.c:96-117 | the luminance bins add up to `N`; the cumulative distribution is non-decreasing and `cdf[255] == N` |
| Bmp24Equalize.LevelOccupied | bmp24equalize.c:96-106 | the clamped level of every pixel has a positive count in the histogram |
| Bmp24Equalize.OccupiedEntry | bmp24equalize.c:129-145 | every level the second pass reads is one where the map formula is defined: `cdf_min <= cdf[v] <= N`, and the entry is the rounded scaled difference without wrap-around |
| Bmp24Equalize.MapEntry | bmp24equalize.c:131 | when `cdf_min < N`, an entry equal to `cdf_min` maps to 0 and one equal to `N` maps to 255 |
| Bmp24Equalize.TableOf | bmp24equalize.c:129-132 | the lookup table of a luminance sample has one entry per level, 256 in all |
| Bmp24Equalize.TableOfEntry | bmp24equalize.c:129-132 | entry `i` of the lookup table is the map formula applied to `cdf[i]`, `cdf_min` and `N` |
| Bmp24Equalize.TableShape | bmp24equalize.c:129-132 | from the first occupied level on, the map is non-decreasing; the first occupied level maps to 0 and level 255 maps to 255 |
| Bmp24Equalize.RecolouredRow | bmp24equalize.c:136-149 | a row is recoloured pixel by pixel and keeps its length |
| Bmp24Equalize.Remapped | bmp24equalize.c:135-150 | the second pass keeps the number of rows, each recoloured by `RecolouredRow` |
| Bmp24Equalize.Recoloured | bmp24equalize.c:137-148 | a pixel's new channels are those converted back from its mapped level and its own chrominance, each kept as is when it lies in [0, 255] |
| Bmp24Equalize.Equalized | bmp24equalize.c:135-150 | the output grid has the input's shape, and equal input pixels give equal output pixels |
| Bmp24Equalize.EqualizedPixel | bmp24equalize.c:135-150 | each output pixel is `yuv2rgb` of its own chrominance and the rounded `(cdf[v]-cdf_min)/(N-cdf_min)*255` of its own level `v` |
| Bmp24Equalize.Equalize | bmp24equalize.c:85-154 | with an image and pixel data present: if both callocs succeed, the grid becomes `Equalized` of the old grid; otherwise nothing changes |
| Bmp24Equalize.LuminanceTable | bmp24equalize.c:93-132 | NULL exactly when a calloc fails; otherwise the map built from the luminance histogram |
| Bmp24Equalize.CountLevels | bmp24equalize.c:96-106 | the nested loops leave the histogram of all clamped levels, row by row |
| Bmp24Equalize.CountRow | bmp24equalize.c:97-105 | one row's loop adds the row's levels to the histogram |
| Bmp24Equalize.LevelMap | bmp24equalize.c:129-132 | the `map[]` loop yields one entry per cumulative value; `TableOfEntry` gives each entry |
| Bmp24Equalize.FillMap | bmp24equalize.c:129-132 | the table holds the map entry of every cumulative value |
| Bmp24Equalize.Recolour | bmp24equalize.c:135-150 | every row is recoloured from the table and the original pixels |
| Bmp24Equalize.RecolourRow | bmp24equalize.c:136-149 | each pixel of the row is rewritten from its own original value |
| BitDepth.DetectBitDepth | main.c:10-19 | the result is -1, 8 or 24, and -1 when the file cannot be opened. It is 8 exactly when the u16 at offset 28 is 8, and 24 exactly when that field is 24 |
| BitDepth.DecodedIsEightBit | main.c:13-18 | every file the 8-bit loader accepts is detected as 8-bit |

## Left out

- The interactive menus and input loops of `main.c` (`applyFilters8`, `applyFilters24`, `main`, main.c:22-198): user interface.
- `file_rawRead` / `file_rawWrite` (bmp24.c:6-16) and the real `fopen`, `fread`, `fwrite`, `fseek` and `fclose` calls: file I/O. The 8-bit codec works on byte sequences instead.
- The diagnostics printed by `printf` and `perror`, including the debug line in `detectBitDepth`: output only.
- The float arithmetic of `rgb2yuv` and the `roundf` calls in `yuv2rgb`: these are the `ColourSpace` parameters. The `double` and `float` map formulas are computed in exact arithmetic, so single- and double-precision rounding error is not modelled.
- Bmp24Equalize.MapEntry: where the C map formula is undefined behaviour, the model puts 0. These are the entries with `cdf[i] < cdf_min`, whose unsigned difference wraps and overflows the `uint8_t` cast, and every entry when `N == cdf_min`, which divides by zero. `OccupiedEntry` shows that no pixel reads such an entry. `Equalize` requires `N > cdf_min` whenever both callocs succeed.
- Bmp8.Brightness: requires `value` to lie in the 32-bit `int` range with room for 255 more, since `data[i] + value` in `int` overflows otherwise, which C leaves undefined.
- Bmp24Equalize.Equalize: requires `width * height < 2^31`, since the C computes it in `int`.
- Bmp8Equalize.ComputeHistogram: requires every position `y * rowSize + x` the histogram reads to lie inside the buffer (`PixelsFit`). A header whose `dataSize` is too small for its width and height makes the C read out of bounds.
- `bmp8_applyFilter` (bmp8.h:102): declared, but its code is not part of this model.
- `bmp24_loadImage`, `bmp24_saveImage`, `bmp24_negative`, `bmp24_brightness`, `bmp24_grayscale` and `bmp24_free` (called at main.c:73-82, 126, 137, 162 and 190): their code is not part of this model. The `t_pixel` and `t_bmp24` definitions are not part of it either, so `Bmp24.Pixel` and `Bmp24.Image` hold only what `bmp24_equalize` uses.
- `bmp8_printInfo` (bmp8.c:123-134) and `bmp8_free` (bmp8.c:109-116): printing and deallocation.
- The `rowPadding` field (bmp8.h:37): never assigned or read.
- Stray comment terminators at bmp24.c:5 and bmp24.c:12, and a stray `/` before `#ifndef` at bmp8equalize.h:1: these are debris, not logic.
- Bmp24.AllocateDataPixels: takes natural width and height. A negative C `int` becomes a huge `size_t` in the `malloc` size, so that `malloc` fails in practice and NULL is returned; the model does not represent that case.
- BitDepth.DetectBitDepth: when the file is shorter than 30 bytes, `fread` leaves `bits` unset. The model takes that value as a parameter `unread`.
- Concurrency: none, as the library is single-threaded.
