# bmpfile_merger — verified model of the monochrome layout logic

`BmpOneBitImageMergerController` is a JavaFX controller that lays a body image and a
repeated border image side by side, converts the merged picture to a 1-bit
(black/white) pixel buffer, saves it as a BMP and re-reads the saved header to check it.
Three pieces of plain logic sit inside the UI code, and this Dafny project models and proves
each of them:

- **Row packing** (`RowPacking`, `row_packing.dfy`). The row stride is `(width + 7) / 8` bytes
  rounded up to a multiple of 4. The buffer starts zeroed and holds `stride * height` bytes,
  rows top-down at `y * stride`. The nested `y`/`x` loop sets (white) or clears (black) bit
  `7 - x % 8` of byte `y * stride + x / 8`. The model keeps the loop and the in-place update
  of an `array<bv8>`. The white/black decision of each pixel is an input grid `seq<seq<bool>>`.
  The loop is proved against `PacksGrid`: every pixel's bit is its colour, and every bit
  past `width` in a row is clear. Lemmas show that this pins the buffer down uniquely and that
  the padding bytes are zero.
- **Header check** (`BmpHeader`, `bmp_header.dfy`). Fields are read from the 54-byte
  BITMAPFILEHEADER + BITMAPINFOHEADER at fixed offsets as little-endian Java `int`s, and
  bits-per-pixel as a `short`. Each decoding is proved to be a bijection onto its byte range
  (round trips in both directions), so each field depends on its own bytes and no others.
  The three warnings are returned as values. Each is raised exactly when its condition
  fails, and that condition is also stated directly on the raw bytes.
- **Border tiling** (`BorderTiling`, `border_tiling.dfy`). The merged canvas is
  `(bodyWidth + borderWidth) x bodyHeight`. The border column is covered by destination
  rectangles that start at `0, borderHeight, 2 * borderHeight, ...`, the last one shortened to
  the rows that remain. The model
  keeps the `while` loop. It proves that the tiles stack without gap or overlap over the
  canvas height, that every row is covered exactly once, and how many tiles there are.

Rows are packed top-down at `y * stride`, as the code writes them.

## Model

| member | source | states |
|---|---|---|
| `RowPacking.PaddedBytesPerRow` | src/main/java/com/example/bmpfile_merger/BmpOneBitImageMergerController.java:145-146 | the padded stride is a multiple of 4, at least `(width+7)/8` and below `(width+7)/8 + 4`, so the least multiple of 4 that holds the row's bytes |
| `RowPacking.PaddedStrideBounds` | src/main/java/com/example/bmpfile_merger/BmpOneBitImageMergerController.java:145-146 | the stride equals `(width+7)/8` when that is already a multiple of 4, and `8 * stride >= width`, so a padded row holds every pixel |
| `RowPacking.PaddedStrideIsWholeWords` | src/main/java/com/example/bmpfile_merger/BmpOneBitImageMergerController.java:145-146 | the stride equals an independent definition, `ceil(width / 32) * 4` (one 4-byte word per started group of 32 pixels) |
| `RowPacking.Mask` | src/main/java/com/example/bmpfile_merger/BmpOneBitImageMergerController.java:164-166 | the mask used for bit `k` is `1 << k` |
| `RowPacking.WithBit` | src/main/java/com/example/bmpfile_merger/BmpOneBitImageMergerController.java:163-167 | the byte after one step, OR `1 << k` for white or AND `~(1 << k)` for black: bit `k` is the pixel's colour and the other seven bits are unchanged |
| `RowPacking.ByteIndex` | src/main/java/com/example/bmpfile_merger/BmpOneBitImageMergerController.java:160 | the byte `y*stride + x/8` of a pixel inside the padded row lies in row `y`, between `y*stride` and `(y+1)*stride` |
| `RowPacking.BitIndex` | src/main/java/com/example/bmpfile_merger/BmpOneBitImageMergerController.java:161 | the bit position `7 - x%8` is below 8, and it is 7, the most significant bit, exactly for the first pixel of a byte (`x % 8 == 0`) |
| `RowPacking.SetPixel` | src/main/java/com/example/bmpfile_merger/BmpOneBitImageMergerController.java:163-167 | the in-place step changes only the target byte, to the value `WithBit` gives |
| `RowPacking.SetPixelEffect` | src/main/java/com/example/bmpfile_merger/BmpOneBitImageMergerController.java:160-167 | one step on the buffer changes the bit of pixel (x, y) to its colour and the bit of every other pixel slot of the padded rows not at all |
| `RowPacking.SlotInjective` | src/main/java/com/example/bmpfile_merger/BmpOneBitImageMergerController.java:160-161 | two pixel slots of the padded rows with the same byte index and bit index are the same pixel |
| `RowPacking.SlotOfBit` | src/main/java/com/example/bmpfile_merger/BmpOneBitImageMergerController.java:148-161 | every bit of the `stride * height` buffer belongs to some pixel slot (x < 8 * stride, y < height) |
| `RowPacking.PixelIndexInBounds` | src/main/java/com/example/bmpfile_merger/BmpOneBitImageMergerController.java:148-161 | for every pixel of the image, `y*stride + x/8` lies in `[0, stride*height)` and `7 - x%8` lies in `0..7` |
| `RowPacking.PackPixels` | src/main/java/com/example/bmpfile_merger/BmpOneBitImageMergerController.java:145-169 | the buffer built by the loop has `stride * height` bytes, each pixel's bit is set exactly when the pixel is white, and every bit past `width` in each padded row is clear |
| `RowPacking.PackedPixelIs` | src/main/java/com/example/bmpfile_merger/BmpOneBitImageMergerController.java:154-169 | reading back: bit `7 - x%8` of byte `y*stride + x/8` is set exactly when pixel (x, y) is white, so `x % 8 == 0` is the most significant bit |
| `RowPacking.PaddingBytesZero` | src/main/java/com/example/bmpfile_merger/BmpOneBitImageMergerController.java:148-167 | the padding bytes of each row, from `(width+7)/8` up to the stride, stay zero |
| `RowPacking.PackingUnique` | src/main/java/com/example/bmpfile_merger/BmpOneBitImageMergerController.java:148-169 | the packed buffer is uniquely determined by the grid |
| `BmpHeader.LeInt32` | src/main/java/com/example/bmpfile_merger/BmpOneBitImageMergerController.java:220-227 | `getInt` on four little-endian bytes gives the one Java `int` congruent to their unsigned value modulo 2^32; it is negative exactly when the top bit of the last byte is set |
| `BmpHeader.LeInt16` | src/main/java/com/example/bmpfile_merger/BmpOneBitImageMergerController.java:226 | `getShort` on two little-endian bytes gives the one Java `short` congruent to their unsigned value modulo 2^16; it is negative exactly when the top bit of the second byte is set |
| `BmpHeader.Int32BytesRoundTrip` | src/main/java/com/example/bmpfile_merger/BmpOneBitImageMergerController.java:220-227 | four bytes read as a little-endian Java `int` give a 32-bit value whose encoding is exactly those bytes |
| `BmpHeader.Int32ValueRoundTrip` | src/main/java/com/example/bmpfile_merger/BmpOneBitImageMergerController.java:220-227 | encoding a 32-bit value and reading it back with `getInt` gives the same value |
| `BmpHeader.Int16BytesRoundTrip` | src/main/java/com/example/bmpfile_merger/BmpOneBitImageMergerController.java:226 | two bytes read as a little-endian `short` give a 16-bit value whose encoding is exactly those bytes |
| `BmpHeader.Int16ValueRoundTrip` | src/main/java/com/example/bmpfile_merger/BmpOneBitImageMergerController.java:226 | encoding a 16-bit value and reading it back with `getShort` gives the same value |
| `BmpHeader.DecodeHeader` | src/main/java/com/example/bmpfile_merger/BmpOneBitImageMergerController.java:219-227 | each decoded field is the two's-complement value whose little-endian encoding is exactly its byte range: 0..2 signature, 2..6 file size, 10..14 offset, 14..18 info size, 18..22 width, 22..26 height, 28..30 bits-per-pixel, 46..50 colours used |
| `BmpHeader.FieldsDependOnlyOnTheirBytes` | src/main/java/com/example/bmpfile_merger/BmpOneBitImageMergerController.java:219-227 | two headers decode to the same value of a field exactly when they agree on that field's bytes |
| `BmpHeader.IsBmSignature` | src/main/java/com/example/bmpfile_merger/BmpOneBitImageMergerController.java:240 | the signature is accepted exactly when it is the two character codes of `B` and `M`, which read as a little-endian word is the BMP magic number `0x4D42` |
| `BmpHeader.Warnings` | src/main/java/com/example/bmpfile_merger/BmpOneBitImageMergerController.java:240-248 | a warning is raised for a signature other than "BM", for bits-per-pixel other than 1 and for colours-used other than 2, each exactly when its condition holds, with the value found; no other warning is raised; no warning at all exactly when all three conditions are met |
| `BmpHeader.VerifyHeader` | src/main/java/com/example/bmpfile_merger/BmpOneBitImageMergerController.java:219-248 | on the raw header bytes: each kind of warning is raised exactly when bytes 0..2 are not `42 4D`, bytes 28..30 are not `01 00`, or bytes 46..50 are not `02 00 00 00`; no warning exactly when all three hold; at most three warnings |
| `BmpHeader.ZeroHeaderWarnsThrice` | src/main/java/com/example/bmpfile_merger/BmpOneBitImageMergerController.java:213-248 | a header left all zero (a read that returned no bytes) draws exactly the three warnings, with signature `00 00`, bits-per-pixel 0 and colours 0 |
| `BmpHeader.ShortReadWarnings` | src/main/java/com/example/bmpfile_merger/BmpOneBitImageMergerController.java:213-248 | a read that fills only the first `n` bytes draws the signature warning for `n < 2`, the bits-per-pixel warning with value 0 for `n <= 28` and the colours warning with value 0 for `n <= 46` |
| `BorderTiling.MergeLayout` | src/main/java/com/example/bmpfile_merger/BmpOneBitImageMergerController.java:82-103 | merged size is `(bodyWidth + borderWidth) x bodyHeight`; the body is drawn at the origin; tile `i` sits at x = bodyWidth, starts at `i * borderHeight` and is `min(borderHeight, mergedHeight - start) > 0` high; for a positive border height the tiles stack contiguously from 0 to the merged height; the loop terminates |
| `BorderTiling.BorderTilesPartitionColumn` | src/main/java/com/example/bmpfile_merger/BmpOneBitImageMergerController.java:93-103 | contiguous tiles cover every canvas row exactly once (no gap, no overlap) and lie inside the canvas |
| `BorderTiling.TileCount` | src/main/java/com/example/bmpfile_merger/BmpOneBitImageMergerController.java:93-103 | the number of tiles is zero exactly for an empty canvas, and otherwise the least `n` with `n * borderHeight >= mergedHeight` |
| `BorderTiling.ContiguousCovers` | src/main/java/com/example/bmpfile_merger/BmpOneBitImageMergerController.java:93-103 | every row between the top and bottom of a contiguous stack of tiles lies in some tile |
| `BorderTiling.ContiguousDisjoint` | src/main/java/com/example/bmpfile_merger/BmpOneBitImageMergerController.java:93-103 | no row lies in two different tiles of a contiguous stack |
| `BorderTiling.CursorAfter` | src/main/java/com/example/bmpfile_merger/BmpOneBitImageMergerController.java:93-102 | in the loop as written, `currentBorderY` after n passes of `+= borderHeight` is `n * borderHeight` |
| `BorderTiling.ZeroHeightBorderNeverAdvances` | src/main/java/com/example/bmpfile_merger/BmpOneBitImageMergerController.java:93-103 | in the loop as written, with border height 0 and a body of positive height, the cursor stays 0 and the guard holds after every number of passes, so the loop does not end |
| `BorderTiling.PassesAsWritten` | src/main/java/com/example/bmpfile_merger/BmpOneBitImageMergerController.java:93-103 | in the loop as written, with a positive border height, the guard first fails after the least number of passes whose steps reach the merged height; that number is 0 exactly for an empty canvas |

## Findings

| source | as written | input that shows it | evidently intended | confidence | as-written member | corrected member |
|---|---|---|---|---|---|---|
| src/main/java/com/example/bmpfile_merger/BmpOneBitImageMergerController.java:93-103 | the border loop advances `currentBorderY` by `borderHeight` and never checks that it is positive | a border image that failed to load (JavaFX reports its height as 0) with a body of height 1 or more: `currentBorderY` stays 0 and the loop never ends, freezing the UI thread | stop without drawing any border tile, since every tile would be 0 rows high | not executed; follows from the loop text and JavaFX's documented 0 size for an image whose loading failed | `BorderTiling.ZeroHeightBorderNeverAdvances` | `BorderTiling.MergeLayout` |

## Left out

- JavaFX event handlers, file choosers, alerts, the status label, the image view and the save button's visibility are UI glue. So are the null checks on the two images, which only raise alerts.
- Drawing onto the `Canvas` and taking its `snapshot` are graphics-library calls. Only the rectangles passed to `drawImage` are modelled.
- `drawImage(img, x, y, w, h)` scales the whole border image into its destination rectangle, so the last, shortened border copy is squashed rather than cropped. The model computes the rectangles only, not the pixels drawn into them.
- `Color.getBrightness() > 0.5` is floating-point colour conversion. It is replaced by the input grid of white/black decisions.
- `IndexColorModel`, `WritableRaster.setDataElements` and `ImageIO.write` are library calls. How the library reads the packed buffer and writes the file, including the bottom-up row order of the BMP on disk, is not part of this model.
- File reading in `verifyBmpHeader` is I/O, and so is the printing of fields and warnings. The header is an input of exactly 54 bytes, which a short read leaves partly zero. The warnings are returned as values instead of being printed.
- `BmpHeader.IsBmSignature`: `new String(bytes)` is compared with "BM". This is modelled as the two bytes being `0x42 0x4D`, which holds under an ASCII-compatible default charset such as UTF-8. Other charsets are not modelled.
- `RowPacking.PackPixels`: does not model Java's 32-bit `int` overflow. That overflow happens for `width + 7` above 2^31 - 1 or `stride * height` above 2^31 - 1, where Java would wrap or throw. No image the controller can create is that large.
- `BorderTiling.MergeLayout`: does not model `int` overflow of `bodyWidth + borderWidth`. It treats the `double` cursor as an integer, which is exact for every image height below 2^53. For a border of height 0 it draws no tiles, where, for a body of positive height, the loop of `handleMergeImages` never ends (see Findings).
