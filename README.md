# JPEG block coding and local image operations, in Dafny

This project models two small image-processing programs.

- **The JPEG coder in `a3/jpeg.py`.** A YCbCr image is padded to a multiple of 8 in both
  directions and cut into 8x8 blocks. The two passes set up the streams, their cursors and
  the block traversal, and their step comments say what each block step does. The steps
  themselves are empty stubs (`pass`), including the stream steps: Step 3 and Step 4 of
  `forwardJPEG` (lines 193-213) and both extraction steps of `inverseJPEG` (lines 285-302).
  As written, the cursors stay at 0, the buffers keep whatever `np.empty` left in them, the
  debug dump writes no values and `jpegImage` is not filled in.
  The model completes the stream steps as their comments describe them. Per block and per
  channel, the forward pass (`forwardJPEG`) stores one DC coefficient at the channel's DC
  cursor and the 63 AC coefficients at its AC cursor, in the order of the `zigzag` table, so
  that AC coefficient (u, v) of block b lands in slot 63b + zigzag[u][v] - 1. Each cursor,
  `DCencodingIndex[k]` or `ACencodingIndex[k]`, is used and then advanced. The inverse pass
  (`inverseJPEG`) resets the cursors and reads the streams back in the same order, AC values
  before the DC value as the comments order them, into a fresh `Nrows x Ncols x 3` array,
  `jpegImage`. This slot layout is the model's own completion and is not code of the source.
  The quantisation table and the zigzag table are constants of the program.
- **The image editor in `a1/main.py`.** The model covers two of its operations on the
  YCbCr image:
  - brightness and contrast, applied to the intensity Y of a snapshot taken when the mouse
    went down and clamped to [0, 255];
  - local histogram equalisation of Y over a square window of radius `localHistoRadius`,
    which the `+` and `-` keys change.

  Neither of them changes Cb or Cr. The third operation, `scaleImage`, is not modelled (see
  "Left out").

The state the source updates in place is modelled as classes:
- `JpegCodec.Codec` holds `Nrows`, `Ncols`, the two stream buffers, the two cursor lists and
  `jpegImage`.
- `Imaging.Editor` holds `currentImage`, `tempImage` and `localHistoRadius`.

Their methods are loops over `array2`/`array3`. Each loop method is proved against a
specification function on values:
- `Pack`/`Unpack` for the streams;
- `PadImage` for the padding;
- `AdjustedIntensity`/`EqualizedAt` for the editor.

The properties the programs rely on are proved about those functions:
- the streams round trip;
- zigzag is a permutation that scans anti-diagonals in order;
- padding keeps every original pixel;
- every running sum lies in [1, (2r+1)^2];
- equalisation is monotone.

The DCT and quantisation steps of the coder are empty stubs in the source (`pass`), as
are the stream steps that the model completes. The model treats the block coefficients as
given. So the forward pass receives the coefficient image `coef`, and the inverse pass
stores the coefficients it decodes.

Python 2 integer division is what the source uses in `256/(2 * radius + 1) ** 2`. It is
modelled exactly: the scale is floored before it multiplies the running sum. As a
consequence, a radius of 8 or more gives every pixel the lookup value -1
(`EqualizedLargeRadius`). The 8-bit image clips that value to 0 when it is stored.
For radius 1 to 7, every lookup value already lies in [0, 255] and is stored as it is
(`EqualizedStoredExactly`).

## Model

| member | source | states |
|---|---|---|
| JpegTables.ScanPosition | a3/jpeg.py:111-120 | the zigzag entry of coefficient (u, v) is a scan position in [0, 64), and `BlockPosition` maps it back to (u, v) |
| JpegTables.BlockPosition | a3/jpeg.py:111-120 | every scan position 0..63 is the zigzag entry of some coefficient of the block |
| JpegTables.ZigzagIsPermutation | a3/jpeg.py:111-120 | zigzag takes values in [0, 64), is injective, and its set of values is exactly 0..63 |
| JpegTables.DCFirst | a3/jpeg.py:111-120 | the DC coefficient (0, 0) comes first, and every AC coefficient has a position in 1..63, so an AC slot in 0..62 |
| JpegTables.ZigzagCovers | a3/jpeg.py:111-120 | every scan position is taken by some coefficient |
| JpegTables.ZigzagIsScanTable | a3/jpeg.py:111-120 | the literal table satisfies `IsScanTable`: 8x8, DC first, values in range, injective, covering |
| JpegTables.ScanTableAC | a3/jpeg.py:111-120 | in any scan table, an AC coefficient has a position in 1..63 |
| JpegTables.ScanTableInjective | a3/jpeg.py:111-120 | in any scan table, distinct coefficients have distinct positions |
| JpegTables.DiagonalLength | a3/jpeg.py:111-120 | anti-diagonal d of an 8x8 block has between 1 and 8 cells |
| JpegTables.ZigzagIsDiagonalScan | a3/jpeg.py:111-120 | zigzag equals the independent definition `DiagonalScan` (anti-diagonals in order, alternating direction) |
| JpegTables.UpperHalfIsDiagonalScan | a3/jpeg.py:112-115 | rows 0-3 of zigzag agree with `DiagonalScan` |
| JpegTables.LowerHalfIsDiagonalScan | a3/jpeg.py:116-119 | rows 4-7 of zigzag agree with `DiagonalScan` |
| JpegTables.DiagonalStartStep | a3/jpeg.py:111-120 | anti-diagonal d + 1 starts where anti-diagonal d ends |
| JpegTables.ZigzagWithinDiagonal | a3/jpeg.py:111-120 | the position of (u, v) lies inside the range of anti-diagonal u + v |
| JpegTables.DiagonalStartMonotone | a3/jpeg.py:111-120 | later anti-diagonals start later |
| JpegTables.ZigzagDiagonalOrder | a3/jpeg.py:111-120 | a coefficient on an earlier anti-diagonal is scanned before one on a later anti-diagonal |
| JpegTables.QuantizationTablePositive | a3/jpeg.py:78-106 | the quantisation table is 3x8x8 and every divisor is positive |
| JpegTables.ChromaTablesIdentical | a3/jpeg.py:89-105 | the two chroma tables are equal |
| JpegStreams.NumBlocks | a3/jpeg.py:151-152 | the number of 8x8 blocks per channel, (Nrows/8)·(Ncols/8): the DC buffer's length per channel, and 1/63 of the AC buffer's; `BlockOfInRange` and `BlockInImage` show that it numbers exactly the blocks of the image |
| JpegStreams.BlockInImage | a3/jpeg.py:166-172 | block b < nb has an aligned top-left corner inside the image, and that corner's block number is b |
| JpegStreams.CellInBlock | a3/jpeg.py:166-172 | every pixel of the block at (i, j) has offset (r - i, col - j) and belongs to that block |
| JpegStreams.NextBlockInRow | a3/jpeg.py:166-171 | the block 8 columns to the right of a block is the next block in raster order |
| JpegStreams.NextBlockRow | a3/jpeg.py:166-171 | the block after the last block of a row of blocks is the first block of the next row |
| JpegStreams.BlockOfInRange | a3/jpeg.py:151-152 | every pixel's block number is below nb = (Nrows/8)(Ncols/8) |
| JpegStreams.Position | a3/jpeg.py:209 | the coefficient a scan table visits at position p is in the block and has entry p |
| JpegStreams.Pack | a3/jpeg.py:148-213 | the forward pass's streams have nb DC entries and 63·nb AC entries per channel |
| JpegStreams.Unpack | a3/jpeg.py:285-302 | the inverse pass's coefficient image is Nrows x Ncols x 3 |
| JpegStreams.BlockCorner | a3/jpeg.py:166-172 | the corner of the block holding (r, col) is (r - r%8, col - col%8) |
| JpegStreams.ACSlot | a3/jpeg.py:204-213 | AC slot 63b + zigzag[u][v] - 1 belongs to block b and decodes back to coefficient (u, v) |
| JpegStreams.PackedCell | a3/jpeg.py:193-213 | reading any pixel back from the packed streams gives its coefficient |
| JpegStreams.UnpackPack | a3/jpeg.py:166-213 | unpack after pack is the identity on coefficient images |
| JpegStreams.UnpackedCell | a3/jpeg.py:287-302 | the inverse pass reads the DC slot for (0, 0) and AC slot 63b + zigzag[u][v] - 1 for any other cell |
| JpegStreams.PackedBlockCell | a3/jpeg.py:193-213 | the forward pass stores the DC coefficient at DC slot b and the coefficient (u, v) at AC slot 63b + zigzag[u][v] - 1 |
| JpegStreams.PackLayout | a3/jpeg.py:193-213 | the packed streams hold every block in that layout |
| JpegStreams.UnpackLayout | a3/jpeg.py:285-302 | the streams hold the unpacked image's blocks in that layout |
| JpegStreams.UnpackedBlockCell | a3/jpeg.py:285-302 | the inverse pass reads coefficient (u, v) of a block from DC slot b for (0, 0) and from AC slot 63b + zigzag[u][v] - 1 otherwise |
| JpegStreams.RepackedDC | a3/jpeg.py:193-201 | each DC slot survives unpacking and repacking |
| JpegStreams.RepackedAC | a3/jpeg.py:204-213 | each AC slot survives unpacking and repacking |
| JpegStreams.PackUnpack | a3/jpeg.py:166-213 | pack after unpack is the identity on well-shaped streams |
| JpegPadding.PaddedSize | a3/jpeg.py:848-852 | the padded size is the least multiple of 8 that is at least n |
| JpegPadding.WhiteRow | a3/jpeg.py:63 | a row of n pixels, each YCbCr white (255, 128, 128) |
| JpegPadding.PadRows | a3/jpeg.py:848-849 | appended rows are white and full width, the old rows are kept, and the height becomes a multiple of 8 |
| JpegPadding.PadRow | a3/jpeg.py:851-852 | a row keeps its pixels and is extended with white up to a multiple of 8 |
| JpegPadding.PadColumns | a3/jpeg.py:851-852 | every row keeps its pixels and gains white columns up to the padded width |
| JpegPadding.PadImage | a3/jpeg.py:848-852 | the padded image is rectangular, of the padded height and width |
| JpegPadding.PadImageSpec | a3/jpeg.py:846-852 | both sizes become multiples of 8, each grows by fewer than 8, original pixels keep place and value, and every added pixel is white |
| JpegPadding.PadAligned | a3/jpeg.py:848-852 | an image with both sizes already multiples of 8 is unchanged |
| JpegPadding.PadIdempotent | a3/jpeg.py:848-852 | padding a padded image changes nothing |
| JpegCodec.DecodedAll | a3/jpeg.py:277-330 | once every pixel is decoded, the array's contents equal the target image |
| JpegCodec.Codec.constructor | a3/jpeg.py:133-137 | a coder starts with no buffers and all six cursors at 0 (lines 133-137); Nrows = Ncols = 0 and no `jpegImage` (lines 27-31); the zigzag table of lines 111-120 as its scan table |
| JpegCodec.Codec.ResetCursors | a3/jpeg.py:158-160 | every channel's DC and AC cursor is set to 0 (also lines 267-269) |
| JpegCodec.Codec.PackAC | a3/jpeg.py:204-213 | the 63 AC coefficients of block (i, j), channel k, go to slots cursor + zigzag[u][v] - 1; the cursor advances by 63; nothing else is written |
| JpegCodec.Codec.PackACRow | a3/jpeg.py:204-213 | row u of the block goes to its zigzag slots; other rows' slots and other entries are unchanged |
| JpegCodec.Codec.PackBlock | a3/jpeg.py:193-213 | one channel of one block: the DC entry and 63 AC entries match `Pack`, and the cursors move to the next channel |
| JpegCodec.Codec.EncodeBlock | a3/jpeg.py:172-213 | the three channels of block b are encoded; the streams match `Pack` up to block b + 1 |
| JpegCodec.Codec.EncodeBlockRow | a3/jpeg.py:171-213 | a row of blocks is encoded; the streams match `Pack` up to the next row's first block |
| JpegCodec.Codec.EncodeBlocks | a3/jpeg.py:166-213 | all nb blocks are encoded in raster order; the streams match `Pack` throughout |
| JpegCodec.Codec.CursorsNextBlock | a3/jpeg.py:193-213 | after the three channels of block b, both cursors point at block b + 1 |
| JpegCodec.Codec.EncodedNextBlock | a3/jpeg.py:172-213 | finishing the last channel of block b is the start of block b + 1 |
| JpegCodec.Codec.EncodingComplete | a3/jpeg.py:166-213 | with every block encoded, the buffers equal `Pack` |
| JpegCodec.Codec.ForwardJPEG | a3/jpeg.py:142-213 | fresh buffers of nb and 63·nb per channel; the buffers equal `Pack(coef)`; final cursors nb and 63·nb |
| JpegCodec.Codec.UnpackAC | a3/jpeg.py:287-293 | the 63 AC entries at the cursor are written to their zigzag cells of block (i, j); the cursor advances by 63; nothing else changes |
| JpegCodec.Codec.UnpackACBlock | a3/jpeg.py:287-293 | the rows of block (i, j) in channel k are read from the 63 AC slots starting at the given base, each coefficient from its zigzag slot; no cell outside the block's AC cells changes |
| JpegCodec.Codec.UnpackACRow | a3/jpeg.py:287-293 | row u of the block is read from its zigzag slots; no other cell changes |
| JpegCodec.Codec.UnpackBlock | a3/jpeg.py:285-302 | one channel of one block is decoded to the target image; the cursors move to the next channel; nothing outside the block changes |
| JpegCodec.Codec.DecodeBlock | a3/jpeg.py:283-321 | the three channels of block (i, j) are decoded, extending the decoded prefix by one block |
| JpegCodec.Codec.DecodeBlockRow | a3/jpeg.py:282-321 | a row of blocks is decoded |
| JpegCodec.Codec.DecodeBlocks | a3/jpeg.py:277-321 | every block is decoded in raster order; the cursors end at nb |
| JpegCodec.Codec.InverseJPEG | a3/jpeg.py:255-330 | the streams are left as they are; `jpegImage` is a fresh array holding `Unpack` of them; final cursors nb and 63·nb |
| JpegCodec.Codec.EncodeDecode | a3/jpeg.py:722-725 | the `c` key's forward then inverse pass leaves fresh streams holding `Pack` of the coefficient image, with cursors at nb and 63·nb, and a fresh `jpegImage` that is exactly the coefficient image |
| JpegCodec.Codec.DebugDump | a3/jpeg.py:228-242 | the debug output lists, per channel, exactly the filled prefix of each stream (up to its cursor) |
| JpegCodec.Codec.LoadImage | a3/jpeg.py:846-858 | the returned image is the padded image; Nrows and Ncols are its shape, both multiples of 8 |
| Imaging.AdjustedIntensity | a1/main.py:79-87 | the new intensity is in [0, 255]; it is the integer part of contrast·Y + brightness when that lies in range, 255 above the range, and 0 below it |
| Imaging.Adjusted | a1/main.py:77-88 | the written pixel keeps Cb and Cr and gets an intensity in [0, 255] |
| Imaging.AdjustedIntensityMonotone | a1/main.py:79-87 | with non-negative contrast, brighter pixels stay at least as bright |
| Imaging.AdjustedIntensityNeutral | a1/main.py:79-87 | brightness 0 and contrast 1 leave every 8-bit intensity unchanged |
| Imaging.Clamp | a1/main.py:115-123 | a clamped neighbour coordinate lies in the image; it is the image coordinate nearest the unclamped one; it is unchanged when already inside |
| Imaging.AtMost | a1/main.py:133 | the count of samples at most c never exceeds the number of samples |
| Imaging.WindowColumn | a1/main.py:111-123 | each neighbour column has 2r + 1 samples |
| Imaging.WindowPrefixSize | a1/main.py:110-127 | after n neighbour columns, n(2r + 1) samples have been visited |
| Imaging.WindowSize | a1/main.py:110-127 | a window holds (2r + 1)^2 samples |
| Imaging.HistogramTotal | a1/main.py:108-127 | on an 8-bit image, the local histogram counts sum to (2r + 1)^2 |
| Imaging.AtMostAll | a1/main.py:133 | when all samples are at most c, the count is all of them |
| Imaging.WindowIsBytes | a1/main.py:126-127 | every window sample is an intensity of the image, so an 8-bit value |
| Imaging.CentreInWindow | a1/main.py:110-129 | the centre pixel is one of its own window's samples |
| Imaging.AtMostPositive | a1/main.py:133 | if c is a sample, the count of samples at most c is at least 1 |
| Imaging.RunningSumBounds | a1/main.py:129-133 | each pixel's running sum lies in [1, (2r + 1)^2] |
| Imaging.HistogramStep | a1/main.py:126-127 | counting one more sample adds one to its intensity's count |
| Imaging.HistSumIncrement | a1/main.py:133 | adding one to a count changes the sum of counts up to c by one exactly when that intensity is at most c |
| Imaging.HistSumCountsAtMost | a1/main.py:133 | summing the counts of intensities up to c gives the number of samples at most c |
| Imaging.HistSumZero | a1/main.py:108 | a histogram of zero counts sums to 0 |
| Imaging.Equalized | a1/main.py:137 | the lookup value `(256 / (2r + 1)^2) * runningSum - 1`, with the division floored as in Python 2; its monotonicity, range and large-radius value are the lemmas below |
| Imaging.EqualizedAt | a1/main.py:107-137 | one pixel's lookup value: `Equalized` of the number of its window samples at most its own intensity, which `LocalHistogram` and `RunningSum` compute |
| Imaging.EqualizedMonotone | a1/main.py:137 | a larger running sum never gives a smaller equalised intensity |
| Imaging.WindowArea | a1/main.py:137 | the window area (2r + 1)^2 is at least 2r + 1, so the division by it is defined |
| Imaging.EqualizedRange | a1/main.py:137 | for radius 1..7, every running sum in [1, (2r + 1)^2] gives an intensity in [0, 255] |
| Imaging.EqualizedEnds | a1/main.py:137 | for radius 1..7, a running sum of 1 gives at least 0 and a full window gives at most 255 |
| Imaging.EqualizedLargeRadius | a1/main.py:137 | for radius 8 or more, the floored scale is 0, the lookup value is -1, and the 8-bit store makes it 0 |
| Imaging.WindowAreaLarge | a1/main.py:137 | from radius 8 on the window area is at least 289, more than the 256 it divides |
| Imaging.EqualizedStoredExactly | a1/main.py:137-144 | for radius 1..7, every pixel's lookup value lies in [0, 255], so the 8-bit store keeps it unchanged |
| Imaging.Plane | a1/main.py:98-100 | the intensity plane has the image's width and height |
| Imaging.Editor.constructor | a1/main.py:36 | a new editor's radius is 5; with an 8-bit image this satisfies `Valid` (radius at least 1, every Y in 0..255) |
| Imaging.Editor.ApplyBrightnessAndContrast | a1/main.py:67-88 | every pixel of `currentImage` becomes the matching `tempImage` pixel with Y replaced by `AdjustedIntensity`; Cb and Cr are copied; the image is left 8-bit, so `Valid` holds exactly when the radius is at least 1 |
| Imaging.Editor.LocalHistogram | a1/main.py:108-127 | the histogram built is exactly the count of each intensity among the window samples of (x, y) |
| Imaging.Editor.EmptyHistogram | a1/main.py:108 | the initial histogram has a zero count for each of the intensities 0..255 |
| Imaging.Editor.AddColumn | a1/main.py:111-127 | one neighbour column's samples are counted into the histogram |
| Imaging.Editor.RunningSum | a1/main.py:133 | the sum of the counts up to c equals the number of window samples at most c |
| Imaging.Editor.ComputeLookup | a1/main.py:102-137 | the first phase computes every pixel's equalised intensity from the unmodified image |
| Imaging.Editor.EqualizedPixel | a1/main.py:107-137 | one pixel's lookup value is `EqualizedAt` of the image |
| Imaging.Editor.WriteLookup | a1/main.py:139-144 | the second phase replaces only Y in every pixel, by the lookup value as the 8-bit image stores it (clipped into [0, 255]) |
| Imaging.Editor.PerformHistoEqualization | a1/main.py:96-144 | every new Y is the stored (clipped) equalised intensity of the old image, whatever the visiting order; Cb and Cr are unchanged; the image stays 8-bit |
| Imaging.Editor.Keyboard | a1/main.py:265-276 | `h` equalises with the current radius; `+`/`=` increment the radius; `-`/`_` decrement it but not below 1; `Valid` (radius at least 1, 8-bit image) is kept, so `h` can always be pressed again |

## Left out

- The window, OpenGL drawing, Tk file dialogs, mouse handlers, `print` output and the
  command line of both programs. These are I/O.
- `Imaging.Editor.Keyboard`: ESC ends the program (a1/main.py:250-251); the model treats it as
  leaving the state unchanged, since process exit is outside the model. The keys `l` (load from
  a file dialog) and `s` (save) are also modelled as leaving the state unchanged. That is what
  happens when the dialog is cancelled or Tk is missing; loading and saving files are I/O.
- `tempImage = currentImage.copy()` on a mouse press is not modelled. That is the mouse
  handler, which is I/O. `ApplyBrightnessAndContrast` takes `tempImage` as it is, and may
  even be the same array as `currentImage`.
- Image decoding and colour conversion by the imaging library (`Image.open`, `convert`,
  `transpose`). `LoadImage` receives the decoded YCbCr pixels and the width.
- The DCT, quantisation, inverse quantisation and inverse DCT of `a3/jpeg.py`. They are
  empty stubs in the source. The model treats the block coefficients as given and the
  inverse transform as the identity. `compressionFactor` and the `dct` scratch matrix are
  left out with them.
- The keyboard handler of `a3/jpeg.py` (lines 701-790) is not modelled as such; only its `c`
  key is, as `JpegCodec.Codec.EncodeDecode`. The other keys:
  - ESC exits the program.
  - `i` opens a Tk file dialog and then calls `loadImage`; the dialog is I/O, and
    `JpegCodec.Codec.LoadImage` models the load itself.
  - `+`/`=` and `-`/`_` multiply or divide `compressionFactor` by 1.2 (the latter only while it
    is above 0.1) and then re-run the `c` pipeline. `compressionFactor` only scales the
    quantisation divisors, which are left out with the DCT, so in the model these keys would
    be `EncodeDecode` again.
  - `x` toggles `debugOutput`, the flag that decides whether the forward pass writes the debug
    dump. `JpegCodec.Codec.DebugDump` models the dump's contents, not that flag.
  - `o`, `j`, `d`, `w`, `e`, `<`/`,`, `>`/`.` and `?` only choose what is shown (original, JPEG,
    DCT or Walsh-Hadamard bases, error image and its scale factor) or print the key help; the
    display code, zoom and translate go with them.
- `scaleImage` in `a1/main.py` (lines 154-207), the zoom driven by right-button mouse motion,
  is not modelled. It is floating-point bilinear interpolation of `tempImage` driven by mouse
  input. It also writes white (255, 128, 128) where the scaled image does not reach, so it is
  the one operation of the editor that changes Cb and Cr.
- The stream steps of `forwardJPEG` and `inverseJPEG` (Step 3 and Step 4, lines 193-213, and
  the two extraction steps, lines 285-302) are `pass` in the source. The model's
  `PackBlock`/`UnpackBlock` and every property stated about the streams' contents, cursors and
  the debug dump describe the completion of those steps as their comments specify it. They do
  not describe the code as written, which leaves the cursors at 0 and the buffers unfilled.
- `JpegCodec.Codec.DebugDump`: returns the dumped prefixes as sequences. The `debug.txt`
  file and its text format are I/O.
- `np.intc` 32-bit storage of the streams is not modelled. The coefficients are unbounded
  integers, which matters only for values the stub pipeline never produces.
- The imaging library stores pixels as 8-bit values. The model stores the brightness result
  by rounding down, which is truncation for the non-negative clamped values. It stores the
  equalisation result clipped into [0, 255]. Its only out-of-range value is the -1 for radius 8
  or more, which becomes 0.
- `Imaging.Editor.PerformHistoEqualization`: requires every Y to be in 0..255. `Editor.Valid`
  keeps that true through every operation the model covers, so `Keyboard` always meets it.
- `Imaging.Editor.PerformHistoEqualization`: requires the radius to be non-negative. Its only
  caller passes `localHistoRadius`, which stays at least 1.
- Brightness and contrast are `real` numbers in the model, not floating point.
