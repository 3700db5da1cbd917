/**
 * The padding step of loadImage in a3/jpeg.py: an image whose height or
 * width is not a multiple of 8 gets white rows appended, then white columns
 * appended to every row, so that it splits into whole 8x8 blocks.
 *
 * An image is a sequence of rows of YCbCr pixels; its width is carried
 * separately, as the array shape is in the source, so that an image with
 * no rows still has one.
 */
module JpegPadding {

  /** A pixel as (Y, Cb, Cr). */
  type Pixel = (int, int, int)

  /** White in YCbCr with all components in [0, 255]. */
  const White: Pixel := (255, 128, 128)

  type Image = seq<seq<Pixel>>

  /** Every row has ncols pixels. */
  predicate Rectangular(img: Image, ncols: nat) {
    forall r :: 0 <= r < |img| ==> |img[r]| == ncols
  }

  /** The smallest multiple of 8 that is at least n. */
  function PaddedSize(n: nat): (m: nat)
    ensures m % 8 == 0 && n <= m < n + 8
    ensures forall m' :: n <= m' < m ==> m' % 8 != 0
  {
    if n % 8 != 0 then n + (8 - n % 8) else n
  }

  /** A row of n white pixels. */
  function WhiteRow(n: nat): (row: seq<Pixel>)
    ensures |row| == n && forall c :: 0 <= c < n ==> row[c] == White
  {
    seq(n, _ => White)
  }

  /** Appends white rows until the height is a multiple of 8. */
  function PadRows(img: Image, ncols: nat): (out: Image)
    requires Rectangular(img, ncols)
    ensures Rectangular(out, ncols) && |out| == PaddedSize(|img|)
    ensures out[..|img|] == img
    ensures forall r :: |img| <= r < |out| ==> out[r] == WhiteRow(ncols)
  {
    if |img| % 8 != 0 then img + seq(8 - |img| % 8, _ => WhiteRow(ncols)) else img
  }

  /** Appends white pixels to a row of ncols pixels until its length is a multiple of 8. */
  function PadRow(row: seq<Pixel>, ncols: nat): (out: seq<Pixel>)
    requires |row| == ncols
    ensures |out| == PaddedSize(ncols) && out[..ncols] == row
    ensures forall c :: ncols <= c < |out| ==> out[c] == White
  {
    if ncols % 8 != 0 then
      var out := row + WhiteRow(8 - ncols % 8);
      assert out[..ncols] == row;
      out
    else row
  }

  /** Appends white pixels to every row until the width is a multiple of 8. */
  function PadColumns(img: Image, ncols: nat): (out: Image)
    requires Rectangular(img, ncols)
    ensures Rectangular(out, PaddedSize(ncols)) && |out| == |img|
    ensures forall r :: 0 <= r < |out| ==> out[r][..ncols] == img[r]
    ensures forall r, c :: 0 <= r < |out| && ncols <= c < PaddedSize(ncols) ==> out[r][c] == White
  {
    seq(|img|, r requires 0 <= r < |img| => PadRow(img[r], ncols))
  }

  /** The padding of loadImage: rows first, then columns. */
  function PadImage(img: Image, ncols: nat): (out: Image)
    requires Rectangular(img, ncols)
    ensures Rectangular(out, PaddedSize(ncols)) && |out| == PaddedSize(|img|)
  {
    PadColumns(PadRows(img, ncols), ncols)
  }

  /**
   * What padding promises: both sizes become multiples of 8, fewer than 8
   * rows and fewer than 8 columns are added, every original pixel keeps its
   * place and value, and every added pixel is white.
   */
  lemma PadImageSpec(img: Image, ncols: nat)
    requires Rectangular(img, ncols)
    ensures var out := PadImage(img, ncols);
      && |out| % 8 == 0 && |img| <= |out| < |img| + 8
      && PaddedSize(ncols) % 8 == 0 && ncols <= PaddedSize(ncols) < ncols + 8
      && (forall r, c :: 0 <= r < |img| && 0 <= c < ncols ==> out[r][c] == img[r][c])
      && (forall r, c :: 0 <= r < |out| && 0 <= c < PaddedSize(ncols) && (|img| <= r || ncols <= c) ==> out[r][c] == White)
  {
    var rows := PadRows(img, ncols);
    var out := PadColumns(rows, ncols);
    forall r, c | 0 <= r < |img| && 0 <= c < ncols
      ensures out[r][c] == img[r][c]
    {
      assert out[r][..ncols][c] == rows[r][c];
      assert rows[..|img|][r] == rows[r];
    }
    forall r, c | 0 <= r < |out| && 0 <= c < PaddedSize(ncols) && (|img| <= r || ncols <= c)
      ensures out[r][c] == White
    {
      if c < ncols {
        assert out[r][..ncols][c] == rows[r][c];
      }
    }
  }

  /** An image whose sizes are already multiples of 8 is left as it is. */
  lemma PadAligned(img: Image, ncols: nat)
    requires Rectangular(img, ncols) && |img| % 8 == 0 && ncols % 8 == 0
    ensures PadImage(img, ncols) == img
  {
  }

  /** Padding twice pads once. */
  lemma PadIdempotent(img: Image, ncols: nat)
    requires Rectangular(img, ncols)
    ensures PadImage(PadImage(img, ncols), PaddedSize(ncols)) == PadImage(img, ncols)
  {
    PadAligned(PadImage(img, ncols), PaddedSize(ncols));
  }
}
