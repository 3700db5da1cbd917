/**
 * The encoder/decoder state of a3/jpeg.py: the image size, the per-channel
 * DC and AC buffers with their cursors, and the decoded image, together with
 * the forward pass that fills the buffers and the inverse pass that reads
 * them back.
 *
 * The DCT and quantisation (and their inverses) are abstracted: the forward
 * pass receives the quantised coefficients as a coefficient image, and the
 * inverse pass stores the recovered coefficients in the decoded image.
 *
 * The block steps that store into and read from the streams are stubs in
 * the source; PackBlock and UnpackBlock complete them as the step comments
 * describe (use the cursor, then advance it; AC in zigzag order, DC in its
 * own stream).
 */
module JpegCodec {
  import opened JpegTables
  import opened JpegStreams
  import opened JpegPadding

  /**
   * Cursor value of channel k' while channel k of block b is being coded:
   * every channel has finished the blocks before b, and the channels before
   * k have also finished block b.
   */
  function Cursor(b: nat, k: nat, k': nat): nat {
    if k' < k then b + 1 else b
  }

  /**
   * Cell (r, col, k') has been decoded once channel k of the block with
   * top-left pixel (i, j) is next: blocks are visited in raster order and,
   * inside a block, channel by channel.
   */
  predicate Before(r: int, col: int, k': int, i: int, j: int, k: int) {
    || r < i
    || (r < i + 8 && col < j)
    || (r < i + 8 && col < j + 8 && k' < k)
  }

  /** AC slot s of channel k' lies outside the 63 slots starting at base in channel k. */
  predicate OutsideBlock(k': int, s: int, k: int, base: int) {
    k' != k || s < base || base + 63 <= s
  }

  /** Pixel (r, col) lies in the 8x8 block whose top-left pixel is (i, j). */
  predicate InBlockAt(r: int, col: int, i: int, j: int) {
    i <= r < i + 8 && j <= col < j + 8
  }

  /** The coefficient image held in a decoded image array. */
  ghost function Contents(image: array3<int>): CoefficientImage
    reads image
  {
    seq(image.Length0, r requires 0 <= r < image.Length0 reads image =>
      seq(image.Length1, col requires 0 <= col < image.Length1 reads image =>
        seq(image.Length2, k requires 0 <= k < image.Length2 reads image => image[r, col, k])))
  }

  /**
   * Inverse-pass progress when channel k of the block at (i, j) is next:
   * every cell decoded before that point holds its value in U.
   */
  ghost predicate DecodedUpTo(image: array3<int>, U: CoefficientImage, i: int, j: int, k: int)
    reads image
  {
    && image.Length2 == Channels
    && Shaped(U, image.Length0, image.Length1)
    && (forall r, col, k' ::
          0 <= r < image.Length0 && 0 <= col < image.Length1 && 0 <= k' < Channels && Before(r, col, k', i, j, k) ==>
          image[r, col, k'] == U[r][col][k'])
  }

  /** Once the last row of blocks is decoded, the image holds U. */
  lemma DecodedAll(image: array3<int>, U: CoefficientImage)
    requires DecodedUpTo(image, U, image.Length0, 0, 0)
    ensures Contents(image) == U
  {
    var c := Contents(image);
    forall r | 0 <= r < image.Length0
      ensures c[r] == U[r]
    {
      forall col | 0 <= col < image.Length1
        ensures c[r][col] == U[r][col]
      {
        assert forall k' :: 0 <= k' < Channels ==> c[r][col][k'] == U[r][col][k'];
      }
    }
  }

  class Codec {
    /** Image dimensions; both are multiples of 8 once an image is loaded. */
    var Nrows: nat
    var Ncols: nat
    /** DCencoding[k, b]: DC value of block b in channel k. */
    var DCencoding: array2?<int>
    /** ACencoding[k, 63 b + p - 1]: AC value at zig-zag position p of block b in channel k. */
    var ACencoding: array2?<int>
    /** Next free position of each channel in DCencoding and ACencoding. */
    var DCencodingIndex: seq<int>
    var ACencodingIndex: seq<int>
    /** Image after compression and decompression. */
    var jpegImage: array3?<int>
    /** The scan order used by both passes. */
    const zigzag: seq<seq<int>>

    constructor ()
      ensures Valid() && zigzag == Zigzag
      ensures Nrows == 0 && Ncols == 0
      ensures DCencoding == null && ACencoding == null && jpegImage == null
      ensures DCencodingIndex == [0, 0, 0] && ACencodingIndex == [0, 0, 0]
    {
      Nrows, Ncols := 0, 0;
      DCencoding, ACencoding := null, null;
      DCencodingIndex, ACencodingIndex := [0, 0, 0], [0, 0, 0];
      jpegImage := null;
      zigzag := Zigzag;
      ZigzagIsScanTable();
    }

    /** One cursor per channel, and a scan table. */
    ghost predicate Valid()
      reads this`DCencodingIndex, this`ACencodingIndex
    {
      |DCencodingIndex| == Channels && |ACencodingIndex| == Channels && IsScanTable(zigzag)
    }

    /** The buffers exist and have the sizes the forward pass gives them for the current image. */
    ghost predicate BuffersAllocated()
      reads this`Nrows, this`Ncols, this`DCencoding, this`ACencoding
    {
      && DCencoding != null && ACencoding != null
      && DCencoding.Length0 == Channels && ACencoding.Length0 == Channels
      && DCencoding.Length1 == NumBlocks(Nrows, Ncols)
      && ACencoding.Length1 == 63 * NumBlocks(Nrows, Ncols)
    }

    /** The streams held in the buffers. */
    ghost function Encoding(): (S: Streams)
      reads this`Nrows, this`Ncols, this`DCencoding, this`ACencoding, DCencoding, ACencoding
      requires BuffersAllocated()
      ensures StreamsShaped(S, NumBlocks(Nrows, Ncols))
    {
      var dc, ac := DCencoding, ACencoding;
      Streams(
        seq(Channels, k requires 0 <= k < Channels reads dc =>
          seq(dc.Length1, b requires 0 <= b < dc.Length1 reads dc => dc[k, b])),
        seq(Channels, k requires 0 <= k < Channels reads ac =>
          seq(ac.Length1, s requires 0 <= s < ac.Length1 reads ac => ac[k, s])))
    }

    /**
     * The cursors when channel k of block b is next, in either pass: every
     * channel has used the slots of blocks 0..b-1, and the channels before k
     * also those of block b.
     */
    ghost predicate CursorsAt(b: nat, k: nat)
      reads this`Nrows, this`Ncols, this`DCencodingIndex, this`ACencodingIndex
      requires Valid()
    {
      forall k' :: 0 <= k' < Channels ==>
        && DCencodingIndex[k'] == Cursor(b, k, k')
        && ACencodingIndex[k'] == 63 * Cursor(b, k, k')
    }

    /**
     * Forward-pass progress when channel k of block b is next: the cursors
     * stand at Cursor(b, k, _) and every slot before them holds its value in P.
     */
    ghost predicate EncodedUpTo(P: Streams, b: nat, k: nat)
      reads this`Nrows, this`Ncols, this`DCencodingIndex, this`ACencodingIndex
      reads this`DCencoding, this`ACencoding, DCencoding, ACencoding
      requires Valid() && BuffersAllocated()
    {
      && StreamsShaped(P, NumBlocks(Nrows, Ncols))
      && b <= NumBlocks(Nrows, Ncols) && (k > 0 ==> b < NumBlocks(Nrows, Ncols))
      && CursorsAt(b, k)
      && (forall k', b' :: 0 <= k' < Channels && 0 <= b' < Cursor(b, k, k') ==>
            DCencoding[k', b'] == P.dc[k'][b'])
      && (forall k', s :: 0 <= k' < Channels && 0 <= s < 63 * Cursor(b, k, k') ==>
            ACencoding[k', s] == P.ac[k'][s])
    }

    /** Sets every channel's DC and AC cursor back to 0. */
    method ResetCursors()
      requires Valid()
      modifies this`DCencodingIndex, this`ACencodingIndex
      ensures Valid()
      ensures DCencodingIndex == [0, 0, 0] && ACencodingIndex == [0, 0, 0]
    {
      for k := 0 to Channels
        invariant Valid()
        invariant forall k' :: 0 <= k' < k ==> DCencodingIndex[k'] == 0 && ACencodingIndex[k'] == 0
      {
        DCencodingIndex := DCencodingIndex[k := 0];
        ACencodingIndex := ACencodingIndex[k := 0];
      }
    }

    /**
     * Step 4 of the forward pass for channel k of the block at (i, j): each
     * coefficient (u, v) other than the DC one goes to the AC cursor plus
     * its zig-zag position minus one; then the AC cursor advances by 63.
     */
    method PackAC(coef: CoefficientImage, i: nat, j: nat, k: nat)
      requires Valid() && ACencoding != null && ACencoding.Length0 == Channels && k < Channels
      requires 0 <= ACencodingIndex[k] && ACencodingIndex[k] + 63 <= ACencoding.Length1
      requires Shaped(coef, Nrows, Ncols) && i + 8 <= Nrows && j + 8 <= Ncols
      modifies ACencoding, this`ACencodingIndex
      ensures Valid()
      ensures ACencodingIndex == old(ACencodingIndex)[k := old(ACencodingIndex[k]) + 63]
      ensures forall u, v :: InBlock(u, v) && (u, v) != (0, 0) ==>
        ACencoding[k, old(ACencodingIndex[k]) + zigzag[u][v] - 1] == coef[i + u][j + v][k]
      ensures forall k', s ::
        0 <= k' < Channels && 0 <= s < ACencoding.Length1 && OutsideBlock(k', s, k, old(ACencodingIndex[k])) ==>
        ACencoding[k', s] == old(ACencoding[k', s])
    {
      var acIndex := ACencodingIndex[k];
      for u := 0 to 8
        invariant forall k', s ::
          0 <= k' < Channels && 0 <= s < ACencoding.Length1 && OutsideBlock(k', s, k, acIndex) ==>
          ACencoding[k', s] == old(ACencoding[k', s])
        invariant forall u', v' :: InBlock(u', v') && u' < u && (u', v') != (0, 0) ==>
          ACencoding[k, acIndex + zigzag[u'][v'] - 1] == coef[i + u'][j + v'][k]
        modifies ACencoding
      {
        PackACRow(coef, i, j, k, u, acIndex);
      }
      ACencodingIndex := ACencodingIndex[k := acIndex + 63];
    }

    /** Row u of the block in PackAC: coefficients (u, 0)..(u, 7), the DC one excepted. */
    method PackACRow(coef: CoefficientImage, i: nat, j: nat, k: nat, u: nat, acIndex: int)
      requires Valid() && ACencoding != null && ACencoding.Length0 == Channels && k < Channels
      requires 0 <= acIndex && acIndex + 63 <= ACencoding.Length1
      requires Shaped(coef, Nrows, Ncols) && i + 8 <= Nrows && j + 8 <= Ncols && u < 8
      modifies ACencoding
      ensures forall v :: 0 <= v < 8 && (u, v) != (0, 0) ==>
        && 1 <= zigzag[u][v]
        && ACencoding[k, acIndex + zigzag[u][v] - 1] == coef[i + u][j + v][k]
      ensures forall u', v' :: InBlock(u', v') && u' != u && (u', v') != (0, 0) ==>
        && 1 <= zigzag[u'][v']
        && ACencoding[k, acIndex + zigzag[u'][v'] - 1] == old(ACencoding[k, acIndex + zigzag[u'][v'] - 1])
      ensures forall k', s ::
        0 <= k' < Channels && 0 <= s < ACencoding.Length1 && OutsideBlock(k', s, k, acIndex) ==>
        ACencoding[k', s] == old(ACencoding[k', s])
    {
      for v := 0 to 8
        invariant forall k', s ::
          0 <= k' < Channels && 0 <= s < ACencoding.Length1 && OutsideBlock(k', s, k, acIndex) ==>
          ACencoding[k', s] == old(ACencoding[k', s])
        invariant forall v' :: 0 <= v' < v && (u, v') != (0, 0) ==>
          && 1 <= zigzag[u][v']
          && ACencoding[k, acIndex + zigzag[u][v'] - 1] == coef[i + u][j + v'][k]
        invariant forall u', v' :: InBlock(u', v') && u' != u && (u', v') != (0, 0) ==>
          && 1 <= zigzag[u'][v']
          && ACencoding[k, acIndex + zigzag[u'][v'] - 1] == old(ACencoding[k, acIndex + zigzag[u'][v'] - 1])
      {
        if (u, v) != (0, 0) {
          ScanTableAC(zigzag, u, v);
          ACencoding[k, acIndex + zigzag[u][v] - 1] := coef[i + u][j + v][k];
        }
      }
    }

    /**
     * Steps 3 and 4 of the forward pass for channel k of the block at (i, j):
     * the DC value goes to the DC cursor, which advances by one, and the AC
     * values are packed by PackAC.
     */
    method PackBlock(coef: CoefficientImage, i: nat, j: nat, k: nat, ghost b: nat, ghost P: Streams)
      requires Valid() && BuffersAllocated() && Aligned(Nrows, Ncols) && Shaped(coef, Nrows, Ncols)
      requires i % 8 == 0 && j % 8 == 0 && i < Nrows && j < Ncols && k < Channels
      requires b == BlockOf(i, j, Ncols)
      requires EncodedUpTo(P, b, k) && HoldsBlock(zigzag, P, coef, Nrows, Ncols, i, j, k)
      modifies DCencoding, ACencoding, this`DCencodingIndex, this`ACencodingIndex
      ensures Valid() && BuffersAllocated()
      ensures EncodedUpTo(P, b, k + 1)
    {
      BlockOfInRange(i, j, Nrows, Ncols);
      var dcIndex := DCencodingIndex[k];
      DCencoding[k, dcIndex] := coef[i][j][k];
      DCencodingIndex := DCencodingIndex[k := dcIndex + 1];
      ghost var acIndex := ACencodingIndex[k];
      assert acIndex == 63 * b;
      PackAC(coef, i, j, k);
      forall s | acIndex <= s < acIndex + 63
        ensures ACencoding[k, s] == P.ac[k][s]
      {
        assert Scans(zigzag, s - acIndex + 1);
        var u, v :| InBlock(u, v) && zigzag[u][v] == s - acIndex + 1;
      }
    }

    /** The channel loop of the forward pass for the block at (i, j): channels 0, 1, 2 in turn. */
    method EncodeBlock(coef: CoefficientImage, i: nat, j: nat, ghost b: nat, ghost P: Streams)
      requires Valid() && BuffersAllocated() && Aligned(Nrows, Ncols) && Shaped(coef, Nrows, Ncols)
      requires i % 8 == 0 && j % 8 == 0 && i < Nrows && j < Ncols && b == BlockOf(i, j, Ncols)
      requires EncodedUpTo(P, b, 0)
      requires forall k: nat :: k < Channels ==> HoldsBlock(zigzag, P, coef, Nrows, Ncols, i, j, k)
      modifies DCencoding, ACencoding, this`DCencodingIndex, this`ACencodingIndex
      ensures Valid() && BuffersAllocated()
      ensures EncodedUpTo(P, b + 1, 0)
    {
      for k := 0 to Channels
        invariant Valid() && BuffersAllocated() && EncodedUpTo(P, b, k)
        modifies DCencoding, ACencoding, this`DCencodingIndex, this`ACencodingIndex
      {
        PackBlock(coef, i, j, k, b, P);
      }
      EncodedNextBlock(P, b);
    }

    /** The column loop of the forward pass over the row of blocks whose top pixel row is i. */
    method EncodeBlockRow(coef: CoefficientImage, i: nat, ghost P: Streams)
      requires Valid() && BuffersAllocated() && Aligned(Nrows, Ncols) && Shaped(coef, Nrows, Ncols)
      requires i % 8 == 0 && i < Nrows
      requires EncodedUpTo(P, BlockOf(i, 0, Ncols), 0)
      requires forall j: nat, k: nat :: j % 8 == 0 && j < Ncols && k < Channels ==>
        HoldsBlock(zigzag, P, coef, Nrows, Ncols, i, j, k)
      modifies DCencoding, ACencoding, this`DCencodingIndex, this`ACencodingIndex
      ensures Valid() && BuffersAllocated()
      ensures EncodedUpTo(P, BlockOf(i + 8, 0, Ncols), 0)
    {
      ghost var b := BlockOf(i, 0, Ncols);
      var j := 0;
      while j < Ncols
        invariant j % 8 == 0 && j <= Ncols
        invariant b == BlockOf(i, j, Ncols)
        invariant Valid() && BuffersAllocated() && EncodedUpTo(P, b, 0)
        modifies DCencoding, ACencoding, this`DCencodingIndex, this`ACencodingIndex
      {
        EncodeBlock(coef, i, j, b, P);
        NextBlockInRow(i, j, Ncols);
        b := b + 1;
        j := j + 8;
      }
      NextBlockRow(i, Ncols);
    }

    /**
     * The block loops of the forward pass: blocks in raster order (rows of
     * blocks top to bottom, each row left to right) and, inside a block,
     * channels 0, 1, 2.
     */
    method EncodeBlocks(coef: CoefficientImage, ghost P: Streams)
      requires Valid() && BuffersAllocated() && Aligned(Nrows, Ncols) && Shaped(coef, Nrows, Ncols)
      requires StreamsShaped(P, NumBlocks(Nrows, Ncols))
      requires forall i: nat, j: nat, k: nat ::
        i % 8 == 0 && j % 8 == 0 && i < Nrows && j < Ncols && k < Channels ==>
        HoldsBlock(zigzag, P, coef, Nrows, Ncols, i, j, k)
      requires EncodedUpTo(P, 0, 0)
      modifies DCencoding, ACencoding, this`DCencodingIndex, this`ACencodingIndex
      ensures Valid() && BuffersAllocated()
      ensures EncodedUpTo(P, NumBlocks(Nrows, Ncols), 0)
    {
      var i := 0;
      while i < Nrows
        invariant i % 8 == 0 && i <= Nrows
        invariant Valid() && BuffersAllocated() && EncodedUpTo(P, BlockOf(i, 0, Ncols), 0)
        modifies DCencoding, ACencoding, this`DCencodingIndex, this`ACencodingIndex
      {
        EncodeBlockRow(coef, i, P);
        i := i + 8;
      }
    }

    /** Finishing the last channel of block b is starting the first channel of block b + 1. */
    lemma CursorsNextBlock(b: nat)
      requires Valid() && CursorsAt(b, Channels)
      ensures CursorsAt(b + 1, 0)
    {
      forall k' | 0 <= k' < Channels
        ensures && DCencodingIndex[k'] == Cursor(b + 1, 0, k')
                && ACencodingIndex[k'] == 63 * Cursor(b + 1, 0, k')
      {
        assert Cursor(b, Channels, k') == b + 1 == Cursor(b + 1, 0, k');
      }
    }

    /** The same step, with the slots the cursors have passed. */
    lemma EncodedNextBlock(P: Streams, b: nat)
      requires Valid() && BuffersAllocated() && EncodedUpTo(P, b, Channels)
      ensures EncodedUpTo(P, b + 1, 0)
    {
      CursorsNextBlock(b);
      assert forall k' :: 0 <= k' < Channels ==> Cursor(b, Channels, k') == b + 1;
      assert forall k', b' :: 0 <= k' < Channels && 0 <= b' < b + 1 ==> DCencoding[k', b'] == P.dc[k'][b'];
      assert forall k', s :: 0 <= k' < Channels && 0 <= s < 63 * (b + 1) ==> ACencoding[k', s] == P.ac[k'][s];
    }

    /** Once every block is encoded, the buffers hold exactly the streams P. */
    lemma EncodingComplete(P: Streams)
      requires Valid() && BuffersAllocated() && EncodedUpTo(P, NumBlocks(Nrows, Ncols), 0)
      ensures Encoding() == P
    {
      var S := Encoding();
      forall k | 0 <= k < Channels
        ensures S.dc[k] == P.dc[k] && S.ac[k] == P.ac[k]
      {
      }
    }

    /**
     * The forward pass: allocates 3 x nb DC and 3 x 63 nb AC buffers, resets
     * the cursors, and packs every block. Afterwards the buffers hold the
     * packed streams and the cursors stand at the buffer lengths.
     */
    method ForwardJPEG(coef: CoefficientImage)
      requires Valid() && Aligned(Nrows, Ncols) && Shaped(coef, Nrows, Ncols)
      modifies this`DCencoding, this`ACencoding, this`DCencodingIndex, this`ACencodingIndex
      ensures Valid() && BuffersAllocated() && fresh(DCencoding) && fresh(ACencoding)
      ensures var nb := NumBlocks(Nrows, Ncols);
        DCencodingIndex == [nb, nb, nb] && ACencodingIndex == [63 * nb, 63 * nb, 63 * nb]
      ensures Encoding() == Pack(zigzag, coef, Nrows, Ncols)
    {
      var nb := NumBlocks(Nrows, Ncols);
      DCencoding := new int[Channels, nb];
      ACencoding := new int[Channels, 63 * nb];
      ResetCursors();
      ghost var P := Pack(zigzag, coef, Nrows, Ncols);
      forall i: nat, j: nat, k: nat | i % 8 == 0 && j % 8 == 0 && i < Nrows && j < Ncols && k < Channels
        ensures HoldsBlock(zigzag, P, coef, Nrows, Ncols, i, j, k)
      {
        PackLayout(zigzag, coef, Nrows, Ncols, i, j, k);
      }
      EncodeBlocks(coef, P);
      EncodingComplete(P);
      assert DCencodingIndex[0] == DCencodingIndex[1] == DCencodingIndex[2] == nb;
    }

    /**
     * The first extraction step of the inverse pass for channel k of the
     * block at (i, j), the opposite of PackAC: each coefficient (u, v) other
     * than the DC one is read from the AC cursor plus its zig-zag position
     * minus one; then the AC cursor advances by 63.
     */
    method UnpackAC(image: array3<int>, i: nat, j: nat, k: nat)
      requires Valid() && ACencoding != null && ACencoding.Length0 == Channels && k < Channels
      requires 0 <= ACencodingIndex[k] && ACencodingIndex[k] + 63 <= ACencoding.Length1
      requires image.Length2 == Channels && i + 8 <= image.Length0 && j + 8 <= image.Length1
      modifies image, this`ACencodingIndex
      ensures Valid()
      ensures ACencodingIndex == old(ACencodingIndex)[k := old(ACencodingIndex[k]) + 63]
      ensures forall u, v :: InBlock(u, v) && (u, v) != (0, 0) ==>
        && 1 <= zigzag[u][v]
        && image[i + u, j + v, k] == ACencoding[k, old(ACencodingIndex[k]) + zigzag[u][v] - 1]
      ensures forall r, col, k' ::
        && 0 <= r < image.Length0 && 0 <= col < image.Length1 && 0 <= k' < Channels
        && (k' != k || !InBlockAt(r, col, i, j) || (r, col) == (i, j))
        ==> image[r, col, k'] == old(image[r, col, k'])
    {
      var acIndex := ACencodingIndex[k];
      UnpackACBlock(image, i, j, k, acIndex);
      ACencodingIndex := ACencodingIndex[k := acIndex + 63];
    }

    /** The rows of the block in UnpackAC, read from the 63 AC slots that start at acIndex. */
    method UnpackACBlock(image: array3<int>, i: nat, j: nat, k: nat, acIndex: int)
      requires Valid() && ACencoding != null && ACencoding.Length0 == Channels && k < Channels
      requires 0 <= acIndex && acIndex + 63 <= ACencoding.Length1
      requires image.Length2 == Channels && i + 8 <= image.Length0 && j + 8 <= image.Length1
      modifies image
      ensures forall u, v :: InBlock(u, v) && (u, v) != (0, 0) ==>
        && 1 <= zigzag[u][v]
        && image[i + u, j + v, k] == ACencoding[k, acIndex + zigzag[u][v] - 1]
      ensures forall r, col, k' ::
        && 0 <= r < image.Length0 && 0 <= col < image.Length1 && 0 <= k' < Channels
        && (k' != k || !InBlockAt(r, col, i, j) || (r, col) == (i, j))
        ==> image[r, col, k'] == old(image[r, col, k'])
    {
      for u := 0 to 8
        invariant forall r, col, k' ::
          && 0 <= r < image.Length0 && 0 <= col < image.Length1 && 0 <= k' < Channels
          && (k' != k || !InBlockAt(r, col, i, j) || (r, col) == (i, j))
          ==> image[r, col, k'] == old(image[r, col, k'])
        invariant forall u', v' :: InBlock(u', v') && u' < u && (u', v') != (0, 0) ==>
          && 1 <= zigzag[u'][v']
          && image[i + u', j + v', k] == ACencoding[k, acIndex + zigzag[u'][v'] - 1]
      {
        UnpackACRow(image, i, j, k, u, acIndex);
      }
    }

    /** Row u of the block in UnpackAC: coefficients (u, 0)..(u, 7), the DC one excepted. */
    method UnpackACRow(image: array3<int>, i: nat, j: nat, k: nat, u: nat, acIndex: int)
      requires Valid() && ACencoding != null && ACencoding.Length0 == Channels && k < Channels
      requires 0 <= acIndex && acIndex + 63 <= ACencoding.Length1
      requires image.Length2 == Channels && i + 8 <= image.Length0 && j + 8 <= image.Length1 && u < 8
      modifies image
      ensures forall v :: 0 <= v < 8 && (u, v) != (0, 0) ==>
        && 1 <= zigzag[u][v]
        && image[i + u, j + v, k] == ACencoding[k, acIndex + zigzag[u][v] - 1]
      ensures forall r, col, k' ::
        && 0 <= r < image.Length0 && 0 <= col < image.Length1 && 0 <= k' < Channels
        && (k' != k || r != i + u || col < j || j + 8 <= col || (r, col) == (i, j))
        ==> image[r, col, k'] == old(image[r, col, k'])
    {
      for v := 0 to 8
        invariant forall r, col, k' ::
          && 0 <= r < image.Length0 && 0 <= col < image.Length1 && 0 <= k' < Channels
          && (k' != k || r != i + u || col < j || j + 8 <= col || (r, col) == (i, j))
          ==> image[r, col, k'] == old(image[r, col, k'])
        invariant forall v' :: 0 <= v' < v && (u, v') != (0, 0) ==>
          && 1 <= zigzag[u][v']
          && image[i + u, j + v', k] == ACencoding[k, acIndex + zigzag[u][v'] - 1]
      {
        if (u, v) != (0, 0) {
          ScanTableAC(zigzag, u, v);
          image[i + u, j + v, k] := ACencoding[k, acIndex + zigzag[u][v] - 1];
        }
      }
    }

    /**
     * The extraction steps of the inverse pass for channel k of the block at
     * (i, j): the AC values by UnpackAC, then the DC value from the DC
     * cursor, which advances by one. Dequantisation and the inverse DCT are
     * the identity here, so the block's cells receive the coefficients.
     */
    method UnpackBlock(image: array3<int>, i: nat, j: nat, k: nat, ghost b: nat, ghost U: CoefficientImage)
      requires Valid() && BuffersAllocated() && Aligned(Nrows, Ncols)
      requires image.Length0 == Nrows && image.Length1 == Ncols && image.Length2 == Channels
      requires i % 8 == 0 && j % 8 == 0 && i < Nrows && j < Ncols && k < Channels && b == BlockOf(i, j, Ncols)
      requires Shaped(U, Nrows, Ncols) && HoldsBlock(zigzag, Encoding(), U, Nrows, Ncols, i, j, k)
      requires CursorsAt(b, k)
      modifies image, this`DCencodingIndex, this`ACencodingIndex
      ensures Valid() && CursorsAt(b, k + 1)
      ensures forall r, col :: InBlockAt(r, col, i, j) ==> image[r, col, k] == U[r][col][k]
      ensures forall r, col, k' ::
        && 0 <= r < Nrows && 0 <= col < Ncols && 0 <= k' < Channels
        && (k' != k || !InBlockAt(r, col, i, j))
        ==> image[r, col, k'] == old(image[r, col, k'])
    {
      BlockOfInRange(i, j, Nrows, Ncols);
      assert i + 8 <= Nrows && j + 8 <= Ncols by {
        BlockInImage(b, Nrows, Ncols);
        BlockCorner(i, j, Ncols);
      }
      ghost var S := Encoding();
      ghost var acIndex := ACencodingIndex[k];
      assert acIndex == 63 * b && DCencodingIndex[k] == b;
      UnpackAC(image, i, j, k);
      label Unpacked:
      var dcIndex := DCencodingIndex[k];
      image[i, j, k] := DCencoding[k, dcIndex];
      DCencodingIndex := DCencodingIndex[k := dcIndex + 1];
      forall r, col | InBlockAt(r, col, i, j)
        ensures image[r, col, k] == U[r][col][k]
      {
        var u, v := r - i, col - j;
        if (u, v) != (0, 0) {
          ScanTableAC(zigzag, u, v);
          // The DC write touched only (i, j), so the cell still holds what UnpackAC read.
          assert image[r, col, k] == old@Unpacked(image[i + u, j + v, k]);
          assert image[r, col, k] == S.ac[k][acIndex + zigzag[u][v] - 1];
        }
      }
    }

    /** The channel loop of the inverse pass for the block at (i, j): channels 0, 1, 2 in turn. */
    method DecodeBlock(image: array3<int>, i: nat, j: nat, ghost b: nat, ghost U: CoefficientImage)
      requires Valid() && BuffersAllocated() && Aligned(Nrows, Ncols)
      requires image.Length0 == Nrows && image.Length1 == Ncols
      requires i % 8 == 0 && j % 8 == 0 && i < Nrows && j < Ncols && b == BlockOf(i, j, Ncols)
      requires Shaped(U, Nrows, Ncols)
      requires forall k: nat :: k < Channels ==> HoldsBlock(zigzag, Encoding(), U, Nrows, Ncols, i, j, k)
      requires DecodedUpTo(image, U, i, j, 0) && CursorsAt(b, 0)
      modifies image, this`DCencodingIndex, this`ACencodingIndex
      ensures Valid() && DecodedUpTo(image, U, i, j + 8, 0) && CursorsAt(b + 1, 0)
    {
      for k := 0 to Channels
        invariant Valid() && DecodedUpTo(image, U, i, j, k) && CursorsAt(b, k)
      {
        UnpackBlock(image, i, j, k, b, U);
      }
      CursorsNextBlock(b);
    }

    /** The column loop of the inverse pass over the row of blocks whose top pixel row is i. */
    method DecodeBlockRow(image: array3<int>, i: nat, ghost U: CoefficientImage)
      requires Valid() && BuffersAllocated() && Aligned(Nrows, Ncols)
      requires image.Length0 == Nrows && image.Length1 == Ncols
      requires i % 8 == 0 && i < Nrows
      requires Shaped(U, Nrows, Ncols)
      requires forall j: nat, k: nat :: j % 8 == 0 && j < Ncols && k < Channels ==>
        HoldsBlock(zigzag, Encoding(), U, Nrows, Ncols, i, j, k)
      requires DecodedUpTo(image, U, i, 0, 0) && CursorsAt(BlockOf(i, 0, Ncols), 0)
      modifies image, this`DCencodingIndex, this`ACencodingIndex
      ensures Valid() && DecodedUpTo(image, U, i + 8, 0, 0) && CursorsAt(BlockOf(i + 8, 0, Ncols), 0)
    {
      ghost var b := BlockOf(i, 0, Ncols);
      var j := 0;
      while j < Ncols
        invariant j % 8 == 0 && j <= Ncols
        invariant b == BlockOf(i, j, Ncols)
        invariant Valid() && DecodedUpTo(image, U, i, j, 0) && CursorsAt(b, 0)
      {
        DecodeBlock(image, i, j, b, U);
        NextBlockInRow(i, j, Ncols);
        b := b + 1;
        j := j + 8;
      }
      NextBlockRow(i, Ncols);
    }

    /**
     * The block loops of the inverse pass, in the order of the forward
     * pass: blocks in raster order and, inside a block, channels 0, 1, 2.
     */
    method DecodeBlocks(image: array3<int>, ghost U: CoefficientImage)
      requires Valid() && BuffersAllocated() && Aligned(Nrows, Ncols)
      requires image.Length0 == Nrows && image.Length1 == Ncols
      requires Shaped(U, Nrows, Ncols)
      requires forall i: nat, j: nat, k: nat ::
        i % 8 == 0 && j % 8 == 0 && i < Nrows && j < Ncols && k < Channels ==>
        HoldsBlock(zigzag, Encoding(), U, Nrows, Ncols, i, j, k)
      requires DecodedUpTo(image, U, 0, 0, 0) && CursorsAt(0, 0)
      modifies image, this`DCencodingIndex, this`ACencodingIndex
      ensures Valid() && DecodedUpTo(image, U, Nrows, 0, 0) && CursorsAt(NumBlocks(Nrows, Ncols), 0)
    {
      var i := 0;
      while i < Nrows
        invariant i % 8 == 0 && i <= Nrows
        invariant Valid() && DecodedUpTo(image, U, i, 0, 0) && CursorsAt(BlockOf(i, 0, Ncols), 0)
      {
        DecodeBlockRow(image, i, U);
        i := i + 8;
      }
    }

    /**
     * The inverse pass: resets the cursors, decodes every block into a new
     * Nrows x Ncols x 3 image and stores it as jpegImage. The image holds
     * the coefficients unpacked from the buffers, which are left unchanged;
     * the cursors end at the buffer lengths.
     */
    method InverseJPEG()
      requires Valid() && BuffersAllocated() && Aligned(Nrows, Ncols)
      modifies this`jpegImage, this`DCencodingIndex, this`ACencodingIndex
      ensures Valid() && BuffersAllocated() && Encoding() == old(Encoding())
      ensures jpegImage != null && fresh(jpegImage)
      ensures Contents(jpegImage) == Unpack(zigzag, Encoding(), Nrows, Ncols)
      ensures var nb := NumBlocks(Nrows, Ncols);
        DCencodingIndex == [nb, nb, nb] && ACencodingIndex == [63 * nb, 63 * nb, 63 * nb]
    {
      ghost var E := Encoding();
      var image := new int[Nrows, Ncols, Channels];
      ResetCursors();
      assert Encoding() == E;
      ghost var U := Unpack(zigzag, E, Nrows, Ncols);
      forall i: nat, j: nat, k: nat | i % 8 == 0 && j % 8 == 0 && i < Nrows && j < Ncols && k < Channels
        ensures HoldsBlock(zigzag, Encoding(), U, Nrows, Ncols, i, j, k)
      {
        UnpackLayout(zigzag, Encoding(), Nrows, Ncols, i, j, k);
      }
      DecodeBlocks(image, U);
      assert Encoding() == E;
      DecodedAll(image, U);
      jpegImage := image;
      ghost var nb := NumBlocks(Nrows, Ncols);
      assert DCencodingIndex[0] == DCencodingIndex[1] == DCencodingIndex[2] == nb;
      assert ACencodingIndex[0] == ACencodingIndex[1] == ACencodingIndex[2] == 63 * nb;
    }

    /**
     * The 'c' key: the forward pass followed by the inverse pass. The
     * streams hold the packed coefficients with both cursors at their ends,
     * and, with the transform steps abstracted, the decoded image is the
     * coefficient image that was encoded.
     */
    method EncodeDecode(coef: CoefficientImage)
      requires Valid() && Aligned(Nrows, Ncols) && Shaped(coef, Nrows, Ncols)
      modifies this`DCencoding, this`ACencoding, this`DCencodingIndex, this`ACencodingIndex, this`jpegImage
      ensures Valid() && BuffersAllocated() && fresh(DCencoding) && fresh(ACencoding)
      ensures Encoding() == Pack(zigzag, coef, Nrows, Ncols)
      ensures var nb := NumBlocks(Nrows, Ncols);
        DCencodingIndex == [nb, nb, nb] && ACencodingIndex == [63 * nb, 63 * nb, 63 * nb]
      ensures jpegImage != null && fresh(jpegImage)
      ensures Contents(jpegImage) == coef
    {
      ForwardJPEG(coef);
      InverseJPEG();
      UnpackPack(zigzag, coef, Nrows, Ncols);
    }

    /**
     * The debug output of the forward pass, without its text format: for
     * every channel, the DC values before the DC cursor, then for every
     * channel the AC values before the AC cursor.
     */
    method DebugDump() returns (dc: seq<seq<int>>, ac: seq<seq<int>>)
      requires Valid() && BuffersAllocated()
      requires forall k :: 0 <= k < Channels ==>
        && 0 <= DCencodingIndex[k] <= DCencoding.Length1
        && 0 <= ACencodingIndex[k] <= ACencoding.Length1
      ensures |dc| == Channels && |ac| == Channels
      ensures forall k :: 0 <= k < Channels ==>
        && dc[k] == Encoding().dc[k][..DCencodingIndex[k]]
        && ac[k] == Encoding().ac[k][..ACencodingIndex[k]]
    {
      dc, ac := [], [];
      for k := 0 to Channels
        invariant |dc| == k
        invariant forall k' :: 0 <= k' < k ==> dc[k'] == Encoding().dc[k'][..DCencodingIndex[k']]
      {
        var line := [];
        for i := 0 to DCencodingIndex[k]
          invariant line == Encoding().dc[k][..i]
        {
          line := line + [DCencoding[k, i]];
        }
        dc := dc + [line];
      }
      for k := 0 to Channels
        invariant |ac| == k
        invariant forall k' :: 0 <= k' < k ==> ac[k'] == Encoding().ac[k'][..ACencodingIndex[k']]
      {
        var line := [];
        for i := 0 to ACencodingIndex[k]
          invariant line == Encoding().ac[k][..i]
        {
          line := line + [ACencoding[k, i]];
        }
        ac := ac + [line];
      }
    }

    /**
     * The padding and size bookkeeping of loadImage: white rows, then white
     * columns, are appended up to multiples of 8, and Nrows and Ncols take
     * the padded shape.
     */
    method LoadImage(img: Image, ncols: nat) returns (ret: Image)
      requires Rectangular(img, ncols)
      modifies this`Nrows, this`Ncols
      ensures ret == PadImage(img, ncols) && Rectangular(ret, Ncols)
      ensures Nrows == |ret| && Ncols == PaddedSize(ncols) && Aligned(Nrows, Ncols)
    {
      ret := PadRows(img, ncols);
      ret := PadColumns(ret, ncols);
      Nrows := |ret|;
      Ncols := PaddedSize(ncols);
    }
  }
}
