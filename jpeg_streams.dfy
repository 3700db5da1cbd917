/**
 * The coefficient streams of the JPEG encoder/decoder (a3/jpeg.py), as
 * values: which block and which coefficient every DC and AC slot holds.
 *
 * The DCT and quantisation steps are left abstract: their result, for the
 * block whose top-left pixel is (i, j) and for channel k, is the integer
 * matrix coef[i + u][j + v][k], 0 <= u, v < 8. A coefficient image therefore
 * has the shape of the image itself, (rows, columns, 3).
 */
module JpegStreams {
  import opened JpegTables

  type CoefficientImage = seq<seq<seq<int>>>

  /** Number of channels: one luma, two chroma. */
  const Channels: nat := 3

  predicate Shaped(c: CoefficientImage, nrows: nat, ncols: nat) {
    && |c| == nrows
    && (forall r :: 0 <= r < nrows ==> |c[r]| == ncols)
    && (forall r, col :: 0 <= r < nrows && 0 <= col < ncols ==> |c[r][col]| == Channels)
  }

  predicate Aligned(nrows: nat, ncols: nat) {
    nrows % 8 == 0 && ncols % 8 == 0
  }

  function BlocksPerRow(ncols: nat): nat {
    ncols / 8
  }

  /** Number of blocks per channel. */
  function NumBlocks(nrows: nat, ncols: nat): nat {
    (nrows / 8) * (ncols / 8)
  }

  /** Top-left pixel of block number b; blocks are numbered in raster order. */
  function BlockTop(b: nat, ncols: nat): nat
    requires BlocksPerRow(ncols) > 0
  {
    8 * (b / BlocksPerRow(ncols))
  }

  function BlockLeft(b: nat, ncols: nat): nat
    requires BlocksPerRow(ncols) > 0
  {
    8 * (b % BlocksPerRow(ncols))
  }

  /** Number of the block that holds pixel (r, col). */
  function BlockOf(r: nat, col: nat, ncols: nat): nat {
    (r / 8) * BlocksPerRow(ncols) + col / 8
  }

  lemma {:induction false} MulMonotone(a: int, b: int, d: int)
    requires a <= b && d >= 0
    ensures a * d <= b * d
    decreases b - a
  {
    if a < b {
      MulMonotone(a, b - 1, d);
      assert (b - 1) * d + d == b * d;
    }
  }

  /** Quotient and remainder are unique (Euclidean division). */
  lemma DivModUnique(n: int, d: int, q: int, m: int)
    requires d > 0 && 0 <= m < d && n == q * d + m
    ensures n / d == q && n % d == m
  {
    var q', m' := n / d, n % d;
    assert n == q' * d + m';
    if q' < q {
      assert (q' + 1) * d == q' * d + d;
      MulMonotone(q' + 1, q, d);
    } else if q < q' {
      assert (q + 1) * d == q * d + d;
      MulMonotone(q + 1, q', d);
    }
  }

  /** Block number b lies inside the image and is numbered back by BlockOf. */
  lemma BlockInImage(b: nat, nrows: nat, ncols: nat)
    requires Aligned(nrows, ncols) && b < NumBlocks(nrows, ncols)
    ensures BlocksPerRow(ncols) > 0
    ensures BlockTop(b, ncols) + 8 <= nrows
    ensures BlockLeft(b, ncols) + 8 <= ncols
    ensures BlockOf(BlockTop(b, ncols), BlockLeft(b, ncols), ncols) == b
    ensures BlockTop(b, ncols) % 8 == 0 && BlockLeft(b, ncols) % 8 == 0
  {
    var n := BlocksPerRow(ncols);
    assert n > 0;
    var q, m := b / n, b % n;
    assert b == q * n + m;
    assert q < nrows / 8 by {
      if q >= nrows / 8 {
        MulMonotone(nrows / 8, q, n);
      }
    }
    DivModUnique(BlockTop(b, ncols), 8, q, 0);
    DivModUnique(BlockLeft(b, ncols), 8, m, 0);
  }

  /** Within the block whose top-left corner is (i, j), pixel (r, col) holds coefficient (r - i, col - j). */
  lemma CellInBlock(i: nat, j: nat, r: nat, col: nat, ncols: nat)
    requires i % 8 == 0 && j % 8 == 0
    requires i <= r < i + 8 && j <= col < j + 8
    ensures r % 8 == r - i && col % 8 == col - j
    ensures BlockOf(r, col, ncols) == BlockOf(i, j, ncols)
  {
    DivModUnique(r, 8, i / 8, r - i);
    DivModUnique(col, 8, j / 8, col - j);
  }

  /** Moving 8 columns to the right inside a row of blocks reaches the next block. */
  lemma NextBlockInRow(i: nat, j: nat, ncols: nat)
    requires j % 8 == 0
    ensures BlockOf(i, j + 8, ncols) == BlockOf(i, j, ncols) + 1
  {
    assert (j + 8) / 8 == j / 8 + 1;
  }

  /** The block after the last one of a row of blocks is the first one of the next row. */
  lemma NextBlockRow(i: nat, ncols: nat)
    requires i % 8 == 0 && ncols % 8 == 0
    ensures BlockOf(i, ncols, ncols) == BlockOf(i + 8, 0, ncols)
  {
    assert (i + 8) / 8 == i / 8 + 1;
    assert (i / 8 + 1) * BlocksPerRow(ncols) == (i / 8) * BlocksPerRow(ncols) + BlocksPerRow(ncols);
  }

  /** Pixel (r, col) lies in a block that exists. */
  lemma BlockOfInRange(r: nat, col: nat, nrows: nat, ncols: nat)
    requires Aligned(nrows, ncols) && r < nrows && col < ncols
    ensures BlockOf(r, col, ncols) < NumBlocks(nrows, ncols)
  {
    var n := BlocksPerRow(ncols);
    assert col / 8 < n;
    assert r / 8 < nrows / 8;
    assert (r / 8 + 1) * n == (r / 8) * n + n;
    MulMonotone(r / 8 + 1, nrows / 8, n);
  }

  /**
   * The two streams of every channel k: dc[k] holds one value per block,
   * ac[k] holds 63 values per block, blocks in raster order.
   */
  datatype Streams = Streams(dc: seq<seq<int>>, ac: seq<seq<int>>)

  /** The buffer shapes of the encoder: 3 x nb DC values and 3 x 63 nb AC values. */
  predicate StreamsShaped(S: Streams, nb: nat) {
    && |S.dc| == Channels && |S.ac| == Channels
    && (forall k :: 0 <= k < Channels ==> |S.dc[k]| == nb && |S.ac[k]| == 63 * nb)
  }

  /** DC value of block b in channel k: the top-left coefficient of the block. */
  function DCOf(c: CoefficientImage, nrows: nat, ncols: nat, k: nat, b: nat): int
    requires Aligned(nrows, ncols) && Shaped(c, nrows, ncols)
    requires k < Channels && b < NumBlocks(nrows, ncols)
  {
    BlockInImage(b, nrows, ncols);
    c[BlockTop(b, ncols)][BlockLeft(b, ncols)][k]
  }

  /** The coefficient that a scan table visits at scan position p. */
  ghost function Position(zigzag: seq<seq<int>>, p: int): (uv: (int, int))
    requires IsScanTable(zigzag) && 0 <= p < 64
    ensures InBlock(uv.0, uv.1) && zigzag[uv.0][uv.1] == p
  {
    assert Scans(zigzag, p);
    var u, v :| InBlock(u, v) && zigzag[u][v] == p; (u, v)
  }

  /** AC slot s of channel k: block s / 63, scan position s % 63 + 1. */
  ghost function ACOf(zigzag: seq<seq<int>>, c: CoefficientImage, nrows: nat, ncols: nat, k: nat, s: nat): int
    requires IsScanTable(zigzag) && Aligned(nrows, ncols) && Shaped(c, nrows, ncols)
    requires k < Channels && s < 63 * NumBlocks(nrows, ncols)
  {
    var b := s / 63;
    var uv := Position(zigzag, s % 63 + 1);
    BlockInImage(b, nrows, ncols);
    c[BlockTop(b, ncols) + uv.0][BlockLeft(b, ncols) + uv.1][k]
  }

  /** The streams the forward pass produces from a coefficient image. */
  ghost function Pack(zigzag: seq<seq<int>>, c: CoefficientImage, nrows: nat, ncols: nat): (S: Streams)
    requires IsScanTable(zigzag) && Aligned(nrows, ncols) && Shaped(c, nrows, ncols)
    ensures StreamsShaped(S, NumBlocks(nrows, ncols))
  {
    var nb := NumBlocks(nrows, ncols);
    Streams(
      seq(Channels, k requires 0 <= k < Channels =>
        seq(nb, b requires 0 <= b < nb => DCOf(c, nrows, ncols, k, b))),
      seq(Channels, k requires 0 <= k < Channels =>
        seq(63 * nb, s requires 0 <= s < 63 * nb => ACOf(zigzag, c, nrows, ncols, k, s))))
  }

  /**
   * Coefficient (r % 8, col % 8) of the block holding pixel (r, col), read
   * back from the streams: the DC stream for the corner, otherwise the AC
   * slot given by the scan table.
   */
  function CoefAt(zigzag: seq<seq<int>>, S: Streams, nrows: nat, ncols: nat, r: nat, col: nat, k: nat): int
    requires IsScanTable(zigzag) && Aligned(nrows, ncols) && StreamsShaped(S, NumBlocks(nrows, ncols))
    requires r < nrows && col < ncols && k < Channels
  {
    var b := BlockOf(r, col, ncols);
    var u, v := r % 8, col % 8;
    BlockOfInRange(r, col, nrows, ncols);
    if u == 0 && v == 0 then S.dc[k][b]
    else ScanTableAC(zigzag, u, v); S.ac[k][63 * b + zigzag[u][v] - 1]
  }

  /** The coefficient image the inverse pass recovers from the streams. */
  function Unpack(zigzag: seq<seq<int>>, S: Streams, nrows: nat, ncols: nat): (c: CoefficientImage)
    requires IsScanTable(zigzag) && Aligned(nrows, ncols) && StreamsShaped(S, NumBlocks(nrows, ncols))
    ensures Shaped(c, nrows, ncols)
  {
    seq(nrows, r requires 0 <= r < nrows =>
      seq(ncols, col requires 0 <= col < ncols =>
        seq(Channels, k requires 0 <= k < Channels => CoefAt(zigzag, S, nrows, ncols, r, col, k))))
  }

  /** The block holding pixel (r, col) has its top-left corner at (r - r % 8, col - col % 8). */
  lemma BlockCorner(r: nat, col: nat, ncols: nat)
    requires ncols % 8 == 0 && col < ncols
    ensures BlocksPerRow(ncols) > 0
    ensures BlockTop(BlockOf(r, col, ncols), ncols) == r - r % 8
    ensures BlockLeft(BlockOf(r, col, ncols), ncols) == col - col % 8
  {
    var n := BlocksPerRow(ncols);
    assert col / 8 < n;
    DivModUnique(BlockOf(r, col, ncols), n, r / 8, col / 8);
  }

  /** The AC slot of coefficient (u, v) of block b lies in that block's 63 slots and names (u, v) back. */
  lemma ACSlot(zigzag: seq<seq<int>>, b: nat, u: int, v: int)
    requires IsScanTable(zigzag) && InBlock(u, v) && (u, v) != (0, 0)
    ensures 1 <= zigzag[u][v]
    ensures (63 * b + zigzag[u][v] - 1) / 63 == b
    ensures Position(zigzag, (63 * b + zigzag[u][v] - 1) % 63 + 1) == (u, v)
  {
    ScanTableAC(zigzag, u, v);
    var p := zigzag[u][v];
    DivModUnique(63 * b + p - 1, 63, b, p - 1);
    var uv := Position(zigzag, p);
    assert zigzag[uv.0][uv.1] == zigzag[u][v];
  }

  /** Reading pixel (r, col) back out of the packed streams gives its coefficient. */
  lemma PackedCell(zigzag: seq<seq<int>>, c: CoefficientImage, nrows: nat, ncols: nat, r: nat, col: nat, k: nat)
    requires IsScanTable(zigzag) && Aligned(nrows, ncols) && Shaped(c, nrows, ncols)
    requires r < nrows && col < ncols && k < Channels
    ensures CoefAt(zigzag, Pack(zigzag, c, nrows, ncols), nrows, ncols, r, col, k) == c[r][col][k]
  {
    var b := BlockOf(r, col, ncols);
    var u, v := r % 8, col % 8;
    BlockCorner(r, col, ncols);
    BlockOfInRange(r, col, nrows, ncols);
    if u != 0 || v != 0 {
      ACSlot(zigzag, b, u, v);
    }
  }

  /** Unpacking the packed streams recovers every coefficient: unpack after pack is the identity. */
  lemma UnpackPack(zigzag: seq<seq<int>>, c: CoefficientImage, nrows: nat, ncols: nat)
    requires IsScanTable(zigzag) && Aligned(nrows, ncols) && Shaped(c, nrows, ncols)
    ensures Unpack(zigzag, Pack(zigzag, c, nrows, ncols), nrows, ncols) == c
  {
    var d := Unpack(zigzag, Pack(zigzag, c, nrows, ncols), nrows, ncols);
    forall r | 0 <= r < nrows
      ensures d[r] == c[r]
    {
      forall col | 0 <= col < ncols
        ensures d[r][col] == c[r][col]
      {
        forall k | 0 <= k < Channels
          ensures d[r][col][k] == c[r][col][k]
        {
          PackedCell(zigzag, c, nrows, ncols, r, col, k);
        }
      }
    }
  }

  /**
   * Coefficient (u, v) of the block whose top-left pixel is (i, j) is read
   * from DC slot b of that block when (u, v) = (0, 0), and from AC slot
   * 63 b + zigzag[u][v] - 1 otherwise.
   */
  lemma UnpackedCell(zigzag: seq<seq<int>>, S: Streams, nrows: nat, ncols: nat, i: nat, j: nat, u: int, v: int, k: nat)
    requires IsScanTable(zigzag) && Aligned(nrows, ncols) && StreamsShaped(S, NumBlocks(nrows, ncols))
    requires i % 8 == 0 && j % 8 == 0 && i < nrows && j < ncols
    requires InBlock(u, v) && k < Channels
    ensures i + u < nrows && j + v < ncols
    ensures BlockOf(i, j, ncols) < NumBlocks(nrows, ncols)
    ensures (u, v) == (0, 0) ==> CoefAt(zigzag, S, nrows, ncols, i + u, j + v, k) == S.dc[k][BlockOf(i, j, ncols)]
    ensures (u, v) != (0, 0) ==>
      && 1 <= zigzag[u][v]
      && CoefAt(zigzag, S, nrows, ncols, i + u, j + v, k) == S.ac[k][63 * BlockOf(i, j, ncols) + zigzag[u][v] - 1]
  {
    assert i + 8 <= nrows && j + 8 <= ncols;
    CellInBlock(i, j, i + u, j + v, ncols);
    BlockOfInRange(i, j, nrows, ncols);
    if (u, v) != (0, 0) {
      ScanTableAC(zigzag, u, v);
    }
  }

  /**
   * Where the forward pass puts coefficient (u, v) of the block whose
   * top-left pixel is (i, j): the DC slot of the block for (0, 0), AC slot
   * 63 b + zigzag[u][v] - 1 otherwise.
   */
  lemma PackedBlockCell(zigzag: seq<seq<int>>, c: CoefficientImage, nrows: nat, ncols: nat, i: nat, j: nat, u: int, v: int, k: nat)
    requires IsScanTable(zigzag) && Aligned(nrows, ncols) && Shaped(c, nrows, ncols)
    requires i % 8 == 0 && j % 8 == 0 && i < nrows && j < ncols
    requires InBlock(u, v) && k < Channels
    ensures i + u < nrows && j + v < ncols
    ensures BlockOf(i, j, ncols) < NumBlocks(nrows, ncols)
    ensures (u, v) == (0, 0) ==> Pack(zigzag, c, nrows, ncols).dc[k][BlockOf(i, j, ncols)] == c[i][j][k]
    ensures (u, v) != (0, 0) ==>
      && 1 <= zigzag[u][v]
      && Pack(zigzag, c, nrows, ncols).ac[k][63 * BlockOf(i, j, ncols) + zigzag[u][v] - 1] == c[i + u][j + v][k]
  {
    UnpackedCell(zigzag, Pack(zigzag, c, nrows, ncols), nrows, ncols, i, j, u, v, k);
    PackedCell(zigzag, c, nrows, ncols, i + u, j + v, k);
  }

  /** UnpackedCell, stated about the unpacked image itself rather than one of its cells' definition. */
  lemma UnpackedBlockCell(zigzag: seq<seq<int>>, S: Streams, nrows: nat, ncols: nat, i: nat, j: nat, u: int, v: int, k: nat)
    requires IsScanTable(zigzag) && Aligned(nrows, ncols) && StreamsShaped(S, NumBlocks(nrows, ncols))
    requires i % 8 == 0 && j % 8 == 0 && i < nrows && j < ncols
    requires InBlock(u, v) && k < Channels
    ensures i + u < nrows && j + v < ncols
    ensures BlockOf(i, j, ncols) < NumBlocks(nrows, ncols)
    ensures (u, v) == (0, 0) ==> S.dc[k][BlockOf(i, j, ncols)] == Unpack(zigzag, S, nrows, ncols)[i][j][k]
    ensures (u, v) != (0, 0) ==>
      && 1 <= zigzag[u][v]
      && S.ac[k][63 * BlockOf(i, j, ncols) + zigzag[u][v] - 1] == Unpack(zigzag, S, nrows, ncols)[i + u][j + v][k]
  {
    UnpackedCell(zigzag, S, nrows, ncols, i, j, u, v, k);
  }

  /**
   * Streams P hold channel k of the block whose top-left pixel is (i, j) as
   * the forward pass lays it out: the DC value in slot b of the DC stream,
   * coefficient (u, v) in slot 63 b + zigzag[u][v] - 1 of the AC stream.
   */
  ghost predicate HoldsBlock(zigzag: seq<seq<int>>, P: Streams, c: CoefficientImage, nrows: nat, ncols: nat, i: nat, j: nat, k: nat)
    requires IsScanTable(zigzag) && Aligned(nrows, ncols) && Shaped(c, nrows, ncols) && StreamsShaped(P, NumBlocks(nrows, ncols))
    requires i % 8 == 0 && j % 8 == 0 && i < nrows && j < ncols && k < Channels
  {
    var b := BlockOf(i, j, ncols);
    BlockOfInRange(i, j, nrows, ncols);
    && P.dc[k][b] == c[i][j][k]
    && (forall u, v :: InBlock(u, v) && (u, v) != (0, 0) ==>
          && 1 <= zigzag[u][v]
          && P.ac[k][63 * b + zigzag[u][v] - 1] == c[i + u][j + v][k])
  }

  /** The packed streams hold every block of every channel in the forward pass's layout. */
  lemma PackLayout(zigzag: seq<seq<int>>, c: CoefficientImage, nrows: nat, ncols: nat, i: nat, j: nat, k: nat)
    requires IsScanTable(zigzag) && Aligned(nrows, ncols) && Shaped(c, nrows, ncols)
    requires i % 8 == 0 && j % 8 == 0 && i < nrows && j < ncols && k < Channels
    ensures HoldsBlock(zigzag, Pack(zigzag, c, nrows, ncols), c, nrows, ncols, i, j, k)
  {
    PackedBlockCell(zigzag, c, nrows, ncols, i, j, 0, 0, k);
    forall u, v | InBlock(u, v) && (u, v) != (0, 0) {
      PackedBlockCell(zigzag, c, nrows, ncols, i, j, u, v, k);
    }
  }

  /** The streams hold every block of the image unpacked from them, in the forward pass's layout. */
  lemma UnpackLayout(zigzag: seq<seq<int>>, S: Streams, nrows: nat, ncols: nat, i: nat, j: nat, k: nat)
    requires IsScanTable(zigzag) && Aligned(nrows, ncols) && StreamsShaped(S, NumBlocks(nrows, ncols))
    requires i % 8 == 0 && j % 8 == 0 && i < nrows && j < ncols && k < Channels
    ensures HoldsBlock(zigzag, S, Unpack(zigzag, S, nrows, ncols), nrows, ncols, i, j, k)
  {
    UnpackedBlockCell(zigzag, S, nrows, ncols, i, j, 0, 0, k);
    forall u, v | InBlock(u, v) && (u, v) != (0, 0) {
      UnpackedBlockCell(zigzag, S, nrows, ncols, i, j, u, v, k);
    }
  }

  /** DC slot b of channel k survives unpacking and repacking. */
  lemma RepackedDC(zigzag: seq<seq<int>>, S: Streams, nrows: nat, ncols: nat, k: nat, b: nat)
    requires IsScanTable(zigzag) && Aligned(nrows, ncols) && StreamsShaped(S, NumBlocks(nrows, ncols))
    requires k < Channels && b < NumBlocks(nrows, ncols)
    ensures DCOf(Unpack(zigzag, S, nrows, ncols), nrows, ncols, k, b) == S.dc[k][b]
  {
    BlockInImage(b, nrows, ncols);
    UnpackedCell(zigzag, S, nrows, ncols, BlockTop(b, ncols), BlockLeft(b, ncols), 0, 0, k);
  }

  /** The AC slot of coefficient (u, v) of block b survives unpacking and repacking. */
  lemma RepackedAC(zigzag: seq<seq<int>>, S: Streams, nrows: nat, ncols: nat, k: nat, b: nat, u: int, v: int)
    requires IsScanTable(zigzag) && Aligned(nrows, ncols) && StreamsShaped(S, NumBlocks(nrows, ncols))
    requires k < Channels && b < NumBlocks(nrows, ncols) && InBlock(u, v) && (u, v) != (0, 0)
    ensures 1 <= zigzag[u][v] && 63 * b + zigzag[u][v] - 1 < 63 * NumBlocks(nrows, ncols)
    ensures ACOf(zigzag, Unpack(zigzag, S, nrows, ncols), nrows, ncols, k, 63 * b + zigzag[u][v] - 1) == S.ac[k][63 * b + zigzag[u][v] - 1]
  {
    ACSlot(zigzag, b, u, v);
    BlockInImage(b, nrows, ncols);
    UnpackedCell(zigzag, S, nrows, ncols, BlockTop(b, ncols), BlockLeft(b, ncols), u, v, k);
  }

  /** Packing the unpacked streams gives the streams back: pack after unpack is the identity. */
  lemma PackUnpack(zigzag: seq<seq<int>>, S: Streams, nrows: nat, ncols: nat)
    requires IsScanTable(zigzag) && Aligned(nrows, ncols) && StreamsShaped(S, NumBlocks(nrows, ncols))
    ensures Pack(zigzag, Unpack(zigzag, S, nrows, ncols), nrows, ncols) == S
  {
    var T := Pack(zigzag, Unpack(zigzag, S, nrows, ncols), nrows, ncols);
    var nb := NumBlocks(nrows, ncols);
    forall k | 0 <= k < Channels
      ensures T.dc[k] == S.dc[k] && T.ac[k] == S.ac[k]
    {
      forall b | 0 <= b < nb
        ensures T.dc[k][b] == S.dc[k][b]
      {
        RepackedDC(zigzag, S, nrows, ncols, k, b);
      }
      forall s | 0 <= s < 63 * nb
        ensures T.ac[k][s] == S.ac[k][s]
      {
        var uv := Position(zigzag, s % 63 + 1);
        assert uv != (0, 0) by {
          assert zigzag[0][0] == 0;
        }
        RepackedAC(zigzag, S, nrows, ncols, k, s / 63, uv.0, uv.1);
      }
    }
  }
}
