/**
 * Constant tables of the JPEG encoder/decoder (a3/jpeg.py): the three
 * quantisation tables and the zig-zag scan order of an 8x8 block.
 *
 * The zig-zag table is the scan of ITU-T T.81 (ISO/IEC 10918-1), section
 * A.3.6, Figure 5; the quantisation tables are the example tables of Annex K,
 * Tables K.1 (luminance) and K.2 (chrominance), the latter used twice.
 *
 * Blocks are 8x8: 64 coefficients, the DC one and 63 AC ones. The sizes
 * are written as literals throughout, as in the source, which also keeps
 * the arithmetic on block and slot numbers linear for the verifier.
 */
module JpegTables {

  /** Divisors indexed [channel][u][v]; channel 0 is luma, 1 and 2 chroma. */
  const QuantizationTable: seq<seq<seq<int>>> := [
    [ [ 16,  11,  10,  16,  24,  40,  51,  61 ],
      [ 12,  12,  14,  19,  26,  58,  60,  55 ],
      [ 14,  13,  16,  24,  40,  57,  69,  56 ],
      [ 14,  17,  22,  29,  51,  87,  80,  62 ],
      [ 18,  22,  37,  56,  68, 109, 103,  77 ],
      [ 24,  35,  55,  64,  81, 104, 113,  92 ],
      [ 49,  64,  78,  87, 103, 121, 120, 101 ],
      [ 72,  92,  95,  98, 112, 100, 103,  99 ] ],

    [ [ 17,  18,  24,  47,  99,  99,  99,  99 ],
      [ 18,  21,  26,  66,  99,  99,  99,  99 ],
      [ 24,  26,  56,  99,  99,  99,  99,  99 ],
      [ 47,  66,  99,  99,  99,  99,  99,  99 ],
      [ 99,  99,  99,  99,  99,  99,  99,  99 ],
      [ 99,  99,  99,  99,  99,  99,  99,  99 ],
      [ 99,  99,  99,  99,  99,  99,  99,  99 ],
      [ 99,  99,  99,  99,  99,  99,  99,  99 ] ],

    [ [ 17,  18,  24,  47,  99,  99,  99,  99 ],
      [ 18,  21,  26,  66,  99,  99,  99,  99 ],
      [ 24,  26,  56,  99,  99,  99,  99,  99 ],
      [ 47,  66,  99,  99,  99,  99,  99,  99 ],
      [ 99,  99,  99,  99,  99,  99,  99,  99 ],
      [ 99,  99,  99,  99,  99,  99,  99,  99 ],
      [ 99,  99,  99,  99,  99,  99,  99,  99 ],
      [ 99,  99,  99,  99,  99,  99,  99,  99 ] ]
  ]

  /** Zigzag[u][v] is the scan position of the coefficient in row u, column v. */
  const Zigzag: seq<seq<int>> := [
    [  0,  1,  5,  6, 14, 15, 27, 28 ],
    [  2,  4,  7, 13, 16, 26, 29, 42 ],
    [  3,  8, 12, 17, 25, 30, 41, 43 ],
    [  9, 11, 18, 24, 31, 40, 44, 53 ],
    [ 10, 19, 23, 32, 39, 45, 52, 54 ],
    [ 20, 22, 33, 38, 46, 51, 55, 60 ],
    [ 21, 34, 37, 47, 50, 56, 59, 61 ],
    [ 35, 36, 48, 49, 57, 58, 62, 63 ]
  ]

  /**
   * The inverse of Zigzag: the (row, column) visited at scan position p is
   * ScanOrder[p / 8][p % 8], eight scan positions per line.
   */
  const ScanOrder: seq<seq<(int, int)>> := [
    [(0, 0), (0, 1), (1, 0), (2, 0), (1, 1), (0, 2), (0, 3), (1, 2)],
    [(2, 1), (3, 0), (4, 0), (3, 1), (2, 2), (1, 3), (0, 4), (0, 5)],
    [(1, 4), (2, 3), (3, 2), (4, 1), (5, 0), (6, 0), (5, 1), (4, 2)],
    [(3, 3), (2, 4), (1, 5), (0, 6), (0, 7), (1, 6), (2, 5), (3, 4)],
    [(4, 3), (5, 2), (6, 1), (7, 0), (7, 1), (6, 2), (5, 3), (4, 4)],
    [(3, 5), (2, 6), (1, 7), (2, 7), (3, 6), (4, 5), (5, 4), (6, 3)],
    [(7, 2), (7, 3), (6, 4), (5, 5), (4, 6), (3, 7), (4, 7), (5, 6)],
    [(6, 5), (7, 4), (7, 5), (6, 6), (5, 7), (6, 7), (7, 6), (7, 7)]
  ]

  predicate InBlock(u: int, v: int) {
    0 <= u < 8 && 0 <= v < 8
  }

  /** The scan position of coefficient (u, v); the inverse is BlockPosition. */
  function ScanPosition(u: int, v: int): (p: int)
    requires InBlock(u, v)
    ensures 0 <= p < 64
    ensures BlockPosition(p) == (u, v)
  {
    Zigzag[u][v]
  }

  /** The coefficient visited at scan position p; the inverse is ScanPosition. */
  function BlockPosition(p: int): (uv: (int, int))
    requires 0 <= p < 64
    ensures InBlock(uv.0, uv.1)
    ensures Zigzag[uv.0][uv.1] == p
  {
    ScanOrder[p / 8][p % 8]
  }

  /** The scan positions the table assigns. */
  function TableValues(): set<int> {
    set u, v | 0 <= u < 8 && 0 <= v < 8 :: Zigzag[u][v]
  }

  /**
   * Zigzag is a permutation of 0..63: every scan position is taken by exactly
   * one coefficient.
   */
  lemma ZigzagIsPermutation()
    ensures forall u, v :: InBlock(u, v) ==> 0 <= Zigzag[u][v] < 64
    ensures forall u, v, u', v' :: InBlock(u, v) && InBlock(u', v') && Zigzag[u][v] == Zigzag[u'][v'] ==> u == u' && v == v'
    ensures forall p :: p in TableValues() <==> 0 <= p < 64
  {
    forall u, v, u', v' | InBlock(u, v) && InBlock(u', v') && Zigzag[u][v] == Zigzag[u'][v']
      ensures u == u' && v == v'
    {
      assert BlockPosition(ScanPosition(u, v)) == BlockPosition(ScanPosition(u', v'));
    }
    forall p | 0 <= p < 64
      ensures p in TableValues()
    {
      var (u, v) := BlockPosition(p);
      assert Zigzag[u][v] in TableValues();
    }
  }

  /**
   * DC takes scan position 0, so the 63 AC coefficients take positions
   * 1..63, that is AC slots 0..62 once the DC position is removed.
   */
  lemma DCFirst()
    ensures Zigzag[0][0] == 0
    ensures forall u, v :: InBlock(u, v) && (u, v) != (0, 0) ==> 1 <= Zigzag[u][v] < 64
  {
    forall u, v | InBlock(u, v) && (u, v) != (0, 0)
      ensures 1 <= Zigzag[u][v] < 64
    {
      assert BlockPosition(ScanPosition(u, v)) == (u, v);
      assert BlockPosition(0) == (0, 0);
    }
  }

  /**
   * What the coding passes need of a scan table: an 8x8 table that puts the
   * DC coefficient first and maps the 64 coefficients one-to-one onto the
   * scan positions 0..63.
   */
  ghost predicate IsScanTable(zigzag: seq<seq<int>>) {
    && |zigzag| == 8
    && (forall u :: 0 <= u < 8 ==> |zigzag[u]| == 8)
    && zigzag[0][0] == 0
    && (forall u, v :: InBlock(u, v) ==> 0 <= zigzag[u][v] < 64)
    && (forall u, v, u', v' :: InBlock(u, v) && InBlock(u', v') && zigzag[u][v] == zigzag[u'][v'] ==> u == u' && v == v')
    && (forall p :: 0 <= p < 64 ==> Scans(zigzag, p))
  }

  /** Some coefficient of the block has scan position p. */
  ghost predicate Scans(zigzag: seq<seq<int>>, p: int)
    requires |zigzag| == 8 && forall u :: 0 <= u < 8 ==> |zigzag[u]| == 8
  {
    exists u, v :: InBlock(u, v) && zigzag[u][v] == p
  }

  /** Every scan position 0..63 is taken by some coefficient. */
  lemma ZigzagCovers()
    ensures forall p :: 0 <= p < 64 ==> Scans(Zigzag, p)
  {
    forall p | 0 <= p < 64
      ensures Scans(Zigzag, p)
    {
      var uv := BlockPosition(p);
      assert InBlock(uv.0, uv.1) && Zigzag[uv.0][uv.1] == p;
    }
  }

  /** A scan table gives every coefficient but the DC one an AC scan position, 1..63. */
  lemma ScanTableAC(zigzag: seq<seq<int>>, u: int, v: int)
    requires IsScanTable(zigzag) && InBlock(u, v) && (u, v) != (0, 0)
    ensures 1 <= zigzag[u][v] < 64
  {
    assert InBlock(0, 0);
  }

  /** A scan table gives two coefficients of a block two different scan positions. */
  lemma ScanTableInjective(zigzag: seq<seq<int>>, u: int, v: int, u': int, v': int)
    requires IsScanTable(zigzag) && InBlock(u, v) && InBlock(u', v') && (u, v) != (u', v')
    ensures zigzag[u][v] != zigzag[u'][v']
  {
  }

  /** The zig-zag table is a scan table. */
  lemma ZigzagIsScanTable()
    ensures IsScanTable(Zigzag)
  {
    ZigzagIsPermutation();
    DCFirst();
    ZigzagCovers();
  }

  /** Number of coefficients on anti-diagonal d (the cells with u + v == d). */
  function DiagonalLength(d: int): (n: int)
    requires 0 <= d < 15
    ensures 1 <= n <= 8
  {
    if d < 8 then d + 1 else 15 - d
  }

  /** Number of coefficients on the anti-diagonals below d. */
  function DiagonalStart(d: int): (n: int)
    requires 0 <= d < 16
  {
    if d <= 8 then d * (d + 1) / 2 else 64 - (16 - d) * (15 - d) / 2
  }

  /**
   * The scan of Figure 5 of T.81 in closed form: anti-diagonal d = u + v is
   * visited after all lower ones, by increasing row on odd diagonals and by
   * increasing column on even ones.
   */
  function DiagonalScan(u: int, v: int): (p: int)
    requires InBlock(u, v)
  {
    var d := u + v;
    var first := if d >= 8 then d - (8 - 1) else 0;
    DiagonalStart(d) + (if d % 2 == 1 then u else v) - first
  }

  /** The table agrees with the diagonal rule in every cell. */
  lemma ZigzagIsDiagonalScan(u: int, v: int)
    requires InBlock(u, v)
    ensures Zigzag[u][v] == DiagonalScan(u, v)
  {
    if u < 4 {
      UpperHalfIsDiagonalScan(u, v);
    } else {
      LowerHalfIsDiagonalScan(u, v);
    }
  }

  /** Rows 0 to 3 of the table, cell by cell. */
  lemma UpperHalfIsDiagonalScan(u: int, v: int)
    requires InBlock(u, v) && u < 4
    ensures Zigzag[u][v] == DiagonalScan(u, v)
  {
  }

  /** Rows 4 to 7 of the table, cell by cell. */
  lemma LowerHalfIsDiagonalScan(u: int, v: int)
    requires InBlock(u, v) && 4 <= u
    ensures Zigzag[u][v] == DiagonalScan(u, v)
  {
  }

  lemma DiagonalStartStep(d: int)
    requires 0 <= d < 15
    ensures DiagonalStart(d + 1) == DiagonalStart(d) + DiagonalLength(d)
  {
    if d < 8 {
      assert (d + 1) * (d + 2) == d * (d + 1) + 2 * (d + 1);
    } else {
      assert (16 - d) * (15 - d) == (15 - d) * (14 - d) + 2 * (15 - d);
    }
  }

  /** Each anti-diagonal d occupies the scan positions [DiagonalStart(d), DiagonalStart(d + 1)). */
  lemma ZigzagWithinDiagonal(u: int, v: int)
    requires InBlock(u, v)
    ensures DiagonalStart(u + v) <= Zigzag[u][v] < DiagonalStart(u + v + 1)
  {
    ZigzagIsDiagonalScan(u, v);
    DiagonalStartStep(u + v);
  }

  lemma {:induction false} DiagonalStartMonotone(d: int, d': int)
    requires 0 <= d <= d' < 16
    ensures DiagonalStart(d) <= DiagonalStart(d')
    decreases d' - d
  {
    if d < d' {
      DiagonalStartMonotone(d, d' - 1);
      DiagonalStartStep(d' - 1);
    }
  }

  /**
   * Low frequencies come first: a coefficient on a lower anti-diagonal is
   * scanned before every coefficient on a higher one.
   */
  lemma ZigzagDiagonalOrder(u: int, v: int, u': int, v': int)
    requires InBlock(u, v) && InBlock(u', v')
    requires u + v < u' + v'
    ensures Zigzag[u][v] < Zigzag[u'][v']
  {
    ZigzagWithinDiagonal(u, v);
    ZigzagWithinDiagonal(u', v');
    DiagonalStartMonotone(u + v + 1, u' + v');
  }

  /** No divisor of any table is zero (nor negative). */
  lemma QuantizationTablePositive()
    ensures |QuantizationTable| == 3
    ensures forall k :: 0 <= k < 3 ==> |QuantizationTable[k]| == 8
    ensures forall k, u :: 0 <= k < 3 && 0 <= u < 8 ==> |QuantizationTable[k][u]| == 8
    ensures forall k, u, v :: 0 <= k < 3 && InBlock(u, v) ==> QuantizationTable[k][u][v] > 0
  {
  }

  /** The two chroma channels share one table. */
  lemma ChromaTablesIdentical()
    ensures QuantizationTable[1] == QuantizationTable[2]
  {
  }
}
