/**
 * How a QR symbol's codeword stream is split into Reed-Solomon blocks.  The
 * stream of `dataCapacity` codewords is shared by `numRSBlocks` blocks, each
 * ending in `eccPerRSBlock` error-correction codewords.  When the capacity is
 * not a multiple of the block count, the last `NumLonger()` blocks carry one
 * data codeword more than the others.  The stream interleaves the blocks:
 * first the data codewords column by column, then the extra data codewords
 * of the longer blocks, then the error-correction codewords column by column.
 */
module BlockLayout {

  datatype Layout = Layout(numRSBlocks: int, dataCapacity: int, eccPerRSBlock: int)
  {
    /** The shapes the decoder can lay out without indexing past the stream. */
    predicate Valid()
    {
      numRSBlocks >= 1 && dataCapacity >= 0 && 0 <= eccPerRSBlock <= dataCapacity / numRSBlocks
    }

    /** `numLongerRSBlocks`: capacity modulo the block count (both are non-negative). */
    function NumLonger(): int
      requires numRSBlocks >= 1
    {
      dataCapacity % numRSBlocks
    }

    /** `lengthRSBlock`: the length of a shorter block. */
    function Length(): int
      requires numRSBlocks >= 1
    {
      dataCapacity / numRSBlocks
    }

    function NumShorter(): int
      requires numRSBlocks >= 1
    {
      numRSBlocks - NumLonger()
    }

    /** Number of data codewords of a shorter block. */
    function DataColumns(): int
      requires numRSBlocks >= 1
    {
      Length() - eccPerRSBlock
    }

    /** Length of block i: the shorter blocks come first. */
    function BlockLen(i: int): (r: int)
      requires Valid()
      ensures r >= eccPerRSBlock
    {
      if i < NumShorter() then Length() else Length() + 1
    }

    /** Number of data codewords of block i. */
    function DataLen(i: int): (r: int)
      requires Valid()
      ensures r >= 0
    {
      BlockLen(i) - eccPerRSBlock
    }

    /**
     * Position in the stream of codeword j of block i, as the decoder reads
     * it: `j * numRSBlocks + i`, shifted from column `Length() - eccPerRSBlock`
     * on by `+NumLonger()` for a shorter block and `-NumShorter()` for a longer one.
     */
    function ReadIndex(i: int, j: int): int
      requires numRSBlocks >= 1
    {
      j * numRSBlocks + i +
        (if j >= DataColumns() then (if i < NumShorter() then NumLonger() else -NumShorter()) else 0)
    }

    /** The codewords of block i as read out of the stream. */
    function Received(blocks: seq<bv8>, i: int): (r: seq<bv8>)
      requires Valid() && 0 <= i < numRSBlocks && |blocks| >= dataCapacity
      ensures |r| == BlockLen(i)
      ensures forall j :: 0 <= j < |r| ==> 0 <= ReadIndex(i, j) < dataCapacity && r[j] == blocks[ReadIndex(i, j)]
    {
      InRangeAll(this, i);
      seq(BlockLen(i), j requires 0 <= j < BlockLen(i) => blocks[ReadIndex(i, j)])
    }

    /** Number of data codewords of the whole symbol. */
    function TotalData(): int
      requires numRSBlocks >= 1
    {
      DataColumns() * numRSBlocks + NumLonger()
    }
  }

  /** a * n + i for a digit i below n grows strictly with a. */
  lemma RowOrder(a: int, b: int, n: int, i: int, k: int)
    requires 0 <= i < n && 0 <= k && a < b
    ensures a * n + i < b * n + k
  {
    assert b * n - a * n == (b - a) * n;
    assert (b - a) * n >= n by {
      assert (b - a) * n == (b - a - 1) * n + n;
      assert (b - a - 1) * n >= 0;
    }
  }

  /** A position in the rows above row e lies in a row above e. */
  lemma RowBelow(row: int, e: int, n: int, i: int)
    requires 0 <= i < n && row * n + i < e * n
    ensures row < e
  {
    assert e * n - row * n == (e - row) * n;
    MulPos(e - row, n);
  }

  lemma MulPos(x: int, n: int)
    requires 0 < n && 0 < x * n
    ensures 0 < x
  {
  }

  /** Row-and-digit positions are unique. */
  lemma RowUnique(a: int, i: int, b: int, k: int, n: int)
    requires 0 <= i < n && 0 <= k < n && a * n + i == b * n + k
    ensures a == b && i == k
  {
    if a < b {
      RowOrder(a, b, n, i, k);
    } else if b < a {
      RowOrder(b, a, n, k, i);
    }
  }

  /** The block and column of a stream position in one of the three regions. */
  datatype Region = DataArea(row: int, col: int) | Extra(col: int) | EccArea(row: int, col: int)

  /**
   * Which region codeword j of block i is read from: the interleaved data
   * columns, the extra data codewords of the longer blocks, or the
   * interleaved error-correction columns.
   */
  function RegionOf(l: Layout, i: int, j: int): Region
    requires l.Valid()
  {
    if j < l.DataColumns() then DataArea(j, i)
    else if i >= l.NumShorter() && j == l.DataColumns() then Extra(i - l.NumShorter())
    else if i < l.NumShorter() then EccArea(j - l.DataColumns(), i)
    else EccArea(j - l.DataColumns() - 1, i)
  }

  /** The stream position of a region coordinate. */
  function Offset(l: Layout, g: Region): int
    requires l.Valid()
  {
    match g
    case DataArea(row, col) => row * l.numRSBlocks + col
    case Extra(col) => l.DataColumns() * l.numRSBlocks + col
    case EccArea(row, col) => l.TotalData() + row * l.numRSBlocks + col
  }

  /** Coordinates within the bounds of each region. */
  predicate InRegion(l: Layout, g: Region)
    requires l.Valid()
  {
    match g
    case DataArea(row, col) => 0 <= row < l.DataColumns() && 0 <= col < l.numRSBlocks
    case Extra(col) => 0 <= col < l.NumLonger()
    case EccArea(row, col) => 0 <= row < l.eccPerRSBlock && 0 <= col < l.numRSBlocks
  }

  /** ReadIndex is the offset of the region coordinate of (i, j). */
  lemma {:induction false} ReadRegion(l: Layout, i: int, j: int)
    requires l.Valid() && 0 <= i < l.numRSBlocks && 0 <= j < l.BlockLen(i)
    ensures InRegion(l, RegionOf(l, i, j))
    ensures l.ReadIndex(i, j) == Offset(l, RegionOf(l, i, j))
  {
    var n := l.numRSBlocks;
    var p := l.DataColumns();
    if j >= p {
      assert j * n == p * n + (j - p) * n;
      if i >= l.NumShorter() && j > p {
        assert (j - p) * n == (j - p - 1) * n + n;
      }
    }
  }

  /** The stream holds the data codewords, then eccPerRSBlock error-correction codewords per block. */
  lemma Capacity(l: Layout)
    requires l.Valid()
    ensures l.dataCapacity == l.TotalData() + l.eccPerRSBlock * l.numRSBlocks
    ensures l.DataColumns() >= 0 && l.TotalData() >= 0
  {
    var n := l.numRSBlocks;
    assert l.dataCapacity == l.Length() * n + l.NumLonger();
    assert l.Length() * n == l.DataColumns() * n + l.eccPerRSBlock * n;
  }

  /** Stream positions of distinct regions are ordered: data area, extra codewords, error-correction area. */
  lemma {:induction false} OffsetBounds(l: Layout, g: Region)
    requires l.Valid() && InRegion(l, g)
    ensures g.DataArea? ==> 0 <= Offset(l, g) < l.DataColumns() * l.numRSBlocks
    ensures g.Extra? ==> l.DataColumns() * l.numRSBlocks <= Offset(l, g) < l.TotalData()
    ensures g.EccArea? ==> l.TotalData() <= Offset(l, g) < l.dataCapacity
  {
    var n := l.numRSBlocks;
    match g
    case DataArea(row, col) =>
      assert row * n >= 0;
      RowOrder(row, l.DataColumns(), n, col, 0);
    case Extra(col) =>
    case EccArea(row, col) =>
      assert row * n >= 0;
      RowOrder(row, l.eccPerRSBlock, n, col, 0);
      Capacity(l);
  }

  /** Every codeword the decoder reads lies inside the stream. */
  lemma InRange(l: Layout, i: int, j: int)
    requires l.Valid() && 0 <= i < l.numRSBlocks && 0 <= j < l.BlockLen(i)
    ensures 0 <= l.ReadIndex(i, j) < l.dataCapacity
  {
    var g := RegionOf(l, i, j);
    ReadRegion(l, i, j);
    OffsetBounds(l, g);
    Capacity(l);
    assert 0 <= Offset(l, g) < l.dataCapacity;
  }

  lemma InRangeAll(l: Layout, i: int)
    requires l.Valid() && 0 <= i < l.numRSBlocks
    ensures forall j :: 0 <= j < l.BlockLen(i) ==> 0 <= l.ReadIndex(i, j) < l.dataCapacity
  {
    forall j | 0 <= j < l.BlockLen(i)
      ensures 0 <= l.ReadIndex(i, j) < l.dataCapacity
    {
      InRange(l, i, j);
    }
  }

  /**
   * Data codewords come first: codeword j of block i is read from the first
   * TotalData() positions exactly when it is one of the block's data codewords.
   */
  lemma DataFirst(l: Layout, i: int, j: int)
    requires l.Valid() && 0 <= i < l.numRSBlocks && 0 <= j < l.BlockLen(i)
    ensures l.ReadIndex(i, j) < l.TotalData() <==> j < l.DataLen(i)
  {
    ReadRegion(l, i, j);
    OffsetBounds(l, RegionOf(l, i, j));
  }

  /** No two codewords of the blocks are read from the same position. */
  lemma {:induction false} ReadInjective(l: Layout, i1: int, j1: int, i2: int, j2: int)
    requires l.Valid()
    requires 0 <= i1 < l.numRSBlocks && 0 <= j1 < l.BlockLen(i1)
    requires 0 <= i2 < l.numRSBlocks && 0 <= j2 < l.BlockLen(i2)
    requires l.ReadIndex(i1, j1) == l.ReadIndex(i2, j2)
    ensures i1 == i2 && j1 == j2
  {
    var g1 := RegionOf(l, i1, j1);
    var g2 := RegionOf(l, i2, j2);
    ReadRegion(l, i1, j1);
    ReadRegion(l, i2, j2);
    OffsetBounds(l, g1);
    OffsetBounds(l, g2);
    assert g1.DataArea? == g2.DataArea? && g1.Extra? == g2.Extra?;
    match g1
    case DataArea(r1, c1) =>
      RowUnique(r1, c1, g2.row, g2.col, l.numRSBlocks);
    case Extra(c1) =>
    case EccArea(r1, c1) =>
      RowUnique(r1, c1, g2.row, g2.col, l.numRSBlocks);
  }

  /** The block and codeword read from stream position k. */
  function Locate(l: Layout, k: int): (p: (int, int))
    requires l.Valid() && 0 <= k < l.dataCapacity
    ensures 0 <= p.0 < l.numRSBlocks && 0 <= p.1 < l.BlockLen(p.0)
    ensures l.ReadIndex(p.0, p.1) == k
  {
    var n := l.numRSBlocks;
    var d := l.DataColumns();
    if k < d * n then
      LocateData(l, k);
      (k % n, k / n)
    else if k < l.TotalData() then
      LocateExtra(l, k);
      (l.NumShorter() + (k - d * n), d)
    else
      LocateEcc(l, k);
      EccSlot(l, k)
  }

  lemma LocateData(l: Layout, k: int)
    requires l.Valid() && 0 <= k < l.DataColumns() * l.numRSBlocks
    ensures var n := l.numRSBlocks; 0 <= k / n < l.DataColumns() && l.ReadIndex(k % n, k / n) == k
  {
    var n := l.numRSBlocks;
    var i, j := k % n, k / n;
    DivMod(k, n);
    DataRow(l, i, j, k);
  }

  lemma DivMod(k: int, n: int)
    requires 0 <= k && 0 < n
    ensures k == (k / n) * n + k % n && 0 <= k % n < n && 0 <= k / n
  {
  }

  lemma {:induction false} DataRow(l: Layout, i: int, j: int, k: int)
    requires l.Valid() && 0 <= i < l.numRSBlocks && 0 <= j && k == j * l.numRSBlocks + i
    requires k < l.DataColumns() * l.numRSBlocks
    ensures j < l.DataColumns() && l.ReadIndex(i, j) == k
  {
    var n := l.numRSBlocks;
    var d := l.DataColumns();
    if j >= d {
      assert j * n >= d * n by {
        if j > d {
          RowOrder(d, j, n, 0, 0);
        }
      }
    }
  }

  lemma LocateExtra(l: Layout, k: int)
    requires l.Valid() && l.DataColumns() * l.numRSBlocks <= k < l.TotalData()
    ensures var i := l.NumShorter() + (k - l.DataColumns() * l.numRSBlocks);
      l.NumShorter() <= i < l.numRSBlocks && l.ReadIndex(i, l.DataColumns()) == k
  {
    var i := l.NumShorter() + (k - l.DataColumns() * l.numRSBlocks);
    ReadRegion(l, i, l.DataColumns());
  }

  /** The block and codeword of a position in the error-correction area. */
  function EccSlot(l: Layout, k: int): (int, int)
    requires l.Valid() && l.TotalData() <= k
  {
    var e := k - l.TotalData();
    var i := e % l.numRSBlocks;
    var row := e / l.numRSBlocks;
    (i, if i < l.NumShorter() then l.DataColumns() + row else l.DataColumns() + row + 1)
  }

  lemma LocateEcc(l: Layout, k: int)
    requires l.Valid() && l.TotalData() <= k < l.dataCapacity
    ensures var p := EccSlot(l, k);
      0 <= p.0 < l.numRSBlocks && 0 <= p.1 < l.BlockLen(p.0) && l.ReadIndex(p.0, p.1) == k
  {
    var n := l.numRSBlocks;
    var e := k - l.TotalData();
    DivMod(e, n);
    EccRow(l, e % n, e / n, k);
  }

  lemma {:induction false} EccRow(l: Layout, i: int, row: int, k: int)
    requires l.Valid() && 0 <= i < l.numRSBlocks && 0 <= row
    requires k == l.TotalData() + row * l.numRSBlocks + i && k < l.dataCapacity
    ensures var j := if i < l.NumShorter() then l.DataColumns() + row else l.DataColumns() + row + 1;
      0 <= j < l.BlockLen(i) && l.ReadIndex(i, j) == k
  {
    var n := l.numRSBlocks;
    Capacity(l);
    RowBelow(row, l.eccPerRSBlock, n, i);
    var j := if i < l.NumShorter() then l.DataColumns() + row else l.DataColumns() + row + 1;
    ReadRegion(l, i, j);
  }

  /** Every stream position is read exactly once: Locate inverts ReadIndex. */
  lemma LocateInverse(l: Layout, i: int, j: int)
    requires l.Valid() && 0 <= i < l.numRSBlocks && 0 <= j < l.BlockLen(i)
    ensures 0 <= l.ReadIndex(i, j) < l.dataCapacity
    ensures Locate(l, l.ReadIndex(i, j)) == (i, j)
  {
    InRange(l, i, j);
    var p := Locate(l, l.ReadIndex(i, j));
    ReadInjective(l, i, j, p.0, p.1);
  }

  /** With blocks of one length, codeword j of block i is simply at `j * numRSBlocks + i`. */
  lemma EqualBlocks(l: Layout, i: int, j: int)
    requires l.Valid() && l.NumLonger() == 0 && 0 <= i < l.numRSBlocks
    ensures l.ReadIndex(i, j) == j * l.numRSBlocks + i
  {
  }

  /** Sum of the data lengths of the first k blocks. */
  function DataBefore(l: Layout, k: int): (r: int)
    requires l.Valid() && 0 <= k <= l.numRSBlocks
    ensures r >= 0
    decreases k
  {
    if k == 0 then 0 else DataBefore(l, k - 1) + l.DataLen(k - 1)
  }

  /** The data lengths of the blocks add up to TotalData(), which leaves room for the error-correction codewords. */
  lemma {:induction false} DataBeforeAll(l: Layout, k: int)
    requires l.Valid() && 0 <= k <= l.numRSBlocks
    ensures DataBefore(l, k) == l.DataColumns() * k + (if k <= l.NumShorter() then 0 else k - l.NumShorter())
    ensures k == l.numRSBlocks ==> DataBefore(l, k) == l.TotalData() == l.dataCapacity - l.numRSBlocks * l.eccPerRSBlock
    decreases k
  {
    if k > 0 {
      DataBeforeAll(l, k - 1);
      assert l.DataColumns() * k == l.DataColumns() * (k - 1) + l.DataColumns();
    }
    Capacity(l);
  }
}
