/**
 * The decoder: it corrects the Reed-Solomon blocks of a symbol, retries a
 * failed decoding with adjusted sampling grids, and keeps the failure count
 * of the last correction in a field.
 *
 * Reading the image, sampling the symbol and turning corrected data into
 * bytes are outside this model: the retry loop takes what each attempt gave
 * as a parameter (see module Retry).
 */
module QRCodeDecoder {
  import opened JavaInt
  import opened Galois
  import opened RsDecode
  import opened BlockLayout
  import opened DataBlocks
  import opened Retry
  import Point
  import ContentConverter

  // ---------------------------------------------------------------------
  // Adjustments of the sampling grid
  // ---------------------------------------------------------------------

  /** The grid offsets the adjustment visits: off the diagonal, with an even coordinate sum. */
  predicate Qualifies(x: int, y: int)
  {
    x != y && (x + y) % 2 == 0
  }

  /** Java's remainder by 2 is 0 exactly when the sum is even. */
  lemma RemEven(a: int)
    ensures Rem(a, 2) == 0 <==> a % 2 == 0
  {
  }

  /** The qualifying offsets (x, y) of row y, x running from x0 down to -3. */
  function RowSites(y: int, x0: int): seq<(int, int)>
    requires -4 <= x0 <= 0
    decreases x0 + 4
  {
    if x0 == -4 then [] else (if Qualifies(x0, y) then [(x0, y)] else []) + RowSites(y, x0 - 1)
  }

  /** The qualifying offsets of rows y0 down to -3, row by row. */
  function GridSites(y0: int): seq<(int, int)>
    requires -4 <= y0 <= 0
    decreases y0 + 4
  {
    if y0 == -4 then [] else RowSites(y0, 0) + GridSites(y0 - 1)
  }

  /** The last site visited, (0, 0) before the first. */
  function LastOf(sites: seq<(int, int)>): (int, int)
  {
    if |sites| == 0 then (0, 0) else sites[|sites| - 1]
  }

  /** The moves from each site to the next, starting from `from`. */
  function Steps(sites: seq<(int, int)>, from: (int, int)): (r: seq<(int, int)>)
    ensures |r| == |sites|
    decreases |sites|
  {
    if |sites| == 0 then [] else [(sites[0].0 - from.0, sites[0].1 - from.1)] + Steps(sites[1..], sites[0])
  }

  /** Four unit moves, then the moves between the given sites. */
  function Planned(done: seq<(int, int)>): seq<(int, int)>
  {
    [(1, 1), (1, 1), (1, 1), (1, 1)] + Steps(done, (0, 0))
  }

  /** The adjustments: four unit moves, then the moves between the sites of the grid. */
  function AdjustMoves(): seq<(int, int)>
  {
    Planned(GridSites(0))
  }

  /** Visiting one more site adds the move to it from the last. */
  lemma PlannedSnoc(done: seq<(int, int)>, s: (int, int))
    ensures Planned(done + [s]) ==
      Planned(done) + [(s.0 - LastOf([(0, 0)] + done).0, s.1 - LastOf([(0, 0)] + done).1)]
  {
    StepsSnoc(done, (0, 0), s);
  }

  /** Sum of the first k moves. */
  function SumOf(moves: seq<(int, int)>, k: int): (int, int)
    requires 0 <= k <= |moves|
    decreases k
  {
    if k == 0 then (0, 0) else (SumOf(moves, k - 1).0 + moves[k - 1].0, SumOf(moves, k - 1).1 + moves[k - 1].1)
  }

  /** The grid visits four sites, and the adjustments are the moves listed here. */
  lemma AdjustValues()
    ensures GridSites(0) == [(-2, 0), (-3, -1), (0, -2), (-1, -3)]
    ensures AdjustMoves() == [(1, 1), (1, 1), (1, 1), (1, 1), (-2, 0), (-1, -1), (3, -1), (-1, -1)]
  {
    GridValue();
    MovesValue(GridSites(0));
  }

  lemma MovesValue(g: seq<(int, int)>)
    requires g == [(-2, 0), (-3, -1), (0, -2), (-1, -3)]
    ensures Planned(g) == [(1, 1), (1, 1), (1, 1), (1, 1), (-2, 0), (-1, -1), (3, -1), (-1, -1)]
  {
    PlannedFour(g, (-2, 0), (-3, -1), (0, -2), (-1, -3));
  }

  /** The moves planned for four sites, written out. */
  lemma PlannedFour(g: seq<(int, int)>, a: (int, int), b: (int, int), c: (int, int), d: (int, int))
    requires g == [a, b, c, d]
    ensures Planned(g) == [(1, 1), (1, 1), (1, 1), (1, 1), a, (b.0 - a.0, b.1 - a.1), (c.0 - b.0, c.1 - b.1), (d.0 - c.0, d.1 - c.1)]
  {
    StepsCons(d, [], c);
    assert [c, d] == [c] + [d];
    StepsCons(c, [d], b);
    assert [b, c, d] == [b] + [c, d];
    StepsCons(b, [c, d], a);
    assert g == [a] + [b, c, d];
    StepsCons(a, [b, c, d], (0, 0));
  }

  lemma GridValue()
    ensures GridSites(0) == [(-2, 0), (-3, -1), (0, -2), (-1, -3)]
  {
    RowValue(0, -2);
    RowValue(-1, -3);
    RowValue(-2, 0);
    RowValue(-3, -1);
    assert GridSites(-4) == [];
    assert GridSites(-3) == [(-1, -3)];
    assert GridSites(-2) == [(0, -2), (-1, -3)];
    assert GridSites(-1) == [(-3, -1), (0, -2), (-1, -3)];
  }

  lemma StepsCons(s: (int, int), rest: seq<(int, int)>, from: (int, int))
    ensures Steps([s] + rest, from) == [(s.0 - from.0, s.1 - from.1)] + Steps(rest, s)
  {
    assert ([s] + rest)[1..] == rest;
  }

  /** Each row of the grid holds exactly one qualifying site, at x. */
  lemma RowValue(y: int, x: int)
    requires -3 <= x <= 0 && Qualifies(x, y)
    requires forall x' :: -3 <= x' <= 0 && x' != x ==> !Qualifies(x', y)
    ensures RowSites(y, 0) == [(x, y)]
  {
    assert RowSites(y, -4) == [];
    assert RowSites(y, -3) == (if x == -3 then [(x, y)] else []);
    assert RowSites(y, -2) == (if -3 <= x <= -2 then [(x, y)] else []);
    assert RowSites(y, -1) == (if -3 <= x <= -1 then [(x, y)] else []);
  }

  /**
   * The adjustments act one after another: applying the first k + 1 moves
   * between sites, starting from `from`, lands on site k.
   */
  lemma {:induction false} StepsReach(sites: seq<(int, int)>, from: (int, int), k: int)
    requires 0 <= k < |sites|
    ensures var s := SumOf(Steps(sites, from), k + 1); (from.0 + s.0, from.1 + s.1) == sites[k]
    decreases k
  {
    var st := Steps(sites, from);
    if k == 0 {
      assert SumOf(st, 1) == (st[0].0, st[0].1);
    } else {
      StepsReach(sites[1..], sites[0], k - 1);
      SumShift(st, k);
    }
  }

  /** Summing moves 1..k+1 of a list is summing its tail, after the first move. */
  lemma {:induction false} SumShift(moves: seq<(int, int)>, k: int)
    requires 1 <= k < |moves|
    ensures SumOf(moves, k + 1) == (moves[0].0 + SumOf(moves[1..], k).0, moves[0].1 + SumOf(moves[1..], k).1)
    decreases k
  {
    if k > 1 {
      SumShift(moves, k - 1);
    }
    assert moves[1..][k - 1] == moves[k];
  }

  /** Appending a site appends the move to it from the last one. */
  lemma {:induction false} StepsSnoc(sites: seq<(int, int)>, from: (int, int), s: (int, int))
    ensures Steps(sites + [s], from) == Steps(sites, from) + [(s.0 - LastOf([from] + sites).0, s.1 - LastOf([from] + sites).1)]
    decreases |sites|
  {
    if |sites| > 0 {
      assert (sites + [s])[1..] == sites[1..] + [s];
      StepsSnoc(sites[1..], sites[0], s);
      assert [sites[0]] + sites[1..] == sites;
      assert LastOf([sites[0]] + sites[1..]) == LastOf([from] + sites);
    }
  }

  /** The coordinates of a list of points. */
  function Coords(pts: seq<Point.Point>): (r: seq<(int, int)>)
    reads pts
    ensures |r| == |pts|
  {
    seq(|pts|, k requires 0 <= k < |pts| reads pts => (pts[k].x as int, pts[k].y as int))
  }

  /** Taking row y off the grid still to visit. */
  lemma GridStep(done: seq<(int, int)>, y: int)
    requires -3 <= y <= 0
    ensures done + GridSites(y) == (done + RowSites(y, 0)) + GridSites(y - 1)
  {
    var r := RowSites(y, 0);
    var g := GridSites(y - 1);
    assert GridSites(y) == r + g;
    assert done + (r + g) == (done + r) + g;
  }

  lemma ArrayCopy(adjusts: array<Point.Point>, pts: seq<Point.Point>)
    requires adjusts.Length == |pts| && forall k :: 0 <= k < |pts| ==> adjusts[k] == pts[k]
    ensures adjusts[..] == pts
  {
  }

  /** Once the whole grid is visited, the moves are the adjustments. */
  lemma AllSites(moves: seq<(int, int)>, done: seq<(int, int)>, top: int)
    requires top == 0 && done == GridSites(top) && moves == Planned(done)
    ensures moves == AdjustMoves()
  {
  }

  lemma CoordsSnoc(pts: seq<Point.Point>, p: Point.Point)
    ensures Coords(pts + [p]) == Coords(pts) + [(p.x as int, p.y as int)]
  {
  }

  lemma LastSnoc(done: seq<(int, int)>, s: (int, int))
    ensures LastOf([(0, 0)] + (done + [s])) == s
  {
  }

  /** The inner loop over x for row y: adds a point for every qualifying site. */
  method AdjustRow(pts: seq<Point.Point>, y: int32, lastX: int32, lastY: int32, ghost done: seq<(int, int)>)
    returns (pts': seq<Point.Point>, lastX': int32, lastY': int32, ghost done': seq<(int, int)>)
    requires -3 <= y <= 0
    requires (lastX as int, lastY as int) == LastOf([(0, 0)] + done)
    requires Coords(pts) == Planned(done)
    requires forall s :: s in done ==> -3 <= s.0 <= 0 && -3 <= s.1 <= 0
    ensures done' == done + RowSites(y as int, 0)
    ensures (lastX' as int, lastY' as int) == LastOf([(0, 0)] + done')
    ensures Coords(pts') == Planned(done')
    ensures forall s :: s in done' ==> -3 <= s.0 <= 0 && -3 <= s.1 <= 0
  {
    pts', lastX', lastY', done' := pts, lastX, lastY, done;
    var x: int32 := 0;
    while x > -4
      invariant -4 <= x <= 0
      invariant done + RowSites(y as int, 0) == done' + RowSites(y as int, x as int)
      invariant (lastX' as int, lastY' as int) == LastOf([(0, 0)] + done')
      invariant Coords(pts') == Planned(done')
      invariant forall s :: s in done' ==> -3 <= s.0 <= 0 && -3 <= s.1 <= 0
    {
      RemEven(x as int + y as int);
      if x != y && Rem(x as int + y as int, 2) == 0 {
        RowTaken(done', y as int, x as int);
        pts', done' := AddMove(pts', x, y, lastX', lastY', done');
        lastX', lastY' := x, y;
      } else {
        RowSkipped(y as int, x as int);
      }
      x := x - 1;
    }
  }

  /** A qualifying site at x moves from the rest of row y to the sites visited. */
  lemma RowTaken(done: seq<(int, int)>, y: int, x: int)
    requires -3 <= x <= 0 && Qualifies(x, y)
    ensures done + RowSites(y, x) == (done + [(x, y)]) + RowSites(y, x - 1)
  {
  }

  /** A site that does not qualify is passed over. */
  lemma RowSkipped(y: int, x: int)
    requires -3 <= x <= 0 && !Qualifies(x, y)
    ensures RowSites(y, x) == RowSites(y, x - 1)
  {
    assert RowSites(y, x) == [] + RowSites(y, x - 1);
  }

  /** Appends the point holding the move from the last site to (x, y). */
  method AddMove(pts: seq<Point.Point>, x: int32, y: int32, lastX: int32, lastY: int32, ghost done: seq<(int, int)>)
    returns (pts': seq<Point.Point>, ghost done': seq<(int, int)>)
    requires -3 <= x <= 0 && -3 <= y <= 0
    requires (lastX as int, lastY as int) == LastOf([(0, 0)] + done)
    requires Coords(pts) == Planned(done)
    requires forall s :: s in done ==> -3 <= s.0 <= 0 && -3 <= s.1 <= 0
    ensures done' == done + [(x as int, y as int)]
    ensures (x as int, y as int) == LastOf([(0, 0)] + done')
    ensures Coords(pts') == Planned(done')
    ensures forall s :: s in done' ==> -3 <= s.0 <= 0 && -3 <= s.1 <= 0
  {
    ghost var site := (x as int, y as int);
    assert LastOf([(0, 0)] + done) in [(0, 0)] + done;
    var p := new Point.Point(x - lastX, y - lastY);
    PlannedSnoc(done, site);
    LastSnoc(done, site);
    CoordsSnoc(pts, p);
    pts' := pts + [p];
    done' := done + [site];
  }

  // ---------------------------------------------------------------------
  // Reading one Reed-Solomon block out of the codeword stream
  // ---------------------------------------------------------------------

  /**
   * Reads block i: codeword j comes from `j * numRSBlocks + i + mod`, where
   * mod turns from 0 to the block's shift at the first error-correction
   * column.  With blocks of one length the shift is 0, which is the plain
   * `j * numRSBlocks + i` of that case.
   */
  method ReadBlock(blocks: array<bv8>, l: Layout, i: int) returns (b: array<bv8>)
    requires l.Valid() && 0 <= i < l.numRSBlocks && blocks.Length >= l.dataCapacity
    ensures fresh(b) && b[..] == l.Received(blocks[..], i)
  {
    var n := l.numRSBlocks;
    var len := l.BlockLen(i);
    var shift := if i < l.NumShorter() then l.NumLonger() else -l.NumShorter();
    b := new bv8[len];
    var mod := 0;
    var j := 0;
    while j < len
      invariant 0 <= j <= len
      invariant mod == (if j > l.DataColumns() then shift else 0)
      invariant forall m :: 0 <= m < j ==> 0 <= l.ReadIndex(i, m) < blocks.Length && b[m] == blocks[l.ReadIndex(i, m)]
    {
      if j == l.DataColumns() {
        mod := shift;
      }
      InRange(l, i, j);
      b[j] := blocks[j * n + i + mod];
      j := j + 1;
    }
  }

  /** Copies the first m codewords of src to dataBlocks from position p on. */
  method CopyData(dataBlocks: array<bv8>, src: seq<bv8>, p: int, m: int)
    requires 0 <= m <= |src| && 0 <= p && p + m <= dataBlocks.Length
    modifies dataBlocks
    ensures dataBlocks[..] == old(dataBlocks[..p]) + src[..m] + old(dataBlocks[p + m..])
  {
    ghost var orig := dataBlocks[..];
    var j := 0;
    while j < m
      invariant 0 <= j <= m
      invariant dataBlocks[..] == orig[..p] + src[..j] + orig[p + j..]
    {
      ghost var before := dataBlocks[..];
      dataBlocks[p + j] := src[j];
      assert dataBlocks[..] == before[p + j := src[j]];
      CopyStep(before, orig, src, p, j);
      j := j + 1;
    }
    assert orig[..p] == old(dataBlocks[..p]) && orig[p + m..] == old(dataBlocks[p + m..]);
  }

  /** Writing codeword j of src at p + j extends the copied part by one. */
  lemma CopyStep(a: seq<bv8>, orig: seq<bv8>, src: seq<bv8>, p: int, j: int)
    requires 0 <= p && 0 <= j < |src| && p + j < |orig| && a == orig[..p] + src[..j] + orig[p + j..]
    ensures a[p + j := src[j]] == orig[..p] + src[..j + 1] + orig[p + j + 1..]
  {
    assert src[..j + 1] == src[..j] + [src[j]];
    assert orig[p + j..] == [orig[p + j]] + orig[p + j + 1..];
  }

  /** Copying the next block's data after the data gathered so far. */
  lemma GatherStep(a: seq<bv8>, d: seq<bv8>, src: seq<bv8>, orig: seq<bv8>, p: int, m: int)
    requires |d| == p && 0 <= m <= |src| && p + m <= |orig| && a == d + orig[p..]
    ensures a[..p] + src[..m] + a[p + m..] == (d + src[..m]) + orig[p + m..]
  {
    assert a[..p] == d;
    assert a[p + m..] == orig[p + m..];
  }

  /** Writes the data codewords of the corrected blocks one after another from position 0. */
  method Gather(dataBlocks: array<bv8>, l: Layout, rs: seq<seq<bv8>>)
    requires Shaped(l, rs) && dataBlocks.Length == l.dataCapacity
    modifies dataBlocks
    ensures DataBefore(l, l.numRSBlocks) <= dataBlocks.Length
    ensures dataBlocks[..] == DataOf(l, rs, l.numRSBlocks) + old(dataBlocks[DataBefore(l, l.numRSBlocks)..])
  {
    DataBeforeCap(l);
    ghost var orig := dataBlocks[..];
    ghost var total := DataBefore(l, l.numRSBlocks);
    var p := 0;
    var i := 0;
    while i < l.numRSBlocks
      invariant 0 <= i <= l.numRSBlocks && p == DataBefore(l, i) <= total
      invariant dataBlocks[..] == DataOf(l, rs, i) + orig[p..]
    {
      p := GatherBlock(dataBlocks, l, rs, i, p, orig);
      i := i + 1;
    }
    assert i == l.numRSBlocks && p == total;
    ghost var d := DataOf(l, rs, i);
    ghost var rest := orig[p..];
    assert dataBlocks[..] == d + rest;
    assert rest == old(dataBlocks[total..]);
  }

  /** Copies the data codewords of block i after those of the blocks before it. */
  method GatherBlock(dataBlocks: array<bv8>, l: Layout, rs: seq<seq<bv8>>, i: int, p: int, ghost orig: seq<bv8>)
    returns (p': int)
    requires Shaped(l, rs) && 0 <= i < l.numRSBlocks && p == DataBefore(l, i)
    requires p <= DataBefore(l, l.numRSBlocks) <= |orig| == dataBlocks.Length
    requires dataBlocks[..] == DataOf(l, rs, i) + orig[p..]
    modifies dataBlocks
    ensures p' == DataBefore(l, i + 1) <= DataBefore(l, l.numRSBlocks)
    ensures dataBlocks[..] == DataOf(l, rs, i + 1) + orig[p'..]
  {
    var m := l.DataLen(i);
    DataBeforeMono(l, i + 1, l.numRSBlocks);
    GatherStep(dataBlocks[..], DataOf(l, rs, i), rs[i], orig, p, m);
    CopyData(dataBlocks, rs[i], p, m);
    p' := p + m;
  }

  /** A fresh array of dataCapacity zeros, with the data codewords of the blocks written from position 0. */
  method CollectData(l: Layout, rs: seq<seq<bv8>>) returns (dataBlocks: array<bv8>)
    requires Shaped(l, rs)
    ensures fresh(dataBlocks) && dataBlocks.Length == l.dataCapacity
    ensures DataBefore(l, l.numRSBlocks) == l.TotalData() <= l.dataCapacity
    ensures dataBlocks[..] == DataOf(l, rs, l.numRSBlocks) + seq(l.dataCapacity - l.TotalData(), _ => 0 as bv8)
  {
    dataBlocks := new bv8[l.dataCapacity](_ => 0);
    ghost var zeros := dataBlocks[..];
    DataBeforeCap(l);
    ghost var total := DataBefore(l, l.numRSBlocks);
    ghost var pad := seq(l.dataCapacity - l.TotalData(), _ => 0 as bv8);
    ZeroTail(zeros, total);
    Gather(dataBlocks, l, rs);
    assert dataBlocks[..] == DataOf(l, rs, l.numRSBlocks) + pad;
  }

  lemma ZeroTail(zeros: seq<bv8>, from: int)
    requires 0 <= from <= |zeros| && forall k :: 0 <= k < |zeros| ==> zeros[k] == 0
    ensures zeros[from..] == seq(|zeros| - from, _ => 0 as bv8)
  {
  }

  /** The data of all blocks fit in the data capacity. */
  lemma DataBeforeCap(l: Layout)
    requires l.Valid()
    ensures 0 <= DataBefore(l, l.numRSBlocks) == l.TotalData() <= l.dataCapacity
  {
    DataBeforeAll(l, l.numRSBlocks);
    Capacity(l);
    assert 0 <= l.numRSBlocks * l.eccPerRSBlock;
  }

  lemma {:induction false} DataBeforeMono(l: Layout, i: int, k: int)
    requires l.Valid() && 0 <= i <= k <= l.numRSBlocks
    ensures DataBefore(l, i) <= DataBefore(l, k)
    decreases k - i
  {
    if i < k {
      DataBeforeMono(l, i, k - 1);
    }
  }

  // ---------------------------------------------------------------------
  // The decoder
  // ---------------------------------------------------------------------

  class QRCodeDecoder {
    var numTryDecode: int32
    var numLastCorrectionFailures: int32
    /** The field tables every Reed-Solomon decoder shares. */
    const galois: Galois

    /** Java's constructor; numLastCorrectionFailures keeps the default value 0. */
    constructor ()
      ensures numTryDecode == 0 && numLastCorrectionFailures == 0 && galois.Valid()
    {
      numTryDecode := 0;
      numLastCorrectionFailures := 0;
      galois := new Galois();
    }

    /** Reads block i out of the stream and runs the Reed-Solomon decoder on it. */
    method CorrectBlock(blocks: array<bv8>, l: Layout, i: int) returns (fixedBlock: seq<bv8>, ret: int)
      requires galois.Valid() && l.Valid() && 2 <= l.eccPerRSBlock / 2
      requires 0 <= i < l.numRSBlocks && blocks.Length >= l.dataCapacity
      ensures |fixedBlock| == l.BlockLen(i)
      ensures BlockCorrected(l.Received(blocks[..], i), fixedBlock, ret, l.eccPerRSBlock / 2)
    {
      var b := ReadBlock(blocks, l, i);
      var corrector := new RsDecode(l.eccPerRSBlock / 2, galois);
      ghost var sigma, omega, pos;
      ret, sigma, omega, pos := corrector.DecodeAll(b);
      fixedBlock := b[..];
      if ret > 0 {
        assert RepairedBy(l.Received(blocks[..], i), fixedBlock, ret, l.eccPerRSBlock / 2, sigma, omega, pos);
      }
    }

    /**
     * The branch for two or more blocks: every block is read out of the
     * interleaved stream and corrected; the failures are counted and the
     * data codewords gathered into a fresh array.
     */
    method CorrectInterleaved(blocks: array<bv8>, l: Layout)
      returns (dataBlocks: array<bv8>, numCorrectionFailures: int32, ghost fixed: seq<seq<bv8>>, ghost rets: seq<int>)
      requires galois.Valid() && l.Valid() && 2 <= l.eccPerRSBlock / 2 && blocks.Length >= l.dataCapacity
      requires l.numRSBlocks < 0x8000_0000
      ensures fresh(dataBlocks) && dataBlocks.Length == l.dataCapacity
      ensures Corrections(l, blocks[..], fixed, rets, l.numRSBlocks) && Shaped(l, fixed)
      ensures DataBefore(l, l.numRSBlocks) == l.TotalData() <= l.dataCapacity
      ensures dataBlocks[..] == DataOf(l, fixed, l.numRSBlocks) + seq(l.dataCapacity - l.TotalData(), _ => 0 as bv8)
      ensures numCorrectionFailures as int == CountFailures(rets)
    {
      var rs;
      rs, rets, numCorrectionFailures := CorrectAll(blocks, l);
      fixed := rs;
      CorrectionsShaped(l, blocks[..], rs, rets);
      dataBlocks := CollectData(l, rs);
    }

    /** Corrects every block of the interleaved stream in turn and counts the failures. */
    method CorrectAll(blocks: array<bv8>, l: Layout)
      returns (fixed: seq<seq<bv8>>, ghost rets: seq<int>, numCorrectionFailures: int32)
      requires galois.Valid() && l.Valid() && 2 <= l.eccPerRSBlock / 2 && blocks.Length >= l.dataCapacity
      requires l.numRSBlocks < 0x8000_0000
      ensures Corrections(l, blocks[..], fixed, rets, l.numRSBlocks)
      ensures numCorrectionFailures as int == CountFailures(rets)
    {
      numCorrectionFailures := 0;
      fixed, rets := [], [];
      var i := 0;
      while i < l.numRSBlocks
        invariant Corrections(l, blocks[..], fixed, rets, i)
        invariant numCorrectionFailures as int == CountFailures(rets)
      {
        var fixedBlock, ret := CorrectBlock(blocks, l, i);
        if ret < 0 {
          numCorrectionFailures := numCorrectionFailures + 1;
        }
        assert (rets + [ret])[..i] == rets;
        CorrectionsSnoc(l, blocks[..], fixed, rets, i, fixedBlock, ret);
        fixed, rets := fixed + [fixedBlock], rets + [ret];
        i := i + 1;
      }
    }

    /**
     * Corrects the blocks of a symbol.  With one block, the blocks are
     * corrected in place and returned themselves, and the failure count is
     * NOT stored.  With more, each block is read out of the interleaved
     * stream, corrected on its own, and the data codewords of all blocks are
     * returned in a fresh array of dataCapacity entries; the failure count is
     * stored.  `failures` is the count either way, as computed locally.
     */
    method CorrectDataBlocks(blocks: array<bv8>, dataCapacity: int32, numErrorCollectionCode: int32, numRSBlocks: int32)
      returns (dataBlocks: array<bv8>, failures: int32, ghost fixed: seq<seq<bv8>>, ghost rets: seq<int>)
      requires galois.Valid()
      requires numRSBlocks >= 1 && numErrorCollectionCode >= 0 && dataCapacity >= 0
      requires 2 <= numErrorCollectionCode as int / numRSBlocks as int / 2
      requires numRSBlocks > 1 ==>
        Layout(numRSBlocks as int, dataCapacity as int, numErrorCollectionCode as int / numRSBlocks as int).Valid() &&
        blocks.Length >= dataCapacity as int
      modifies this, blocks
      ensures numTryDecode == old(numTryDecode)
      ensures failures as int == CountFailures(rets)
      ensures var npar := numErrorCollectionCode as int / numRSBlocks as int / 2;
        numRSBlocks == 1 ==>
          dataBlocks == blocks && fixed == [blocks[..]] && |rets| == 1 &&
          BlockCorrected(old(blocks[..]), blocks[..], rets[0], npar) &&
          numLastCorrectionFailures == old(numLastCorrectionFailures)
      ensures var l := Layout(numRSBlocks as int, dataCapacity as int, numErrorCollectionCode as int / numRSBlocks as int);
        numRSBlocks > 1 ==>
          fresh(dataBlocks) && blocks[..] == old(blocks[..]) &&
          Corrections(l, old(blocks[..]), fixed, rets, l.numRSBlocks) && Shaped(l, fixed) &&
          dataBlocks.Length == l.dataCapacity &&
          DataBefore(l, l.numRSBlocks) == l.TotalData() <= l.dataCapacity &&
          dataBlocks[..] == DataOf(l, fixed, l.numRSBlocks) + seq(l.dataCapacity - l.TotalData(), _ => 0 as bv8) &&
          numLastCorrectionFailures == failures
    {
      var eccPerRSBlock := numErrorCollectionCode / numRSBlocks;
      dataBlocks := new bv8[dataCapacity](_ => 0);
      if numRSBlocks == 1 {
        var numCorrectionFailures: int32 := 0;
        var corrector := new RsDecode(eccPerRSBlock as int / 2, galois);
        ghost var sigma, omega, pos;
        var ret;
        ret, sigma, omega, pos := corrector.DecodeAll(blocks);
        if ret > 0 {
          assert RepairedBy(old(blocks[..]), blocks[..], ret, eccPerRSBlock as int / 2, sigma, omega, pos);
        }
        if ret < 0 {
          numCorrectionFailures := numCorrectionFailures + 1;
        }
        fixed, rets := [blocks[..]], [ret];
        assert rets[..0] == [];
        return blocks, numCorrectionFailures, fixed, rets;
      }
      var l := Layout(numRSBlocks as int, dataCapacity as int, eccPerRSBlock as int);
      dataBlocks, failures, fixed, rets := CorrectInterleaved(blocks, l);
      numLastCorrectionFailures := failures;
    }

    /**
     * Block correction that stores its failure count for every symbol,
     * single-block ones included.
     */
    method CorrectDataBlocksRecorded(blocks: array<bv8>, dataCapacity: int32, numErrorCollectionCode: int32, numRSBlocks: int32)
      returns (dataBlocks: array<bv8>, ghost rets: seq<int>)
      requires galois.Valid()
      requires numRSBlocks >= 1 && numErrorCollectionCode >= 0 && dataCapacity >= 0
      requires 2 <= numErrorCollectionCode as int / numRSBlocks as int / 2
      requires numRSBlocks > 1 ==>
        Layout(numRSBlocks as int, dataCapacity as int, numErrorCollectionCode as int / numRSBlocks as int).Valid() &&
        blocks.Length >= dataCapacity as int
      modifies this, blocks
      ensures numTryDecode == old(numTryDecode)
      ensures numLastCorrectionFailures as int == CountFailures(rets)
      ensures numLastCorrectionFailures == 0 <==> forall k :: 0 <= k < |rets| ==> rets[k] >= 0
    {
      var failures;
      ghost var fixed;
      dataBlocks, failures, fixed, rets := CorrectDataBlocks(blocks, dataCapacity, numErrorCollectionCode, numRSBlocks);
      numLastCorrectionFailures := failures;
    }

    /**
     * The retry loop of decode(QRCodeImage): attempt k is what decoding with
     * adjustment k gave.  The loop's result, the number of tries it counts
     * and the failure count it leaves are those of Retry.Expected.
     */
    method Decode(attempts: seq<Attempt>) returns (out: Outcome)
      requires |attempts| == 8
      modifies this
      ensures out == Expected(attempts, old(numLastCorrectionFailures))
      ensures numTryDecode as int == Tries(attempts, old(numLastCorrectionFailures))
      ensures numLastCorrectionFailures == FieldAt(attempts, old(numLastCorrectionFailures), Tries(attempts, old(numLastCorrectionFailures)))
    {
      ghost var f0 := numLastCorrectionFailures;
      var results: seq<DecodeResult> := [];
      numTryDecode := 0;
      while numTryDecode < 8
        invariant 0 <= numTryDecode <= 8
        invariant FirstStop(attempts, f0, 0) == FirstStop(attempts, f0, numTryDecode as int)
        invariant numLastCorrectionFailures == FieldAt(attempts, f0, numTryDecode as int)
        invariant Kepts(results) == KeptOf(attempts, f0, numTryDecode as int)
      {
        ghost var k := numTryDecode as int;
        var a := attempts[numTryDecode];
        if a.Read? && a.update.Some? {
          numLastCorrectionFailures := a.update.value;
        }
        assert numLastCorrectionFailures == FieldAt(attempts, f0, k + 1);
        if Failed(a) {
          if ContentConverter.Contains(Message(a), FINDER_PATTERN) {
            StopHere(attempts, f0, k);
            numTryDecode := numTryDecode + 1;
            return Thrown(Message(a));
          }
        } else {
          var result := new DecodeResult(this, a.data.bytes, numLastCorrectionFailures);
          if result.IsCorrectionSucceeded() {
            StopHere(attempts, f0, k);
            numTryDecode := numTryDecode + 1;
            return Returned(result.GetDecodedBytes());
          }
          KeptsSnoc(results, result);
          results := results + [result];
        }
        Continue(attempts, f0, k);
        numTryDecode := numTryDecode + 1;
      }
      RanOut(attempts, f0);
      out := Finish(results);
    }

    /**
     * getAdjustPoints: fresh points holding the moves of AdjustMoves(),
     * which AdjustValues lists.
     */
    method GetAdjustPoints() returns (adjusts: array<Point.Point>)
      ensures Coords(adjusts[..]) == AdjustMoves()
    {
      var pts := UnitMoves();
      pts := VisitGrid(pts);
      adjusts := ToArray(pts);
    }
  }

  /** The second loop of getAdjustPoints: a point per site of the grid, holding the move to it. */
  method VisitGrid(pts: seq<Point.Point>) returns (pts': seq<Point.Point>)
    requires Coords(pts) == Planned([])
    ensures Coords(pts') == AdjustMoves()
  {
    pts' := pts;
    var lastX: int32, lastY: int32 := 0, 0;
    ghost var done: seq<(int, int)> := [];
    ghost var top := 0;
    var y: int32 := 0;
    while y > -4
      invariant -4 <= y <= 0 && top == 0
      invariant GridSites(top) == done + GridSites(y as int)
      invariant (lastX as int, lastY as int) == LastOf([(0, 0)] + done)
      invariant Coords(pts') == Planned(done)
      invariant forall s :: s in done ==> -3 <= s.0 <= 0 && -3 <= s.1 <= 0
    {
      GridStep(done, y as int);
      pts', lastX, lastY, done := AdjustRow(pts', y, lastX, lastY, done);
      y := y - 1;
    }
    AllSites(Coords(pts'), done, top);
  }

  /** A fresh array holding the points. */
  method ToArray(pts: seq<Point.Point>) returns (adjusts: array<Point.Point>)
    ensures fresh(adjusts) && adjusts[..] == pts
  {
    adjusts := new Point.Point[|pts|](k requires 0 <= k < |pts| => pts[k]);
    ArrayCopy(adjusts, pts);
  }

  /** The first loop of getAdjustPoints: four fresh points at (1, 1). */
  method UnitMoves() returns (pts: seq<Point.Point>)
    ensures Coords(pts) == Planned([])
  {
    pts := [];
    var d := 0;
    while d < 4
      invariant 0 <= d <= 4 && |pts| == d && forall k :: 0 <= k < d ==> pts[k].x == 1 && pts[k].y == 1
    {
      var p := new Point.Point(1, 1);
      pts := pts + [p];
      d := d + 1;
    }
  }

  /** The kept values of a list of results. */
  function Kepts(results: seq<DecodeResult>): (ks: seq<Kept>)
    ensures |ks| == |results|
  {
    seq(|results|, k requires 0 <= k < |results| => Kept(results[k].decodedBytes, results[k].numCorrectionFailures))
  }

  lemma KeptsSnoc(results: seq<DecodeResult>, r: DecodeResult)
    ensures Kepts(results + [r]) == Kepts(results) + [Kept(r.decodedBytes, r.numCorrectionFailures)]
  {
  }

  /** After the loop: give up, or return the bytes of the result with the fewest failures. */
  method Finish(results: seq<DecodeResult>) returns (out: Outcome)
    ensures out == Final(Kepts(results))
  {
    if |results| == 0 {
      return Thrown(GIVE_UP);
    }
    var minErrorIndex := SelectMin(results);
    if minErrorIndex < 0 {
      return IndexOutOfBounds;
    }
    out := Returned(results[minErrorIndex].GetDecodedBytes());
  }

  /** The scan for the result with the fewest correction failures. */
  method SelectMin(results: seq<DecodeResult>) returns (minErrorIndex: int)
    ensures minErrorIndex == MinScan(FailureCounts(Kepts(results))).0
  {
    ghost var fs := FailureCounts(Kepts(results));
    minErrorIndex := -1;
    var minError: int := INT_MAX;
    var i := 0;
    while i < |results|
      invariant 0 <= i <= |results|
      invariant (minErrorIndex, minError) == MinScan(fs[..i])
    {
      assert fs[..i + 1][..i] == fs[..i];
      var f := results[i].GetNumCorrectionFailures();
      if (f as int) < minError {
        minError := f as int;
        minErrorIndex := i;
      }
      i := i + 1;
    }
    assert fs[..|results|] == fs;
  }

  /**
   * The decoder's own result type.  Its success test reads the decoder's
   * current failure count, not the count stored in the result.
   */
  class DecodeResult {
    const decoder: QRCodeDecoder
    const numCorrectionFailures: int32
    const decodedBytes: array<int8>

    constructor (decoder0: QRCodeDecoder, decodedBytes0: array<int8>, numCorrectionFailures0: int32)
      ensures decoder == decoder0 && decodedBytes == decodedBytes0 && numCorrectionFailures == numCorrectionFailures0
    {
      decoder := decoder0;
      decodedBytes := decodedBytes0;
      numCorrectionFailures := numCorrectionFailures0;
    }

    function GetDecodedBytes(): (r: array<int8>)
      ensures r == decodedBytes
    {
      decodedBytes
    }

    function GetNumCorrectionFailures(): (r: int32)
      ensures r == numCorrectionFailures
    {
      numCorrectionFailures
    }

    /** True when the DECODER currently holds a zero failure count. */
    function IsCorrectionSucceeded(): (r: bool)
      reads decoder
      ensures r <==> decoder.numLastCorrectionFailures == 0
    {
      decoder.numLastCorrectionFailures == 0
    }
  }
}
