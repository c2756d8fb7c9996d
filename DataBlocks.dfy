/**
 * What the decoder's block correction produces: each Reed-Solomon block is
 * corrected on its own, and the data codewords of the corrected blocks are
 * concatenated in block order.
 */
module DataBlocks {
  import opened RsDecode
  import opened BlockLayout
  import opened Locator

  /** Number of blocks whose decoder returned a negative code (a correction failure). */
  function CountFailures(rets: seq<int>): (c: int)
    ensures 0 <= c <= |rets|
    ensures c == 0 <==> forall k :: 0 <= k < |rets| ==> rets[k] >= 0
    ensures c == |rets| <==> forall k :: 0 <= k < |rets| ==> rets[k] < 0
  {
    if |rets| == 0 then 0
    else CountFailures(rets[..|rets| - 1]) + (if rets[|rets| - 1] < 0 then 1 else 0)
  }

  /**
   * What one run of the Reed-Solomon decoder with npar parity symbols
   * promises about a received block and the block it leaves behind: a
   * permanent error for a length it cannot handle, 0 exactly when every
   * syndrome is 0, the block untouched unless errors were corrected, and
   * for a positive result that many errors located and corrected.
   */
  ghost predicate BlockCorrected(received: seq<bv8>, fixed: seq<bv8>, ret: int, npar: int)
  {
    0 <= npar && |fixed| == |received| &&
    (ret == RS_PERM_ERROR || ret == RS_CORRECT_ERROR || 0 <= ret <= npar / 2) &&
    (ret == RS_PERM_ERROR <==> |received| < npar || 255 < |received|) &&
    (ret == 0 <==> npar <= |received| <= 255 && AllZero(Syndromes(received, npar), npar)) &&
    (ret <= 0 ==> fixed == received) &&
    (ret > 0 ==> Repaired(received, fixed, ret, npar))
  }

  /**
   * fixed is received with ret errors corrected: some locator σ, evaluator
   * ω and error locators found for its syndromes, and the Forney value of
   * each locator XORed into the index it names.
   */
  ghost predicate Repaired(received: seq<bv8>, fixed: seq<bv8>, ret: int, npar: int)
  {
    0 <= npar &&
    exists sigma, omega, pos :: RepairedBy(received, fixed, ret, npar, sigma, omega, pos)
  }

  ghost predicate RepairedBy(received: seq<bv8>, fixed: seq<bv8>, ret: int, npar: int, sigma: seq<bv8>, omega: seq<bv8>, pos: seq<bv8>)
    requires 0 <= npar
  {
    Located(Syndromes(received, npar), |received|, ret, sigma, omega, pos) &&
    fixed == Corrected(received, |received|, pos, sigma, omega, ret, ret)
  }

  /**
   * A repaired block differs from the received one only at the indices its
   * error locators name, and there by the Forney values of those locators.
   */
  lemma RepairedOnlyAtLocators(received: seq<bv8>, fixed: seq<bv8>, ret: int, npar: int) returns (sigma: seq<bv8>, omega: seq<bv8>, pos: seq<bv8>)
    requires BlockCorrected(received, fixed, ret, npar) && ret > 0
    ensures |pos| == ret && Located(Syndromes(received, npar), |received|, ret, sigma, omega, pos)
    ensures forall k :: 0 <= k < |received| && (forall j :: 0 <= j < ret ==> Position(|received|, pos[j]) != k) ==>
      fixed[k] == received[k]
  {
    sigma, omega, pos :| RepairedBy(received, fixed, ret, npar, sigma, omega, pos);
    forall k | 0 <= k < |received| && (forall j :: 0 <= j < ret ==> Position(|received|, pos[j]) != k)
      ensures fixed[k] == received[k]
    {
      CorrectedElsewhere(received, |received|, pos, sigma, omega, ret, ret, k);
    }
  }

  /**
   * The first k blocks of the stream, each corrected on its own with
   * half the layout's error-correction codewords as parity symbols.
   */
  ghost predicate Corrections(l: Layout, stream: seq<bv8>, fixed: seq<seq<bv8>>, rets: seq<int>, k: int)
  {
    l.Valid() && 0 <= k <= l.numRSBlocks && |stream| >= l.dataCapacity &&
    |fixed| == k && |rets| == k &&
    forall i :: 0 <= i < k ==>
      |fixed[i]| == l.BlockLen(i) && BlockCorrected(l.Received(stream, i), fixed[i], rets[i], l.eccPerRSBlock / 2)
  }

  lemma CorrectionsSnoc(l: Layout, stream: seq<bv8>, fixed: seq<seq<bv8>>, rets: seq<int>, k: int, b: seq<bv8>, ret: int)
    requires Corrections(l, stream, fixed, rets, k) && k < l.numRSBlocks
    requires |b| == l.BlockLen(k) && BlockCorrected(l.Received(stream, k), b, ret, l.eccPerRSBlock / 2)
    ensures Corrections(l, stream, fixed + [b], rets + [ret], k + 1)
  {
  }

  /** All blocks corrected: the blocks have the layout's shape. */
  lemma CorrectionsShaped(l: Layout, stream: seq<bv8>, fixed: seq<seq<bv8>>, rets: seq<int>)
    requires Corrections(l, stream, fixed, rets, l.numRSBlocks)
    ensures Shaped(l, fixed)
  {
  }

  /** Blocks of the lengths the layout prescribes. */
  predicate Shaped(l: Layout, blocks: seq<seq<bv8>>)
  {
    l.Valid() && |blocks| == l.numRSBlocks &&
    forall i :: 0 <= i < |blocks| ==> |blocks[i]| == l.BlockLen(i)
  }

  /** The data codewords of the first k blocks, in block order. */
  function DataOf(l: Layout, blocks: seq<seq<bv8>>, k: int): (r: seq<bv8>)
    requires Shaped(l, blocks) && 0 <= k <= |blocks|
    ensures |r| == DataBefore(l, k)
    decreases k
  {
    if k == 0 then [] else DataOf(l, blocks, k - 1) + blocks[k - 1][..l.DataLen(k - 1)]
  }

  /**
   * Codeword d of the data part of block i sits at DataBefore(l, i) + d in
   * the data: the blocks' data parts follow each other without gaps.
   */
  lemma {:induction false} DataOfIndex(l: Layout, blocks: seq<seq<bv8>>, k: int, i: int, d: int)
    requires Shaped(l, blocks) && 0 <= i < k <= |blocks| && 0 <= d < l.DataLen(i)
    ensures 0 <= DataBefore(l, i) + d < |DataOf(l, blocks, k)|
    ensures DataOf(l, blocks, k)[DataBefore(l, i) + d] == blocks[i][d]
    decreases k
  {
    var prev := DataOf(l, blocks, k - 1);
    assert DataOf(l, blocks, k) == prev + blocks[k - 1][..l.DataLen(k - 1)];
    if i < k - 1 {
      DataOfIndex(l, blocks, k - 1, i, d);
    } else {
      assert DataBefore(l, i) == |prev|;
    }
  }

  /**
   * Where a block needed no change, the data carry its data codewords
   * exactly as they stand in the stream, all from the data area.
   */
  lemma DataFromStream(l: Layout, stream: seq<bv8>, blocks: seq<seq<bv8>>, i: int, d: int)
    requires Shaped(l, blocks) && |stream| >= l.dataCapacity
    requires 0 <= i < l.numRSBlocks && blocks[i] == l.Received(stream, i)
    requires 0 <= d < l.DataLen(i)
    ensures 0 <= l.ReadIndex(i, d) < l.TotalData()
    ensures 0 <= DataBefore(l, i) + d < |DataOf(l, blocks, l.numRSBlocks)|
    ensures DataOf(l, blocks, l.numRSBlocks)[DataBefore(l, i) + d] == stream[l.ReadIndex(i, d)]
  {
    DataFirst(l, i, d);
    BlockLayout.InRange(l, i, d);
    DataOfIndex(l, blocks, l.numRSBlocks, i, d);
  }

  /**
   * After every block was corrected, a data codeword of block i is the
   * stream's codeword read for it unless one of the block's error locators
   * names its index; a block that was not repaired (result 0 or an error)
   * passes all its data codewords through.
   */
  lemma DataUnlessLocated(l: Layout, stream: seq<bv8>, fixed: seq<seq<bv8>>, rets: seq<int>, i: int, d: int)
    returns (sigma: seq<bv8>, omega: seq<bv8>, pos: seq<bv8>)
    requires Corrections(l, stream, fixed, rets, l.numRSBlocks)
    requires 0 <= i < l.numRSBlocks && 0 <= d < l.DataLen(i)
    ensures rets[i] > 0 ==>
      Located(Syndromes(l.Received(stream, i), l.eccPerRSBlock / 2), l.BlockLen(i), rets[i], sigma, omega, pos)
    ensures rets[i] <= 0 || (forall j :: 0 <= j < rets[i] ==> Position(l.BlockLen(i), pos[j]) != d) ==>
      0 <= DataBefore(l, i) + d < |DataOf(l, fixed, l.numRSBlocks)| &&
      DataOf(l, fixed, l.numRSBlocks)[DataBefore(l, i) + d] == stream[l.ReadIndex(i, d)]
  {
    var received := l.Received(stream, i);
    sigma, omega, pos := [], [], [];
    if rets[i] > 0 {
      sigma, omega, pos := RepairedOnlyAtLocators(received, fixed[i], rets[i], l.eccPerRSBlock / 2);
    }
    DataOfIndex(l, fixed, l.numRSBlocks, i, d);
  }
}
