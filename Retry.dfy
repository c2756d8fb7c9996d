/**
 * The decoder's retry policy.  Reading the symbol is tried once on the
 * image and then with each adjusted sampling grid; each attempt either fails
 * with a message or yields blocks that are corrected and turned into bytes.
 * The loop stops at the first attempt whose correction reports success (or
 * whose failure names the finder pattern); otherwise it reports the kept
 * result with the fewest correction failures.
 *
 * Whether a correction reports success is read from the decoder's field
 * `numLastCorrectionFailures` at that moment.  Block correction stores its
 * failure count there only for symbols with two or more blocks; for a single
 * block the field keeps whatever it held before.
 */
module Retry {
  import opened JavaInt
  import opened Optional
  import ContentConverter

  /** What turning the corrected blocks into bytes gave. */
  datatype ByteResult = Decoded(bytes: array<int8>) | InvalidBlock(message: string)

  /**
   * One attempt to decode, as the retry loop sees it: either the symbol was
   * not found, or its blocks were corrected — `update` being the failure
   * count block correction stored in the decoder (None when it stored
   * nothing) — and then converted to bytes.
   */
  datatype Attempt =
    | NotFound(message: string)
    | Read(update: Option<int32>, data: ByteResult)

  /** How the whole decoding ends: the bytes returned, an exception with its message, or an index out of bounds. */
  datatype Outcome = Returned(bytes: array<int8>) | Thrown(message: string) | IndexOutOfBounds

  const FINDER_PATTERN: string := "Finder Pattern"
  const GIVE_UP: string := "Give up decoding"

  /** An attempt that ended in an exception. */
  predicate Failed(a: Attempt)
  {
    a.NotFound? || a.data.InvalidBlock?
  }

  function Message(a: Attempt): string
    requires Failed(a)
  {
    if a.NotFound? then a.message else a.data.message
  }

  /** The decoder's failure count after attempt a, which found it at f. */
  function FieldAfterOne(a: Attempt, f: int32): int32
  {
    if a.Read? && a.update.Some? then a.update.value else f
  }

  /** The decoder's failure count after the first k attempts. */
  function FieldAt(atts: seq<Attempt>, f0: int32, k: int): int32
    requires 0 <= k <= |atts|
    decreases k
  {
    if k == 0 then f0 else FieldAfterOne(atts[k - 1], FieldAt(atts, f0, k - 1))
  }

  /** Whether attempt k ends the loop: a finder-pattern failure is rethrown, a success is returned. */
  predicate Stops(atts: seq<Attempt>, f0: int32, k: int)
    requires 0 <= k < |atts|
  {
    if Failed(atts[k]) then ContentConverter.Contains(Message(atts[k]), FINDER_PATTERN)
    else FieldAt(atts, f0, k + 1) == 0
  }

  /** The first attempt at or after k that ends the loop, or |atts| when none does. */
  function FirstStop(atts: seq<Attempt>, f0: int32, k: int): (r: int)
    requires 0 <= k <= |atts|
    ensures k <= r <= |atts|
    ensures r < |atts| ==> Stops(atts, f0, r)
    ensures forall m :: k <= m < r ==> !Stops(atts, f0, m)
    decreases |atts| - k
  {
    if k == |atts| then k
    else if Stops(atts, f0, k) then k
    else FirstStop(atts, f0, k + 1)
  }

  /** A result kept for the final comparison: its bytes and the failure count it recorded. */
  datatype Kept = Kept(bytes: array<int8>, failures: int32)

  /** The results kept by the first k attempts, none of which stopped the loop. */
  function KeptOf(atts: seq<Attempt>, f0: int32, k: int): seq<Kept>
    requires 0 <= k <= |atts|
    decreases k
  {
    if k == 0 then []
    else
      var a := atts[k - 1];
      KeptOf(atts, f0, k - 1) +
        (if a.Read? && a.data.Decoded? then [Kept(a.data.bytes, FieldAt(atts, f0, k))] else [])
  }

  function FailureCounts(ks: seq<Kept>): (fs: seq<int32>)
    ensures |fs| == |ks| && forall i :: 0 <= i < |ks| ==> fs[i] == ks[i].failures
  {
    seq(|ks|, i requires 0 <= i < |ks| => ks[i].failures)
  }

  /**
   * The scan for the smallest failure count as the loop does it: starting
   * from index -1 and minimum INT_MAX, a count strictly below the minimum so
   * far takes its place.
   */
  function MinScan(fs: seq<int32>): (r: (int, int))
    ensures -1 <= r.0 < |fs|
    decreases |fs|
  {
    if |fs| == 0 then (-1, INT_MAX)
    else
      var prev := MinScan(fs[..|fs| - 1]);
      if (fs[|fs| - 1] as int) < prev.1 then (|fs| - 1, fs[|fs| - 1] as int) else prev
  }

  /**
   * The scan finds the earliest smallest count, and finds nothing (index -1)
   * exactly when every count is INT_MAX.
   */
  lemma {:induction false} MinScanSpec(fs: seq<int32>)
    ensures var (i, m) := MinScan(fs);
      (i == -1 <==> forall k :: 0 <= k < |fs| ==> fs[k] as int == INT_MAX) &&
      (i == -1 ==> m == INT_MAX) &&
      (i != -1 ==>
         (0 <= i < |fs| && m == fs[i] as int &&
          (forall k :: 0 <= k < |fs| ==> fs[i] <= fs[k]) &&
          (forall k :: 0 <= k < i ==> fs[i] < fs[k])))
    decreases |fs|
  {
    if |fs| > 0 {
      var init := fs[..|fs| - 1];
      MinScanSpec(init);
      assert forall k :: 0 <= k < |init| ==> init[k] == fs[k];
    }
  }

  /** The outcome of the retry loop over the attempts, starting with failure count f0 in the decoder. */
  function Expected(atts: seq<Attempt>, f0: int32): Outcome
  {
    var s := FirstStop(atts, f0, 0);
    if s < |atts| then
      (if Failed(atts[s]) then Thrown(Message(atts[s])) else Returned(atts[s].data.bytes))
    else Final(KeptOf(atts, f0, |atts|))
  }

  /** How the loop ends when no attempt stopped it: from the kept results. */
  function Final(ks: seq<Kept>): Outcome
  {
    if |ks| == 0 then Thrown(GIVE_UP)
    else
      var i := MinScan(FailureCounts(ks)).0;
      if i < 0 then IndexOutOfBounds else Returned(ks[i].bytes)
  }

  /** The number of attempts the loop makes: up to and including the stopping one. */
  function Tries(atts: seq<Attempt>, f0: int32): int
  {
    var s := FirstStop(atts, f0, 0);
    if s < |atts| then s + 1 else |atts|
  }

  /** An attempt that does not stop the loop passes the search for the stopping one on. */
  lemma Continue(atts: seq<Attempt>, f0: int32, k: int)
    requires 0 <= k < |atts| && FirstStop(atts, f0, 0) == FirstStop(atts, f0, k) && !Stops(atts, f0, k)
    ensures FirstStop(atts, f0, 0) == FirstStop(atts, f0, k + 1)
  {
  }

  /** An attempt that stops the loop decides its outcome. */
  lemma StopHere(atts: seq<Attempt>, f0: int32, k: int)
    requires 0 <= k < |atts| && FirstStop(atts, f0, 0) == FirstStop(atts, f0, k) && Stops(atts, f0, k)
    ensures Tries(atts, f0) == k + 1
    ensures Expected(atts, f0) == if Failed(atts[k]) then Thrown(Message(atts[k])) else Returned(atts[k].data.bytes)
  {
  }

  /** When no attempt stops the loop, the kept results decide. */
  lemma RanOut(atts: seq<Attempt>, f0: int32)
    requires FirstStop(atts, f0, 0) == FirstStop(atts, f0, |atts|)
    ensures Tries(atts, f0) == |atts|
    ensures Expected(atts, f0) == Final(KeptOf(atts, f0, |atts|))
  {
  }

  /** Nothing is kept exactly when no attempt produced bytes. */
  lemma {:induction false} KeptEmpty(atts: seq<Attempt>, f0: int32, k: int)
    requires 0 <= k <= |atts|
    ensures |KeptOf(atts, f0, k)| == 0 <==> forall m :: 0 <= m < k ==> !(atts[m].Read? && atts[m].data.Decoded?)
    decreases k
  {
    if k > 0 {
      KeptEmpty(atts, f0, k - 1);
    }
  }

  /** The give-up message does not name the finder pattern. */
  lemma GiveUpNotFinder()
    ensures !ContentConverter.Contains(GIVE_UP, FINDER_PATTERN)
  {
    forall i | 0 <= i <= |GIVE_UP|
      ensures !ContentConverter.OccursAt(GIVE_UP, FINDER_PATTERN, i)
    {
      if i + |FINDER_PATTERN| <= |GIVE_UP| {
        assert GIVE_UP[i] != FINDER_PATTERN[0];
        assert GIVE_UP[i..i + |FINDER_PATTERN|][0] == GIVE_UP[i];
      }
    }
  }

  /**
   * The decoder gives up with "Give up decoding" exactly when no attempt
   * stops the loop and none produced bytes.
   */
  lemma GiveUpExactly(atts: seq<Attempt>, f0: int32)
    ensures Expected(atts, f0) == Thrown(GIVE_UP) <==>
      FirstStop(atts, f0, 0) == |atts| && forall m :: 0 <= m < |atts| ==> !(atts[m].Read? && atts[m].data.Decoded?)
  {
    KeptEmpty(atts, f0, |atts|);
    var s := FirstStop(atts, f0, 0);
    if s < |atts| && Failed(atts[s]) {
      GiveUpNotFinder();
    }
  }

  /**
   * When the loop runs out, the bytes it returns are those of a kept result
   * with the fewest failures, the earliest among equals.
   */
  lemma FewestFailuresChosen(atts: seq<Attempt>, f0: int32, b: array<int8>) returns (i: int)
    requires FirstStop(atts, f0, 0) == |atts| && Expected(atts, f0) == Returned(b)
    ensures var ks := KeptOf(atts, f0, |atts|);
      0 <= i < |ks| && ks[i].bytes == b &&
      (forall k :: 0 <= k < |ks| ==> ks[i].failures <= ks[k].failures) &&
      (forall k :: 0 <= k < i ==> ks[i].failures < ks[k].failures)
  {
    var ks := KeptOf(atts, f0, |atts|);
    var fs := FailureCounts(ks);
    MinScanSpec(fs);
    i := MinScan(fs).0;
  }

  /**
   * A result is returned at once only when its correction reported success:
   * the failure count in the decoder after that attempt is 0.
   */
  lemma ReturnedEarlyMeansZero(atts: seq<Attempt>, f0: int32)
    requires FirstStop(atts, f0, 0) < |atts| && !Failed(atts[FirstStop(atts, f0, 0)])
    ensures Expected(atts, f0) == Returned(atts[FirstStop(atts, f0, 0)].data.bytes)
    ensures FieldAt(atts, f0, FirstStop(atts, f0, 0) + 1) == 0
  {
  }

  /**
   * As written, an attempt on a single-block symbol that stores no failure
   * count is reported as a success whenever the decoder still holds 0 —
   * its initial value — however its own correction went.
   */
  lemma StaleSuccess(b: array<int8>, rest: seq<Attempt>)
    ensures Expected([Read(None, Decoded(b))] + rest, 0) == Returned(b)
  {
    var atts := [Read(None, Decoded(b))] + rest;
    assert FieldAt(atts, 0, 1) == 0;
    assert Stops(atts, 0, 0);
  }

  /** Every attempt that converts blocks stores its own failure count. */
  predicate AllRecorded(atts: seq<Attempt>)
  {
    forall k :: 0 <= k < |atts| ==> atts[k].Read? ==> atts[k].update.Some?
  }

  /**
   * When every attempt stores its failure count, a result returned early is
   * one whose own correction had no failures.
   */
  lemma RecordedSuccess(atts: seq<Attempt>, f0: int32)
    requires AllRecorded(atts)
    requires FirstStop(atts, f0, 0) < |atts| && !Failed(atts[FirstStop(atts, f0, 0)])
    ensures atts[FirstStop(atts, f0, 0)].update == Some(0)
  {
  }
}
