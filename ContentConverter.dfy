/**
 * Rewrites the text of well-known QR payload formats (MEBKM bookmarks,
 * MECARD address-book entries, MATMSG mail messages) into readable lines, by
 * removing and replacing marker substrings.  Java's null string is None.
 */
module ContentConverter {
  import opened Optional

  /** sub occurs in s starting at index i. */
  predicate OccursAt(s: string, sub: string, i: int)
  {
    0 <= i && i + |sub| <= |s| && s[i..i + |sub|] == sub
  }

  /** Java's `String.contains`. */
  predicate Contains(s: string, sub: string)
  {
    exists i :: 0 <= i <= |s| && OccursAt(s, sub, i)
  }

  /**
   * Java's `s.indexOf(sub, from)`: the first index at or after `from` (a
   * negative `from` counts as 0) where sub occurs, or -1 when there is none.
   */
  function IndexOf(s: string, sub: string, from: int): (r: int)
    ensures r == -1 || (from <= r && OccursAt(s, sub, r))
    ensures forall k :: from <= k && (r == -1 || k < r) ==> !OccursAt(s, sub, k)
    decreases |s| - from
  {
    if from < 0 then IndexOf(s, sub, 0)
    else if from + |sub| > |s| then -1
    else if s[from..from + |sub|] == sub then from
    else IndexOf(s, sub, from + 1)
  }

  /**
   * The reference meaning of `replaceString(s, s1, s2)`: scanning s from the
   * left, every occurrence of s1 that does not overlap an earlier replaced
   * one is replaced by s2.
   */
  function ReplaceAll(s: string, s1: string, s2: string): string
    requires |s1| > 0
    decreases |s|
  {
    if |s| < |s1| then s
    else if s[..|s1|] == s1 then s2 + ReplaceAll(s[|s1|..], s1, s2)
    else [s[0]] + ReplaceAll(s[1..], s1, s2)
  }

  /** The number of occurrences that ReplaceAll replaces. */
  function Count(s: string, s1: string): nat
    requires |s1| > 0
    decreases |s|
  {
    if |s| < |s1| then 0
    else if s[..|s1|] == s1 then 1 + Count(s[|s1|..], s1)
    else Count(s[1..], s1)
  }

  /** Each replacement changes the length by |s2| - |s1|. */
  lemma {:induction false} ReplaceLength(s: string, s1: string, s2: string)
    requires |s1| > 0
    ensures |ReplaceAll(s, s1, s2)| == |s| + Count(s, s1) * (|s2| - |s1|)
    decreases |s|
  {
    if |s| < |s1| {
    } else if s[..|s1|] == s1 {
      var tail := s[|s1|..];
      ReplaceLength(tail, s1, s2);
      assert ReplaceAll(s, s1, s2) == s2 + ReplaceAll(tail, s1, s2);
      assert Count(s, s1) == 1 + Count(tail, s1);
      LengthStep(|s|, |s1|, |s2|, Count(tail, s1), |ReplaceAll(tail, s1, s2)|);
    } else {
      var tail := s[1..];
      ReplaceLength(tail, s1, s2);
      assert ReplaceAll(s, s1, s2) == [s[0]] + ReplaceAll(tail, s1, s2);
      assert Count(s, s1) == Count(tail, s1);
    }
  }

  lemma LengthStep(n: int, a: int, b: int, c: int, m: int)
    requires m == n - a + c * (b - a)
    ensures b + m == n + (1 + c) * (b - a)
  {
  }

  /** Something is replaced exactly when s1 occurs in s. */
  lemma {:induction false} CountZero(s: string, s1: string)
    requires |s1| > 0
    ensures Count(s, s1) == 0 <==> !Contains(s, s1)
    decreases |s|
  {
    if |s| < |s1| {
      assert forall i :: !OccursAt(s, s1, i);
    } else if s[..|s1|] == s1 {
      assert OccursAt(s, s1, 0);
    } else {
      CountZero(s[1..], s1);
      ShiftOccurs(s, s1);
    }
  }

  /** Occurrences in s from index 1 on are the occurrences in s[1..], shifted by one. */
  lemma ShiftOccurs(s: string, s1: string)
    requires |s| > 0 && |s1| > 0 && !OccursAt(s, s1, 0)
    ensures Contains(s, s1) <==> Contains(s[1..], s1)
  {
    if Contains(s, s1) {
      var i :| 0 <= i <= |s| && OccursAt(s, s1, i);
      OccursDrop(s, s1, 1, i - 1);
    }
    if Contains(s[1..], s1) {
      var i :| 0 <= i <= |s| - 1 && OccursAt(s[1..], s1, i);
      OccursDrop(s, s1, 1, i);
    }
  }

  /** An occurrence in s at i + d is one in s[d..] at i. */
  lemma OccursDrop(s: string, s1: string, d: int, i: int)
    requires 0 <= d <= |s| && 0 <= i
    ensures OccursAt(s, s1, i + d) <==> OccursAt(s[d..], s1, i)
  {
    if i + |s1| <= |s| - d {
      assert s[d..][i..i + |s1|] == s[i + d..i + d + |s1|];
    }
  }

  /** Text without s1 is left unchanged. */
  lemma ReplaceAbsent(s: string, s1: string, s2: string)
    requires |s1| > 0 && !Contains(s, s1)
    ensures ReplaceAll(s, s1, s2) == s
  {
    CountZero(s, s1);
    NoCountUnchanged(s, s1, s2);
  }

  lemma {:induction false} NoCountUnchanged(s: string, s1: string, s2: string)
    requires |s1| > 0 && Count(s, s1) == 0
    ensures ReplaceAll(s, s1, s2) == s
    decreases |s|
  {
    if |s| >= |s1| {
      NoCountUnchanged(s[1..], s1, s2);
      assert [s[0]] + s[1..] == s;
    }
  }

  /** Every character of the result comes from s or from s2. */
  lemma {:induction false} ReplaceChars(s: string, s1: string, s2: string)
    requires |s1| > 0
    ensures forall c :: c in ReplaceAll(s, s1, s2) ==> c in s || c in s2
    decreases |s|
  {
    if |s| < |s1| {
    } else if s[..|s1|] == s1 {
      ReplaceChars(s[|s1|..], s1, s2);
      assert forall c :: c in s[|s1|..] ==> c in s;
    } else {
      ReplaceChars(s[1..], s1, s2);
      assert forall c :: c in s[1..] ==> c in s;
    }
  }

  /** Replacing a one-character s1 by text without that character leaves none of it. */
  lemma {:induction false} ReplaceRemovesChar(s: string, c: char, s2: string)
    requires c !in s2
    ensures c !in ReplaceAll(s, [c], s2)
    decreases |s|
  {
    if |s| >= 1 {
      ReplaceRemovesChar(s[1..], c, s2);
      if s[..1] != [c] {
        assert s[0] != c;
      }
    }
  }

  /** Replacing in r keeps r[..k], puts s2 for the s1 at k and replaces in the rest. */
  predicate Decomposes(r: string, s1: string, s2: string, k: nat)
    requires |s1| > 0
  {
    k + |s1| <= |r| && ReplaceAll(r, s1, s2) == r[..k] + s2 + ReplaceAll(r[k + |s1|..], s1, s2)
  }

  /**
   * When the first occurrence of s1 is at index k, the replaced text keeps
   * everything before it and turns it into s2.
   */
  lemma {:induction false} FirstOccurrence(r: string, s1: string, s2: string, k: nat)
    requires |s1| > 0 && OccursAt(r, s1, k)
    requires forall j :: 0 <= j < k ==> !OccursAt(r, s1, j)
    ensures Decomposes(r, s1, s2, k)
    decreases k
  {
    if k == 0 {
      HeadMatch(r, s1, s2);
    } else {
      assert !OccursAt(r, s1, 0);
      OccursDrop(r, s1, 1, k - 1);
      NoneBefore(r, s1, 1, k - 1);
      var t := r[1..];
      FirstOccurrence(t, s1, s2, k - 1);
      LaterStep(r, t, s1, s2, k);
    }
  }

  /** The inductive step of FirstOccurrence: a non-matching head character is kept. */
  lemma LaterStep(r: string, t: string, s1: string, s2: string, k: nat)
    requires |s1| > 0 && 1 <= k
    requires OccursAt(r, s1, k)
    requires !OccursAt(r, s1, 0)
    requires t == r[1..]
    requires Decomposes(t, s1, s2, k - 1)
    ensures Decomposes(r, s1, s2, k)
  {
    HeadMiss(r, s1, s2);
    var rest := ReplaceAll(r[k + |s1|..], s1, s2);
    DropOne(r, k - 1 + |s1|);
    assert ReplaceAll(t[k - 1 + |s1|..], s1, s2) == rest;
    Prepend(r, k, s2, rest);
  }

  lemma HeadMatch(r: string, s1: string, s2: string)
    requires |s1| > 0 && OccursAt(r, s1, 0)
    ensures ReplaceAll(r, s1, s2) == s2 + ReplaceAll(r[|s1|..], s1, s2)
    ensures ReplaceAll(r, s1, s2) == r[..0] + s2 + ReplaceAll(r[0 + |s1|..], s1, s2)
  {
    assert r[0..0 + |s1|] == r[..|s1|];
    assert r[..0] + s2 == s2;
  }

  lemma HeadMiss(r: string, s1: string, s2: string)
    requires |s1| > 0 && |s1| <= |r| && !OccursAt(r, s1, 0)
    ensures ReplaceAll(r, s1, s2) == [r[0]] + ReplaceAll(r[1..], s1, s2)
  {
    assert r[0..0 + |s1|] == r[..|s1|];
  }

  lemma DropOne(r: string, a: int)
    requires 0 <= a < |r|
    ensures r[1..][a..] == r[a + 1..]
  {
  }

  lemma Prepend(r: string, k: int, s2: string, rest: string)
    requires 1 <= k <= |r|
    ensures [r[0]] + (r[1..][..k - 1] + s2 + rest) == r[..k] + s2 + rest
  {
    assert [r[0]] + r[1..][..k - 1] == r[..k];
  }

  /**
   * Java's `replaceString(s, s1, s2)`: repeatedly finds s1 and splices s2 in
   * its place, resuming the search just after the inserted s2.  For a
   * non-empty s1 this is ReplaceAll; with an empty s1 and s2 the Java loop
   * never ends, so s1 must not be empty.
   */
  method ReplaceString(s: string, s1: string, s2: string) returns (s3: string)
    requires |s1| > 0
    ensures s3 == ReplaceAll(s, s1, s2)
    ensures |s3| == |s| + Count(s, s1) * (|s2| - |s1|)
  {
    s3 := s;
    ghost var start := 0;
    var i := IndexOf(s3, s1, 0);
    assert s3[..0] + s3[0..] == s3;
    while i > -1
      invariant 0 <= start <= |s3|
      invariant i == IndexOf(s3, s1, start)
      invariant ReplaceAll(s, s1, s2) == s3[..start] + ReplaceAll(s3[start..], s1, s2)
      decreases |s3| - start
    {
      Splice(s3, s1, s2, start, i);
      s3, start := s3[..i] + s2 + s3[i + |s1|..], i + |s2|;
      i := IndexOf(s3, s1, i + |s2|);
    }
    SuffixAbsent(s3, s1, start);
    ReplaceAbsent(s3[start..], s1, s2);
    assert s3[..start] + s3[start..] == s3;
    ReplaceLength(s, s1, s2);
  }

  /** One round of the replace loop keeps the loop's invariant. */
  lemma Splice(s3: string, s1: string, s2: string, start: int, i: int)
    requires |s1| > 0 && 0 <= start <= i && OccursAt(s3, s1, i)
    requires forall j :: start <= j < i ==> !OccursAt(s3, s1, j)
    ensures var t := s3[..i] + s2 + s3[i + |s1|..];
      s3[..start] + ReplaceAll(s3[start..], s1, s2) == t[..i + |s2|] + ReplaceAll(t[i + |s2|..], s1, s2)
  {
    var r := s3[start..];
    var k := i - start;
    OccursDrop(s3, s1, start, k);
    NoneBefore(s3, s1, start, k);
    FirstOccurrence(r, s1, s2, k);
    SpliceParts(s3, s2, start, i, |s1|);
    var t := s3[..i] + s2 + s3[i + |s1|..];
    var x := ReplaceAll(r[k + |s1|..], s1, s2);
    assert t[i + |s2|..] == r[k + |s1|..];
    assert ReplaceAll(t[i + |s2|..], s1, s2) == x;
    assert t[..i + |s2|] == s3[..start] + r[..k] + s2;
    Regroup(s3[..start], r[..k], s2, x);
  }

  lemma Regroup(a: string, b: string, c: string, x: string)
    ensures a + (b + c + x) == (a + b + c) + x
  {
  }

  /** No occurrence in s at d..d+k-1 means none in s[d..] before k. */
  lemma NoneBefore(s: string, s1: string, d: int, k: int)
    requires 0 <= d <= |s|
    requires forall j :: d <= j < d + k ==> !OccursAt(s, s1, j)
    ensures forall j :: 0 <= j < k ==> !OccursAt(s[d..], s1, j)
  {
    forall j | 0 <= j < k
      ensures !OccursAt(s[d..], s1, j)
    {
      OccursDrop(s, s1, d, j);
    }
  }

  lemma SpliceParts(s3: string, s2: string, start: int, i: int, n: int)
    requires 0 <= start <= i && 0 <= n && i + n <= |s3|
    ensures var t := s3[..i] + s2 + s3[i + n..];
      t[..i + |s2|] == s3[..start] + s3[start..][..i - start] + s2 &&
      t[i + |s2|..] == s3[start..][i - start + n..]
  {
  }

  /** When the search from start finds nothing, the rest of s3 holds no s1. */
  lemma SuffixAbsent(s3: string, s1: string, start: int)
    requires |s1| > 0 && 0 <= start <= |s3| && IndexOf(s3, s1, start) == -1
    ensures !Contains(s3[start..], s1)
  {
    forall j | 0 <= j <= |s3| - start
      ensures !OccursAt(s3[start..], s1, j)
    {
      OccursDrop(s3, s1, start, j);
    }
  }

  /** Java's `removeString(s, s1)`: replaceString with the empty string; it never lengthens the text. */
  method RemoveString(s: string, s1: string) returns (r: string)
    requires |s1| > 0
    ensures r == ReplaceAll(s, s1, "")
    ensures |r| == |s| - Count(s, s1) * |s1| <= |s|
  {
    r := ReplaceString(s, s1, "");
  }

  /**
   * Java's `convertBookmark`: drops the MEBKM, TITLE and URL markers and the
   * ';' separators, so no ';' is left.
   */
  function ConvertBookmark(s: string): (r: string)
    ensures ';' !in r
  {
    var a := ReplaceAll(s, "MEBKM:", "");
    var b := ReplaceAll(a, "TITLE:", "");
    var c := ReplaceAll(b, ";", "");
    ReplaceRemovesChar(b, ';', "");
    ReplaceChars(c, "URL:", "");
    ReplaceAll(c, "URL:", "")
  }

  /**
   * Java's `convertAddressBook`: drops the markers and separators, relabels
   * the fields, ends with a newline; no ';' is left.
   */
  function ConvertAddressBook(s: string): (r: string)
    ensures ';' !in r
    ensures |r| > 0 && r[|r| - 1] == '\n'
  {
    var a := ReplaceAll(s, "MECARD:", "");
    var b := ReplaceAll(a, ";", "");
    var c := ReplaceAll(b, "N:", "NAME1:");
    var d := ReplaceAll(c, "SOUND:", "\nNAME2:");
    var e := ReplaceAll(d, "TEL:", "\nTEL1:");
    ReplaceRemovesChar(a, ';', "");
    ReplaceChars(b, "N:", "NAME1:");
    ReplaceChars(c, "SOUND:", "\nNAME2:");
    ReplaceChars(d, "TEL:", "\nTEL1:");
    ReplaceChars(e, "EMAIL:", "\nMAIL1:");
    ReplaceAll(e, "EMAIL:", "\nMAIL1:") + "\n"
  }

  /**
   * Java's `convertMailto`: drops the marker and separators, relabels the
   * fields, ends with a newline; no ';' is left.
   */
  function ConvertMailto(s: string): (r: string)
    ensures ';' !in r
    ensures |r| > 0 && r[|r| - 1] == '\n'
  {
    var a := ReplaceAll(s, "MATMSG:", "");
    var b := ReplaceAll(a, ";", "");
    var c := ReplaceAll(b, "TO:", "MAILTO:");
    var d := ReplaceAll(c, "SUB:", "\nSUBJECT:");
    ReplaceRemovesChar(a, ';', "");
    ReplaceChars(b, "TO:", "MAILTO:");
    ReplaceChars(c, "SUB:", "\nSUBJECT:");
    ReplaceChars(d, "BODY:", "\nBODY:");
    ReplaceAll(d, "BODY:", "\nBODY:") + "\n"
  }

  /** The marker that the converter rewrites to a line starting with "https://"; the text is `http\://`. */
  const HTTP_MARKER: string := "http\\://"

  /**
   * Java's `convert`: null stays null; each format whose marker occurs is
   * converted in turn, and `http\://` becomes a new line starting "https://".
   */
  function Convert(target: Option<string>): (r: Option<string>)
    ensures r.None? <==> target.None?
  {
    match target
    case None => None
    case Some(s0) =>
      var s1 := if Contains(s0, "MEBKM:") then ConvertBookmark(s0) else s0;
      var s2 := if Contains(s1, "MECARD:") then ConvertAddressBook(s1) else s1;
      var s3 := if Contains(s2, "MATMSG:") then ConvertMailto(s2) else s2;
      Some(if Contains(s3, HTTP_MARKER) then ReplaceAll(s3, HTTP_MARKER, "\nhttps://") else s3)
  }

  /** Null in, null out; text carrying none of the markers comes back unchanged. */
  lemma ConvertPlain(target: Option<string>)
    requires target.Some? ==>
      !Contains(target.value, "MEBKM:") && !Contains(target.value, "MECARD:") &&
      !Contains(target.value, "MATMSG:") && !Contains(target.value, HTTP_MARKER)
    ensures Convert(target) == target
  {
  }
}
