module BchGf16 {
  import opened JavaInt
  import opened Optional

  /** The zero vector of GF(16): no powers of α. */
  const ZERO: seq<int> := [0, 0, 0, 0]

  /** A GF(16) element as the four coefficients of 1, α, α², α³, each 0 or 1. */
  predicate IsBits(v: seq<int>)
  {
    |v| == 4 && forall m :: 0 <= m < 4 ==> v[m] == 0 || v[m] == 1
  }

  /** Multiplication by α modulo α⁴ + α + 1, as one row of the table follows the previous. */
  function Succ(r: seq<int>): (s: seq<int>)
    requires IsBits(r)
    ensures IsBits(s)
  {
    if r[3] == 1 then [1, (r[0] + 1) % 2, r[1], r[2]] else [0, r[0], r[1], r[2]]
  }

  /** α^k, the reference definition of table row k. */
  function Row(k: nat): (r: seq<int>)
    ensures IsBits(r)
  {
    if k == 0 then [1, 0, 0, 0] else Succ(Row(k - 1))
  }

  /** The sixteen rows worked out one multiplication by α at a time; α¹⁵ = 1. */
  lemma RowValues()
    ensures Row(0) == [1, 0, 0, 0] && Row(1) == [0, 1, 0, 0] && Row(2) == [0, 0, 1, 0]
    ensures Row(3) == [0, 0, 0, 1] && Row(4) == [1, 1, 0, 0] && Row(5) == [0, 1, 1, 0]
    ensures Row(6) == [0, 0, 1, 1] && Row(7) == [1, 1, 0, 1] && Row(8) == [1, 0, 1, 0]
    ensures Row(9) == [0, 1, 0, 1] && Row(10) == [1, 1, 1, 0] && Row(11) == [0, 1, 1, 1]
    ensures Row(12) == [1, 1, 1, 1] && Row(13) == [1, 0, 1, 1] && Row(14) == [1, 0, 0, 1]
    ensures Row(15) == [1, 0, 0, 0]
  {
    assert Row(1) == Succ(Row(0));
    assert Row(2) == Succ(Row(1));
    assert Row(3) == Succ(Row(2));
    assert Row(4) == Succ(Row(3));
    assert Row(5) == Succ(Row(4));
    assert Row(6) == Succ(Row(5));
    assert Row(7) == Succ(Row(6));
    assert Row(8) == Succ(Row(7));
    assert Row(9) == Succ(Row(8));
    assert Row(10) == Succ(Row(9));
    assert Row(11) == Succ(Row(10));
    assert Row(12) == Succ(Row(11));
    assert Row(13) == Succ(Row(12));
    assert Row(14) == Succ(Row(13));
    assert Row(15) == Succ(Row(14));
  }

  /** The vector read as a 4-bit number. */
  function Code(v: seq<int>): int
    requires |v| == 4
  {
    v[0] + 2 * v[1] + 4 * v[2] + 8 * v[3]
  }

  /** The discrete logarithm by 4-bit code; the code of the zero vector maps to 15. */
  const LOG: seq<int> := [15, 0, 1, 4, 2, 8, 5, 10, 3, 14, 9, 7, 6, 13, 11, 12]

  lemma RowLog(k: int)
    requires 0 <= k < 15
    ensures LOG[Code(Row(k))] == k
  {
    RowValues();
    assert k == 0 || k == 1 || k == 2 || k == 3 || k == 4 || k == 5 || k == 6 || k == 7 ||
           k == 8 || k == 9 || k == 10 || k == 11 || k == 12 || k == 13 || k == 14;
  }

  /** Rows 0 .. 14 are pairwise distinct and none is zero; row 15 is row 0 again. */
  lemma RowsDistinct(i: int, j: int)
    requires 0 <= i < 15 && 0 <= j < 15
    ensures Row(i) == Row(j) ==> i == j
  {
    RowLog(i);
    RowLog(j);
  }

  lemma RowNonzero(k: int)
    requires 0 <= k < 15
    ensures Row(k) != ZERO
  {
    RowLog(k);
  }

  lemma RowPeriod()
    ensures Row(15) == Row(0)
  {
    RowValues();
  }

  /** Every non-zero vector is one of rows 0 .. 14. */
  lemma NonzeroIsRow(v: seq<int>)
    requires IsBits(v) && v != ZERO
    ensures 0 <= LOG[Code(v)] < 15 && Row(LOG[Code(v)]) == v
  {
    RowValues();
    assert v == [v[0], v[1], v[2], v[3]];
  }

  /** The sum of two bits modulo 2. */
  function Xor(x: int, y: int): (r: int)
    requires 0 <= x <= 1 && 0 <= y <= 1
    ensures r == (x + y) % 2
  {
    if x == y then 0 else 1
  }

  /** Addition in GF(16): coefficient-wise sum modulo 2. */
  function Plus(a: seq<int>, b: seq<int>): (r: seq<int>)
    requires IsBits(a) && IsBits(b)
    ensures IsBits(r)
  {
    [Xor(a[0], b[0]), Xor(a[1], b[1]), Xor(a[2], b[2]), Xor(a[3], b[3])]
  }

  lemma PlusComm(a: seq<int>, b: seq<int>)
    requires IsBits(a) && IsBits(b)
    ensures Plus(a, b) == Plus(b, a)
  {
  }

  lemma PlusAssoc(a: seq<int>, b: seq<int>, c: seq<int>)
    requires IsBits(a) && IsBits(b) && IsBits(c)
    ensures Plus(Plus(a, b), c) == Plus(a, Plus(b, c))
  {
  }

  /** Zero is the identity, and the sum of two vectors is zero exactly when they are equal. */
  lemma PlusZero(a: seq<int>, b: seq<int>)
    requires IsBits(a) && IsBits(b)
    ensures Plus(a, ZERO) == a
    ensures Plus(a, b) == ZERO <==> a == b
  {
    assert a == [a[0], a[1], a[2], a[3]];
    assert b == [b[0], b[1], b[2], b[3]];
  }

  /** The vector of exponent a; addGF treats an exponent outside 0 .. 14 as the zero element. */
  function Vec(a: int): (r: seq<int>)
    ensures IsBits(r)
    ensures 0 <= a < 15 ==> r == Row(a)
    ensures (a < 0 || a >= 15) ==> r == ZERO
  {
    if a < 0 || a >= 15 then ZERO else Row(a)
  }

  /**
   * The exponent of v by table lookup: LOG at the 4-bit code of v, and 15 for
   * the zero vector and for anything that is not a vector of bits.
   */
  function Find(v: seq<int>): (r: int)
    ensures 0 <= r <= 15
  {
    if IsBits(v) && v != ZERO then LOG[Code(v)] else 15
  }

  /** Find returns the row equal to v, and 15 exactly when no row equals v. */
  lemma FindSpec(v: seq<int>)
    ensures Find(v) < 15 ==> Row(Find(v)) == v
    ensures Find(v) == 15 <==> forall k :: 0 <= k < 15 ==> Row(k) != v
  {
    if IsBits(v) && v != ZERO {
      NonzeroIsRow(v);
    } else {
      forall k | 0 <= k < 15
        ensures Row(k) != v
      {
        RowNonzero(k);
      }
    }
  }

  /** A search that passed every row before k and stopped at a match, or at 15, found Find(x). */
  lemma SearchResult(x: seq<int>, k: int)
    requires 0 <= k <= 15 && forall j :: 0 <= j < k ==> Row(j) != x
    requires k < 15 ==> x == Row(k)
    ensures k == Find(x)
  {
    if k < 15 {
      FindRow(k);
    } else {
      FindSpec(x);
    }
  }

  /** Find inverts Row on 0 .. 14. */
  lemma FindRow(k: int)
    requires 0 <= k < 15
    ensures Find(Row(k)) == k
  {
    RowNonzero(k);
    RowLog(k);
  }

  /** Only the zero vector has no exponent. */
  lemma FindZero(v: seq<int>)
    requires IsBits(v)
    ensures Find(v) == 15 <==> v == ZERO
  {
    if v != ZERO {
      NonzeroIsRow(v);
    }
  }

  /** The specification of addGF: the exponent of α^a + α^b, 15 standing for zero. */
  function AddSpec(a: int, b: int): (r: int)
    ensures 0 <= r <= 15
  {
    Find(Plus(Vec(a), Vec(b)))
  }

  /** addGF is symmetric, the sum is zero exactly when both terms are the same element, and a non-zero sum is the row it names. */
  lemma AddLaws(a: int, b: int)
    ensures AddSpec(a, b) == AddSpec(b, a)
    ensures AddSpec(a, b) == 15 <==> Vec(a) == Vec(b)
    ensures AddSpec(a, b) < 15 ==> Row(AddSpec(a, b)) == Plus(Vec(a), Vec(b))
  {
    PlusComm(Vec(a), Vec(b));
    PlusZero(Vec(a), Vec(b));
    FindZero(Plus(Vec(a), Vec(b)));
    FindSpec(Plus(Vec(a), Vec(b)));
  }

  /** An index outside 0 .. 14 adds nothing: the result is the other exponent, or 15. */
  lemma AddOutOfRange(a: int, b: int)
    requires b < 0 || b >= 15
    ensures AddSpec(a, b) == (if 0 <= a < 15 then a else 15)
  {
    PlusZero(Vec(a), Vec(b));
    if 0 <= a < 15 {
      FindRow(a);
    } else {
      FindZero(ZERO);
    }
  }

  /**
   * The received word y[0 .. n) evaluated at α^mult: the sum of α^(k·mult mod 15)
   * over the set bits k, accumulated in index order.
   */
  function SynSum(y: seq<bool>, mult: int, n: nat): (p: seq<int>)
    requires n <= |y|
    ensures IsBits(p)
  {
    if n == 0 then ZERO
    else if y[n - 1] then Plus(SynSum(y, mult, n - 1), Row(((n - 1) * mult) % 15))
    else SynSum(y, mult, n - 1)
  }

  /** An exponent as calcSyndrome stores it: 15 (no exponent, the zero element) becomes -1. */
  function LogOf(k: int): int
  {
    if k >= 15 then -1 else k
  }

  /**
   * The five syndromes: the logarithms of y(α), y(α³) and y(α⁵) in positions
   * 0, 2 and 4, and positions 1 and 3 obtained by doubling, -1 standing for zero.
   */
  function Syndromes(y: seq<bool>): (s: seq<int>)
    requires |y| >= 15
    ensures |s| == 5 && forall i :: 0 <= i < 5 ==> -1 <= s[i] < 15
  {
    var s0 := LogOf(Find(SynSum(y, 1, 15)));
    var s1 := if s0 < 0 then -1 else (s0 * 2) % 15;
    var s2 := LogOf(Find(SynSum(y, 3, 15)));
    var s3 := if s1 < 0 then -1 else (s1 * 2) % 15;
    var s4 := LogOf(Find(SynSum(y, 5, 15)));
    [s0, s1, s2, s3, s4]
  }

  /**
   * The coefficients σ1, σ2, σ3 of the error locator x³ + σ1·x² + σ2·x + σ3, as
   * exponents, computed from the syndromes in the log domain with Java's
   * truncating remainder.
   */
  function Sigma(s: seq<int>): (e: seq<int>)
    requires |s| >= 5
    ensures |e| == 4 && e[0] == s[0] && e[3] == 0
    ensures -1 <= e[1] < 15 && 0 <= e[2] <= 15
  {
    var e1 := Sigma2(s);
    [s[0], e1, Sigma3(s, e1), 0]
  }

  /** σ2 = child / mother, where mother = S3 + S1³ and child = S5 + S1²·S3, in exponents. */
  function Sigma2(s: seq<int>): (e1: int)
    requires |s| >= 5
    ensures -1 <= e1 < 15
  {
    var mother := LogOf(AddSpec(s[2], Rem(s[0] + s[1], 15)));
    var child := LogOf(AddSpec(s[4], Rem(s[2] + s[1], 15)));
    if child < 0 && mother < 0 then -1 else Rem(child - mother + 15, 15)
  }

  /** σ3 = S3 + S1²·σ1 + S1·σ2, in exponents. */
  function Sigma3(s: seq<int>, e1: int): (e2: int)
    requires |s| >= 5
    ensures 0 <= e2 <= 15
  {
    var t1 := AddSpec(s[2], Rem(s[1] + s[0], 15));
    AddSpec(t1, Rem(s[0] + e1, 15))
  }

  lemma LocatorOf(e: seq<int>, i: int, ta: int, t1: int, tb: int, t2: int, r: int)
    requires |e| >= 3
    requires ta == Rem(e[0] + (i * 2) % 15, 15) && t1 == AddSpec((i * 3) % 15, ta)
    requires tb == Rem(e[1] + i, 15) && t2 == AddSpec(tb, e[2]) && r == AddSpec(t1, t2)
    ensures r == LocatorAt(e, i)
  {
  }

  lemma Sigma2Of(s: seq<int>, ta: int, mother: int, tb: int, child: int, e1: int)
    requires |s| >= 5
    requires ta == Rem(s[0] + s[1], 15) && mother == LogOf(AddSpec(s[2], ta))
    requires tb == Rem(s[2] + s[1], 15) && child == LogOf(AddSpec(s[4], tb))
    requires e1 == if child < 0 && mother < 0 then -1 else Rem(child - mother + 15, 15)
    ensures e1 == Sigma2(s)
  {
  }

  lemma Sigma3Of(s: seq<int>, ta: int, t1: int, tb: int, e1: int, e2: int)
    requires |s| >= 5
    requires ta == Rem(s[1] + s[0], 15) && t1 == AddSpec(s[2], ta)
    requires tb == Rem(s[0] + e1, 15) && e2 == AddSpec(t1, tb)
    ensures e2 == Sigma3(s, e1)
  {
  }

  /** The exponent of x³ + σ1·x² + σ2·x + σ3 at x = α^i, 15 standing for zero. */
  function LocatorAt(e: seq<int>, i: int): (r: int)
    requires |e| >= 3
    ensures 0 <= r <= 15
  {
    var t1 := AddSpec((i * 3) % 15, Rem(e[0] + (i * 2) % 15, 15));
    var t2 := AddSpec(Rem(e[1] + i, 15), e[2]);
    AddSpec(t1, t2)
  }

  /** Whether x = α^i is a root of the error locator with coefficients e. */
  predicate IsRoot(e: seq<int>, i: int)
    requires |e| >= 3
  {
    LocatorAt(e, i) >= 15
  }

  /** Which of α^0 .. α^14 are roots of the error locator e. */
  function RootMask(e: seq<int>): (mask: seq<bool>)
    requires |e| >= 3
    ensures |mask| == 15 && forall i :: 0 <= i < 15 ==> mask[i] == IsRoot(e, i)
  {
    seq(15, i => IsRoot(e, i))
  }

  /** The indices below n at which mask holds, in increasing order. */
  function Hits(mask: seq<bool>, n: nat): (rs: seq<int>)
    requires n <= |mask|
    ensures |rs| <= n
    ensures forall j :: 0 <= j < |rs| ==> 0 <= rs[j] < n
    ensures forall j, k :: 0 <= j < k < |rs| ==> rs[j] < rs[k]
  {
    if n == 0 then []
    else if mask[n - 1] then Hits(mask, n - 1) + [n - 1]
    else Hits(mask, n - 1)
  }

  lemma {:induction false} HitsGrow(mask: seq<bool>, i: nat, n: nat)
    requires i <= n <= |mask|
    ensures |Hits(mask, i)| <= |Hits(mask, n)|
    decreases n - i
  {
    if i < n {
      HitsGrow(mask, i, n - 1);
    }
  }

  /** Hits(mask, n) lists exactly the indices below n where mask holds. */
  lemma {:induction false} HitsExact(mask: seq<bool>, n: nat)
    requires n <= |mask|
    ensures forall i :: 0 <= i < n ==> (i in Hits(mask, n) <==> mask[i])
  {
    if n > 0 {
      HitsExact(mask, n - 1);
    }
  }

  /** The positions array: a count followed by that many positions, zero-padded to four entries. */
  function Padded(rs: seq<int>): (ep: seq<int>)
    requires |rs| <= 3
    ensures |ep| == 4 && ep[0] == |rs| && ep[1..|rs| + 1] == rs
  {
    [|rs|] + rs + seq(3 - |rs|, _ => 0)
  }

  /**
   * What detectErrorBitPosition produces from the locator e: no errors when
   * σ1 is -1, the single error σ1 when σ2 is -1, otherwise the roots found by
   * trying every position; None when a fourth root would be written past the
   * end of the four-entry array.
   */
  function Positions(e: seq<int>): (r: Option<seq<int>>)
    requires |e| >= 3
    ensures r.Some? ==> |r.value| == 4
  {
    if e[0] == -1 then Some([0, 0, 0, 0])
    else if e[1] == -1 then Some([1, e[0], 0, 0])
    else Scan(e)
  }

  /** The roots found by trying all fifteen positions, None on a fourth root. */
  function Scan(e: seq<int>): (r: Option<seq<int>>)
    requires |e| >= 3
    ensures r.Some? ==> |r.value| == 4
  {
    var rs := Hits(RootMask(e), 15);
    if |rs| <= 3 then Some(Padded(rs)) else None
  }

  /** Appending a position bumps the count and fills the next slot. */
  lemma PaddedPush(rs: seq<int>, i: int)
    requires |rs| < 3
    ensures Padded(rs + [i]) == Padded(rs)[0 := |rs| + 1][|rs| + 1 := i]
  {
    var l, r := Padded(rs + [i]), Padded(rs)[0 := |rs| + 1][|rs| + 1 := i];
    assert forall j :: 0 <= j < 4 ==> l[j] == r[j];
  }

  /** The listed positions errorPos[1 .. errorPos[0]]. */
  function Listed(ep: seq<int>): seq<int>
    requires 1 <= |ep| && ep[0] < |ep|
  {
    if ep[0] <= 0 then [] else ep[1..ep[0] + 1]
  }

  /** Every listed position is a bit index of a 15-bit word, and no position is listed twice. */
  lemma PositionsValid(e: seq<int>)
    requires |e| >= 3 && -1 <= e[0] < 15
    ensures Positions(e).Some? ==>
      var ep := Positions(e).value;
      0 <= ep[0] <= 3 &&
      (forall j :: 1 <= j <= ep[0] ==> 0 <= ep[j] < 15) &&
      (forall j, k :: 1 <= j < k <= ep[0] ==> ep[j] < ep[k])
  {
    if e[0] != -1 && e[1] != -1 && |Hits(RootMask(e), 15)| <= 3 {
      var rs := Hits(RootMask(e), 15);
      var ep := Padded(rs);
      assert forall j :: 1 <= j <= ep[0] ==> ep[j] == rs[j - 1];
    }
  }

  /** A count ep[0] followed by that many bit indices below n. */
  predicate InRange(ep: seq<int>, n: int)
  {
    1 <= |ep| && 0 <= ep[0] < |ep| && forall i :: 1 <= i <= ep[0] ==> 0 <= ep[i] < n
  }

  /** Every position the decoder reports is a bit of the word. */
  lemma OutcomeInRange(y: seq<bool>)
    requires |y| >= 15
    ensures Outcome(y).Some? ==> InRange(Outcome(y).value, |y|)
  {
    PositionsValid(Sigma(Syndromes(y)));
  }

  /** y with the bits at ps flipped, one after the other. */
  function Flipped(y: seq<bool>, ps: seq<int>): (z: seq<bool>)
    requires forall j :: 0 <= j < |ps| ==> 0 <= ps[j] < |y|
    ensures |z| == |y|
  {
    if |ps| == 0 then y
    else
      var z := Flipped(y, ps[..|ps| - 1]);
      z[ps[|ps| - 1] := !z[ps[|ps| - 1]]]
  }

  /** With distinct positions, exactly the listed bits change. */
  lemma {:induction false} FlipExactly(y: seq<bool>, ps: seq<int>)
    requires forall j :: 0 <= j < |ps| ==> 0 <= ps[j] < |y|
    requires forall j, k :: 0 <= j < k < |ps| ==> ps[j] != ps[k]
    ensures forall i :: 0 <= i < |y| ==> Flipped(y, ps)[i] == (y[i] != (i in ps))
  {
    if |ps| > 0 {
      var qs := ps[..|ps| - 1];
      FlipExactly(y, qs);
      assert ps == qs + [ps[|ps| - 1]];
      assert ps[|ps| - 1] !in qs;
    }
  }

  /** The positions the decoder finds in the received word y. */
  function Outcome(y: seq<bool>): Option<seq<int>>
    requires |y| >= 15
  {
    Positions(Sigma(Syndromes(y)))
  }

  /** The word correct() leaves behind: y with the reported positions flipped, None on a fourth root. */
  function Repaired(y: seq<bool>): (z: Option<seq<bool>>)
    requires |y| >= 15
    ensures z.Some? <==> Outcome(y).Some?
    ensures z.Some? ==> |z.value| == |y|
  {
    OutcomeInRange(y);
    match Outcome(y)
    case None => None
    case Some(ep) => Some(Flipped(y, Listed(ep)))
  }

  /** A repair changes exactly the bits at the reported positions. */
  lemma RepairFlipsListed(y: seq<bool>)
    requires |y| >= 15 && Outcome(y).Some?
    ensures forall i :: 0 <= i < |y| ==> Repaired(y).value[i] == (y[i] != (i in Listed(Outcome(y).value)))
  {
    var ep := Outcome(y).value;
    PositionsValid(Sigma(Syndromes(y)));
    FlipExactly(y, Listed(ep));
  }

  /** `(input >> b) % 2` in Java: bit b of a non-negative input. */
  function InputBit(input: int, b: nat): (r: int)
    ensures input >= 0 ==> r == 0 || r == 1
  {
    Rem(Shr(input, b), 2)
  }

  /** Every entry is 0 or 1. */
  predicate AllBits(s: seq<int>)
  {
    forall j :: 0 <= j < |s| ==> s[j] == 0 || s[j] == 1
  }

  /** A word whose first fifteen bits vanish at α, α³ and α⁵: a code word of the BCH(15,5) code. */
  predicate IsCodeword(c: seq<bool>)
  {
    |c| >= 15 && SynSum(c, 1, 15) == ZERO && SynSum(c, 3, 15) == ZERO && SynSum(c, 5, 15) == ZERO
  }

  /** The sum over no set bits is zero. */
  lemma {:induction false} SynSumClear(y: seq<bool>, mult: int, n: nat)
    requires n <= |y| && forall i :: 0 <= i < n ==> !y[i]
    ensures SynSum(y, mult, n) == ZERO
  {
    if n > 0 {
      SynSumClear(y, mult, n - 1);
    }
  }

  /** The all-zero word is a code word. */
  lemma ZeroIsCodeword(y: seq<bool>)
    requires |y| >= 15 && forall i :: 0 <= i < |y| ==> !y[i]
    ensures IsCodeword(y)
  {
    SynSumClear(y, 1, 15);
    SynSumClear(y, 3, 15);
    SynSumClear(y, 5, 15);
  }

  /** Flipping bit j < n adds α^(j·mult) to the sum: the syndrome is linear in the word. */
  lemma {:induction false} SynSumFlip(y: seq<bool>, mult: int, n: nat, j: int)
    requires n <= |y| && 0 <= j < |y|
    ensures j < n ==> SynSum(y[j := !y[j]], mult, n) == Plus(SynSum(y, mult, n), Row((j * mult) % 15))
    ensures j >= n ==> SynSum(y[j := !y[j]], mult, n) == SynSum(y, mult, n)
  {
    if n > 0 {
      SynSumFlip(y, mult, n - 1, j);
      var z := y[j := !y[j]];
      var p := SynSum(y, mult, n - 1);
      var rj := Row((j * mult) % 15);
      var rn := Row(((n - 1) * mult) % 15);
      if j == n - 1 {
        PlusZero(rj, rj);
        PlusAssoc(p, rj, rj);
        PlusZero(p, p);
      } else if j < n - 1 && y[n - 1] {
        assert SynSum(z, mult, n) == Plus(Plus(p, rj), rn);
        PlusAssoc(p, rj, rn);
        PlusComm(rj, rn);
        PlusAssoc(p, rn, rj);
      }
    }
  }

  /** A code word passes the decoder untouched: every syndrome is -1 and no position is reported. */
  lemma CodewordClean(c: seq<bool>)
    requires IsCodeword(c)
    ensures Outcome(c) == Some([0, 0, 0, 0])
    ensures Repaired(c) == Some(c)
  {
    FindZero(ZERO);
    assert Listed([0, 0, 0, 0]) == [];
  }

  /** α^a + α^a = 0: adding an exponent to itself gives 15. */
  lemma AddSelf(a: int)
    requires 0 <= a < 15
    ensures AddSpec(a, a) == 15
  {
    AddLaws(a, a);
  }

  /** One power sum of a code word with bit j flipped is α^(j·mult). */
  lemma SingleSum(c: seq<bool>, mult: int, j: int)
    requires |c| >= 15 && SynSum(c, mult, 15) == ZERO && 0 <= j < 15
    ensures Find(SynSum(c[j := !c[j]], mult, 15)) == (j * mult) % 15
  {
    var r := Row((j * mult) % 15);
    SynSumFlip(c, mult, 15, j);
    PlusComm(ZERO, r);
    PlusZero(r, ZERO);
    FindRow((j * mult) % 15);
  }

  lemma ModOne(j: int)
    requires 0 <= j < 15
    ensures (j * 1) % 15 == j
  {
  }

  /** Reducing a factor modulo 15 first does not change the product modulo 15. */
  lemma ModFactor(a: nat, k: nat)
    ensures ((a % 15) * k) % 15 == (a * k) % 15
  {
    var q, r := a / 15, a % 15;
    var m := q * k;
    assert a * k == 15 * m + r * k;
  }

  /** Reducing one addend modulo 15 first does not change the sum modulo 15. */
  lemma ModAddend(a: nat, b: nat)
    ensures (a % 15 + b) % 15 == (a + b) % 15
  {
  }

  /** The syndromes of a code word with bit j flipped are the exponents of α^j, α^2j, …, α^5j. */
  lemma SingleSyndromes(c: seq<bool>, j: int)
    requires IsCodeword(c) && 0 <= j < 15
    ensures Syndromes(c[j := !c[j]]) == [j, (j * 2) % 15, (j * 3) % 15, (j * 4) % 15, (j * 5) % 15]
  {
    var y := c[j := !c[j]];
    SingleSum(c, 1, j);
    SingleSum(c, 3, j);
    SingleSum(c, 5, j);
    ModOne(j);
    ModFactor(j * 2, 2);
    SyndromesOf(y, j, (j * 2) % 15, (j * 3) % 15, (j * 4) % 15, (j * 5) % 15);
  }

  /** The syndromes in terms of the exponents of the three power sums. */
  lemma SyndromesOf(y: seq<bool>, a: int, a2: int, b: int, a4: int, c: int)
    requires |y| >= 15 && 0 <= a < 15 && 0 <= b < 15 && 0 <= c < 15
    requires Find(SynSum(y, 1, 15)) == a && Find(SynSum(y, 3, 15)) == b && Find(SynSum(y, 5, 15)) == c
    requires a2 == (a * 2) % 15 && a4 == (a2 * 2) % 15
    ensures Syndromes(y) == [a, a2, b, a4, c]
  {
  }

  /** α^(j·a) · α^(j·b) = α^(j·(a+b)), in exponents modulo 15. */
  lemma ExponentSum(j: nat, a: nat, b: nat)
    ensures Rem((j * a) % 15 + (j * b) % 15, 15) == (j * (a + b)) % 15
  {
    ModAddend(j * a, (j * b) % 15);
    ModAddend(j * b, j * a);
    assert j * a + j * b == j * (a + b);
  }

  /** For the syndromes of a single error the second locator coefficient vanishes. */
  lemma SingleSigma(j: int)
    requires 0 <= j < 15
    ensures Sigma2([j, (j * 2) % 15, (j * 3) % 15, (j * 4) % 15, (j * 5) % 15]) == -1
  {
    var s := [j, (j * 2) % 15, (j * 3) % 15, (j * 4) % 15, (j * 5) % 15];
    ExponentSum(j, 1, 2);
    ExponentSum(j, 3, 2);
    ModOne(j);
    Sigma2Vanishes(s);
  }

  /** When S1·S2 = S3 and S3·S2 = S5 both numerator and denominator of σ1 vanish. */
  lemma Sigma2Vanishes(s: seq<int>)
    requires |s| >= 5 && 0 <= s[2] < 15 && 0 <= s[4] < 15
    requires Rem(s[0] + s[1], 15) == s[2] && Rem(s[2] + s[1], 15) == s[4]
    ensures Sigma2(s) == -1
  {
    AddSelf(s[2]);
    AddSelf(s[4]);
  }

  /**
   * A code word with one bit flipped is decoded to exactly that position, so
   * the correction flips it back.
   */
  lemma CorrectsSingleError(c: seq<bool>, j: int)
    requires IsCodeword(c) && 0 <= j < 15
    ensures Outcome(c[j := !c[j]]) == Some([1, j, 0, 0])
    ensures Repaired(c[j := !c[j]]) == Some(c)
  {
    SingleSyndromes(c, j);
    SingleSigma(j);
    FlipBack(c, j);
  }

  /** Flipping the one listed position of a single-error report restores the word. */
  lemma FlipBack(c: seq<bool>, j: int)
    requires 0 <= j < |c|
    ensures Flipped(c[j := !c[j]], Listed([1, j, 0, 0])) == c
  {
    var y := c[j := !c[j]];
    var ep := [1, j, 0, 0];
    assert ep[1..2] == [j];
    assert Flipped(y, [j]) == Flipped(y, [])[j := !y[j]];
  }

  /** Row k of the table g holds the vector r. */
  predicate RowIs(g: array2<int>, k: int, r: seq<int>)
    requires g.Length1 == 4 && 0 <= k < g.Length0 && |r| == 4
    reads g
  {
    g[k, 0] == r[0] && g[k, 1] == r[1] && g[k, 2] == r[2] && g[k, 3] == r[3]
  }

  /** A search of a table of the rows of α that stops at the first row matching v, or at 15, finds Find(v). */
  lemma SearchFound(g: array2<int>, k: int, v: seq<int>)
    requires g.Length0 == 16 && g.Length1 == 4 && forall i :: 0 <= i < 16 ==> RowIs(g, i, Row(i))
    requires |v| == 4 && 0 <= k <= 15 && forall j :: 0 <= j < k ==> !RowIs(g, j, v)
    requires k < 15 ==> RowIs(g, k, v)
    ensures k == Find(v)
  {
    forall j | 0 <= j < k
      ensures Row(j) != v
    {
      assert RowIs(g, j, Row(j));
    }
    if k < 15 {
      assert RowIs(g, k, Row(k));
      assert v == [v[0], v[1], v[2], v[3]];
    }
    SearchResult(v, k);
  }

  /** The decoder for one 15-bit received word. */
  class Bch15_5 {
    /** Row k is α^k as coefficients of 1, α, α², α³; row 15 is α¹⁵ = 1 again. */
    const gf16: array2<int>
    var receiveData: array<bool>
    var numCorrectedError: int

    ghost predicate Valid()
      reads gf16
    {
      gf16.Length0 == 16 && gf16.Length1 == 4 &&
      forall k :: 0 <= k < 16 ==> RowIs(gf16, k, Row(k))
    }

    constructor (source: array<bool>)
      ensures Valid() && receiveData == source && numCorrectedError == 0
    {
      var g := CreateGF16();
      gf16 := g;
      receiveData := source;
      numCorrectedError := 0;
    }

    /** Builds the table: unit rows 0 .. 3, row 4 = 1 + α, and each later row α times the one before. */
    static method CreateGF16() returns (g: array2<int>)
      ensures fresh(g) && g.Length0 == 16 && g.Length1 == 4
      ensures forall k :: 0 <= k < 16 ==> RowIs(g, k, Row(k))
    {
      g := new int[16, 4]((k, m) => 0);
      var seed := [1, 1, 0, 0];
      for i := 0 to 4
        invariant forall k :: 0 <= k < i ==> RowIs(g, k, Row(k))
        invariant forall k, m :: i <= k < 16 && 0 <= m < 4 ==> g[k, m] == 0
      {
        SetUnit(g, i);
      }
      CopySeed(g, seed);
      for i := 5 to 16
        invariant forall k :: 0 <= k < i ==> RowIs(g, k, Row(k))
        invariant forall k, m :: i <= k < 16 && 0 <= m < 4 ==> g[k, m] == 0
      {
        NextRow(g, i, seed);
      }
    }

    /** `gf16[i][i] = 1` on a zero row i < 4: row i becomes α^i. */
    static method SetUnit(g: array2<int>, i: int)
      requires g.Length0 == 16 && g.Length1 == 4 && 0 <= i < 4 && RowIs(g, i, ZERO)
      modifies g
      ensures RowIs(g, i, Row(i))
      ensures forall k, m :: 0 <= k < 16 && 0 <= m < 4 && k != i ==> g[k, m] == old(g[k, m])
    {
      RowValues();
      g[i, i] := 1;
    }

    /** Copies the seed into row 4: row 4 becomes α⁴ = 1 + α. */
    static method CopySeed(g: array2<int>, seed: seq<int>)
      requires g.Length0 == 16 && g.Length1 == 4 && seed == [1, 1, 0, 0]
      modifies g
      ensures RowIs(g, 4, Row(4))
      ensures forall k, m :: 0 <= k < 16 && 0 <= m < 4 && k != 4 ==> g[k, m] == old(g[k, m])
    {
      RowValues();
      g[4, 0], g[4, 1], g[4, 2], g[4, 3] := seed[0], seed[1], seed[2], seed[3];
    }

    /** Row i is row i - 1 shifted up one place, with the seed added when the top coefficient falls off. */
    static method NextRow(g: array2<int>, i: int, seed: seq<int>)
      requires g.Length0 == 16 && g.Length1 == 4 && 1 <= i < 16 && seed == [1, 1, 0, 0]
      requires RowIs(g, i, ZERO) && RowIs(g, i - 1, Row(i - 1))
      modifies g
      ensures RowIs(g, i, Row(i))
      ensures forall k, m :: 0 <= k < 16 && 0 <= m < 4 && k != i ==> g[k, m] == old(g[k, m])
    {
      g[i, 1], g[i, 2], g[i, 3] := g[i - 1, 0], g[i - 1, 1], g[i - 1, 2];
      if g[i - 1, 3] == 1 {
        for j := 0 to 4
          invariant forall k, m :: 0 <= k < 16 && 0 <= m < 4 && k != i ==> g[k, m] == old(g[k, m])
          invariant forall m :: 0 <= m < 4 ==> g[i, m] == (if m < j then (Shifted(Row(i - 1))[m] + seed[m]) % 2 else Shifted(Row(i - 1))[m])
        {
          g[i, j] := (g[i, j] + seed[j]) % 2;
        }
      }
    }

    /** The exponent of x: the first row equal to x, or 15 when none is. */
    method SearchElement(x: array<int>) returns (k: int)
      requires Valid() && x.Length == 4
      ensures k == Find(x[..])
    {
      k := 0;
      while k < 15 && !(x[0] == gf16[k, 0] && x[1] == gf16[k, 1] && x[2] == gf16[k, 2] && x[3] == gf16[k, 3])
        invariant 0 <= k <= 15
        invariant forall j :: 0 <= j < k ==> !RowIs(gf16, j, x[..])
      {
        k := k + 1;
      }
      SearchFound(gf16, k, x[..]);
    }

    /** The exponent of α^arg1 + α^arg2, 15 for zero; an argument outside 0 .. 14 counts as zero. */
    method AddGF(arg1: int, arg2: int) returns (r: int)
      requires Valid()
      ensures r == AddSpec(arg1, arg2)
    {
      ghost var va, vb := Vec(arg1), Vec(arg2);
      assert 0 <= arg1 < 15 ==> RowIs(gf16, arg1, va);
      assert 0 <= arg2 < 15 ==> RowIs(gf16, arg2, vb);
      var p := new int[4];
      for m := 0 to 4
        invariant forall j :: 0 <= j < m ==> p[j] == Xor(va[j], vb[j])
      {
        var w1 := if arg1 < 0 || arg1 >= 15 then 0 else gf16[arg1, m];
        var w2 := if arg2 < 0 || arg2 >= 15 then 0 else gf16[arg2, m];
        p[m] := (w1 + w2) % 2;
      }
      assert p[..] == Plus(va, vb);
      r := SearchElement(p);
    }

    /** `p[m] = (p[m] + gf16[r][m]) % 2` for every m: p becomes p + α^r. */
    method AddRowInto(p: array<int>, r: int)
      requires Valid() && p.Length == 4 && IsBits(p[..]) && 0 <= r < 15
      modifies p
      ensures p[..] == Plus(old(p[..]), Row(r))
    {
      for m := 0 to 4
        invariant forall j :: 0 <= j < 4 ==> p[j] == (if j < m then Xor(old(p[j]), Row(r)[j]) else old(p[j]))
      {
        p[m] := (p[m] + gf16[r, m]) % 2;
      }
      assert p[..] == Plus(old(p[..]), Row(r));
    }

    /** One syndrome: the exponent of the received word at α^mult, -1 when it is zero. */
    method SyndromeAt(y: array<bool>, mult: int) returns (sk: int)
      requires Valid() && y.Length >= 15
      ensures sk == LogOf(Find(SynSum(y[..], mult, 15)))
    {
      ghost var w := y[..];
      var p := new int[4](_ => 0);
      for k := 0 to 15
        invariant p[..] == SynSum(w, mult, k)
      {
        if y[k] {
          AddRowInto(p, (k * mult) % 15);
        }
      }
      var f := SearchElement(p);
      sk := if f >= 15 then -1 else f;
    }

    /**
     * The syndromes of y: the exponents of y(α), y(α³) and y(α⁵) in positions
     * 0, 2 and 4 (-1 for zero), and in positions 1 and 3 the doubled exponents
     * standing for y(α²) and y(α⁴).
     */
    method CalcSyndrome(y: array<bool>) returns (s: seq<int>)
      requires Valid() && y.Length >= 15
      ensures s == Syndromes(y[..])
      ensures s[1] == (if s[0] < 0 then -1 else (s[0] * 2) % 15)
      ensures s[3] == (if s[1] < 0 then -1 else (s[1] * 2) % 15)
    {
      var s0 := SyndromeAt(y, 1);
      var s1 := if s0 < 0 then -1 else (s0 * 2) % 15;
      var s2 := SyndromeAt(y, 3);
      var s3 := if s1 < 0 then -1 else (s1 * 2) % 15;
      var s4 := SyndromeAt(y, 5);
      s := [s0, s1, s2, s3, s4];
    }

    /** σ1, σ2 and σ3 of the error locator, from the syndromes. */
    method CalcErrorPositionVariable(s: seq<int>) returns (e: seq<int>)
      requires Valid() && |s| >= 5
      ensures e == Sigma(s)
    {
      var e1 := CalcSigma2(s);
      var e2 := CalcSigma3(s, e1);
      e := [s[0], e1, e2, 0];
    }

    /** The quotient child / mother of calcErrorPositionVariable, -1 when both vanish. */
    method CalcSigma2(s: seq<int>) returns (e1: int)
      requires Valid() && |s| >= 5
      ensures e1 == Sigma2(s)
    {
      var ta := Rem(s[0] + s[1], 15);
      var mother := AddGF(s[2], ta);
      mother := if mother >= 15 then -1 else mother;
      var tb := Rem(s[2] + s[1], 15);
      var child := AddGF(s[4], tb);
      child := if child >= 15 then -1 else child;
      e1 := if child < 0 && mother < 0 then -1 else Rem(child - mother + 15, 15);
      Sigma2Of(s, ta, mother, tb, child, e1);
    }

    /** The last locator coefficient of calcErrorPositionVariable. */
    method CalcSigma3(s: seq<int>, e1: int) returns (e2: int)
      requires Valid() && |s| >= 5
      ensures e2 == Sigma3(s, e1)
    {
      var tc := Rem(s[1] + s[0], 15);
      var t1 := AddGF(s[2], tc);
      var td := Rem(s[0] + e1, 15);
      e2 := AddGF(t1, td);
      Sigma3Of(s, tc, t1, td, e1, e2);
    }

    /** The value of the error locator at α^i, as the loop of detectErrorBitPosition computes it. */
    method EvalLocator(e: seq<int>, i: int) returns (anError: int)
      requires Valid() && |e| >= 3
      ensures anError == LocatorAt(e, i)
    {
      var x3 := (i * 3) % 15;
      var x2 := (i * 2) % 15;
      var x1 := i;
      var ta := Rem(e[0] + x2, 15);
      var tb := Rem(e[1] + x1, 15);
      assert ta == Rem(e[0] + (i * 2) % 15, 15) && tb == Rem(e[1] + i, 15);
      var t1 := AddGF(x3, ta);
      var t2 := AddGF(tb, e[2]);
      anError := AddGF(t1, t2);
      LocatorOf(e, i, ta, t1, tb, t2, anError);
    }

    /**
     * The error positions: a count in entry 0 and the positions after it.
     * None stands for the array-index exception raised when a fourth root
     * is written past the end of the four-entry array.
     */
    method DetectErrorBitPosition(s: seq<int>) returns (r: Option<seq<int>>)
      requires Valid() && |s| >= 5
      ensures r == Positions(Sigma(s))
    {
      var e := CalcErrorPositionVariable(s);
      r := LocateErrors(e);
    }

    /** detectErrorBitPosition once the locator is known: no error, one error, or the search for roots. */
    method LocateErrors(e: seq<int>) returns (r: Option<seq<int>>)
      requires Valid() && |e| >= 3
      ensures r == Positions(e)
    {
      var errorPos := new int[4](_ => 0);
      if e[0] == -1 {
        assert errorPos[..] == [0, 0, 0, 0];
        return Some(errorPos[..]);
      } else if e[1] == -1 {
        errorPos[0] := 1;
        errorPos[1] := e[0];
        assert errorPos[..] == [1, e[0], 0, 0];
        return Some(errorPos[..]);
      }
      r := ScanRoots(e, errorPos);
    }

    /** The loop of detectErrorBitPosition: every position is tried, and a fourth root overflows. */
    method ScanRoots(e: seq<int>, errorPos: array<int>) returns (r: Option<seq<int>>)
      requires Valid() && |e| >= 3 && errorPos[..] == [0, 0, 0, 0]
      modifies errorPos
      ensures r == Scan(e)
    {
      ghost var mask := RootMask(e);
      for i := 0 to 15
        invariant |Hits(mask, i)| <= 3 && errorPos[..] == Padded(Hits(mask, i))
      {
        var anError := EvalLocator(e, i);
        assert mask[i] == (anError >= 15);
        if anError >= 15 {
          var overflow := Record(errorPos, i, Hits(mask, i));
          if overflow {
            HitsGrow(mask, i + 1, 15);
            return None;
          }
        }
      }
      return Some(errorPos[..]);
    }

    /**
     * `errorPos[0]++; errorPos[errorPos[0]] = i`: appends position i, or
     * reports the overflow when three positions are already stored.
     */
    static method Record(errorPos: array<int>, i: int, ghost rs: seq<int>) returns (overflow: bool)
      requires |rs| <= 3 && errorPos[..] == Padded(rs)
      modifies errorPos
      ensures overflow <==> |rs| == 3
      ensures overflow ==> errorPos[..] == old(errorPos[..])
      ensures !overflow ==> errorPos[..] == Padded(rs + [i])
    {
      if errorPos[0] == 3 {
        return true;
      }
      PaddedPush(rs, i);
      errorPos[0] := errorPos[0] + 1;
      errorPos[errorPos[0]] := i;
      return false;
    }

    /** Flips y at errorPos[1 .. errorPos[0]] in place and records how many bits were flipped. */
    method CorrectErrorBit(y: array<bool>, errorPos: seq<int>) returns (r: array<bool>)
      requires InRange(errorPos, y.Length)
      modifies this, y
      ensures r == y && receiveData == old(receiveData)
      ensures y[..] == Flipped(old(y[..]), Listed(errorPos))
      ensures numCorrectedError == errorPos[0]
    {
      var i := 1;
      while i <= errorPos[0]
        modifies y
        invariant 1 <= i <= |errorPos| && (i <= errorPos[0] + 1 || i == 1)
        invariant y[..] == Flipped(old(y[..]), errorPos[1..i])
      {
        assert errorPos[1..i + 1][..i - 1] == errorPos[1..i];
        y[errorPos[i]] := !y[errorPos[i]];
        i := i + 1;
      }
      assert Listed(errorPos) == errorPos[1..i];
      numCorrectedError := errorPos[0];
      return y;
    }

    /**
     * Corrects the received word in place: syndromes, locator, positions,
     * flips.  None stands for the exception raised on a fourth root.
     */
    method Correct() returns (r: Option<array<bool>>)
      requires Valid() && receiveData.Length >= 15
      modifies this, receiveData
      ensures receiveData == old(receiveData)
      ensures r.None? <==> Repaired(old(receiveData[..])).None?
      ensures r.None? ==> receiveData[..] == old(receiveData[..]) && numCorrectedError == old(numCorrectedError)
      ensures r.Some? ==>
        r.value == receiveData && Repaired(old(receiveData[..])) == Some(receiveData[..]) &&
        numCorrectedError == Outcome(old(receiveData[..])).value[0]
    {
      ghost var w := receiveData[..];
      var s := CalcSyndrome(receiveData);
      var errorPos := DetectErrorBitPosition(s);
      assert errorPos == Outcome(w);
      OutcomeInRange(w);
      match errorPos {
        case None =>
          return None;
        case Some(ep) =>
          var y := CorrectErrorBit(receiveData, ep);
          return Some(y);
      }
    }

    /** The output bit and the feedback for step i: a message bit for i < 7, then the register's top stage. */
    static method Feed(input: int, i: int, w1: int) returns (yin: int, w2: int)
      ensures i < 7 ==> yin == InputBit(input, 6 - i) && w2 == Rem(yin + w1, 2)
      ensures i >= 7 ==> yin == w1 && w2 == 0
      ensures input >= 0 && (w1 == 0 || w1 == 1) ==> (yin == 0 || yin == 1) && (w2 == 0 || w2 == 1)
    {
      if i < 7 {
        yin := Rem(Shr(input, 6 - i), 2);
        w2 := Rem(yin + w1, 2);
        assert yin == InputBit(input, 6 - i);
      } else {
        yin := w1;
        w2 := 0;
      }
    }

    /** One clock of the shift register with feedback w2: taps at stages 0, 4, 6 and 7. */
    static method Clock(r: array<int>, w2: int)
      requires r.Length == 8
      modifies r
      ensures r[0] == w2 && r[1] == old(r[0]) && r[2] == old(r[1]) && r[3] == old(r[2])
      ensures r[4] == Rem(old(r[3]) + w2, 2) && r[5] == old(r[4])
      ensures r[6] == Rem(old(r[5]) + w2, 2) && r[7] == Rem(old(r[6]) + w2, 2)
      ensures (w2 == 0 || w2 == 1) && AllBits(old(r[..])) ==> AllBits(r[..])
    {
      r[7] := Rem(r[6] + w2, 2);
      r[6] := Rem(r[5] + w2, 2);
      r[5] := r[4];
      r[4] := Rem(r[3] + w2, 2);
      r[3] := r[2];
      r[2] := r[1];
      r[1] := r[0];
      r[0] := w2;
    }

    /**
     * The systematic BCH(15,7) code word of the seven low bits of input, bit
     * 6 - i of the input going to f[14 - i], the parity from the shift
     * register going to f[0 .. 8).
     */
    method GetCode(input: int) returns (f: seq<int>)
      ensures |f| == 15
      ensures forall k :: 8 <= k < 15 ==> f[k] == InputBit(input, k - 8)
      ensures input >= 0 ==> AllBits(f)
    {
      var fa := new int[15];
      var r := new int[8](_ => 0);
      for i := 0 to 15
        invariant forall k :: 15 - i <= k < 15 && 8 <= k ==> fa[k] == InputBit(input, k - 8)
        invariant input >= 0 ==> AllBits(r[..])
        invariant input >= 0 ==> AllBits(fa[15 - i..])
      {
        var w1 := r[7];
        assert input >= 0 ==> w1 == 0 || w1 == 1;
        var yin, w2 := Feed(input, i, w1);
        Clock(r, w2);
        ghost var tail := fa[15 - i..];
        fa[14 - i] := yin;
        assert fa[14 - i..] == [yin] + tail;
      }
      f := fa[..];
    }
  }

  function Shifted(r: seq<int>): seq<int>
    requires |r| == 4
  {
    [0, r[0], r[1], r[2]]
  }
}
