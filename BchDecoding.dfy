/**
 * The BCH(15,5) decoder of BchGf16 with the zero element handled as the
 * algebra requires (the "fixed" decoder), the proof that it corrects every
 * pattern of up to three flipped bits in a code word, the conditions under
 * which the decoder as written agrees with it, and three inputs on which it
 * does not.
 *
 * The decoder works on exponents: k stands for α^k, and -1 or 15 for zero.
 * The proof maps exponents to field elements through an exponent map ex
 * (IsExpMap) and does the algebra in FieldAlgebra; GF(16) with Ex(k) = α^k
 * supplies both (Gf16.GfIsField, ExIsExpMap).
 */
module BchDecoding {
  import opened Optional
  import opened JavaInt
  import opened BchGf16
  import opened FieldAlgebra
  import Gf16

  // ---------------------------------------------------------------------
  // The fixed decoder, on exponents
  // ---------------------------------------------------------------------

  /** The exponent of α^a·α^b: a + b modulo 15, and -1 (zero) when either factor is zero. */
  function MulExp(a: int, b: int): (r: int)
    ensures -1 <= r < 15
    ensures r == -1 <==> a < 0 || a >= 15 || b < 0 || b >= 15
  {
    if a < 0 || a >= 15 || b < 0 || b >= 15 then -1 else (a + b) % 15
  }

  /** The denominator of σ2, S3 + S1·S1², as an exponent (-1 for zero). */
  function Mother(s: seq<int>): int
    requires |s| >= 5
  {
    LogOf(AddSpec(s[2], MulExp(s[0], s[1])))
  }

  /** The numerator of σ2, S5 + S3·S1², as an exponent (-1 for zero). */
  function Child(s: seq<int>): int
    requires |s| >= 5
  {
    LogOf(AddSpec(s[4], MulExp(s[2], s[1])))
  }

  /** The exponent of child / mother for a non-zero mother; -1 when the child is zero. */
  function Quotient(child: int, mother: int): (r: int)
    requires 0 <= mother < 15 && -1 <= child < 15
    ensures -1 <= r < 15
    ensures MulExp(r, mother) == child
  {
    if child < 0 then -1 else (child - mother + 15) % 15
  }

  /** σ1, σ2, σ3 as exponents, for a non-zero denominator. */
  function FixedSigma(s: seq<int>): (e: seq<int>)
    requires |s| >= 5 && forall i :: 0 <= i < 5 ==> -1 <= s[i] < 15
    requires Mother(s) != -1
    ensures |e| == 3
  {
    var e1 := Quotient(Child(s), Mother(s));
    [s[0], e1, AddSpec(AddSpec(s[2], MulExp(s[1], s[0])), MulExp(s[0], e1))]
  }

  /** The exponent of (x³ + σ1·x²) + (σ2·x + σ3) at x = α^i, 15 for zero. */
  function FixedLocatorAt(e: seq<int>, i: int): (r: int)
    requires |e| >= 3
    ensures 0 <= r <= 15
  {
    AddSpec(AddSpec((i * 3) % 15, MulExp(e[0], (i * 2) % 15)), AddSpec(MulExp(e[1], i), e[2]))
  }

  /** Which of α^0 .. α^14 are roots of the locator e. */
  function FixedMask(e: seq<int>): (mask: seq<bool>)
    requires |e| >= 3
    ensures |mask| == 15 && forall i :: 0 <= i < 15 ==> mask[i] == (FixedLocatorAt(e, i) >= 15)
  {
    seq(15, i => FixedLocatorAt(e, i) >= 15)
  }

  /**
   * The positions found from the syndromes s: none when S1 and S3 are both
   * zero, the single position S1 when the denominator S3 + S1³ is zero, and
   * otherwise the roots of the locator; None on a fourth root.
   */
  function FixedPositions(s: seq<int>): (r: Option<seq<int>>)
    requires |s| >= 5 && forall i :: 0 <= i < 5 ==> -1 <= s[i] < 15
  {
    if s[0] == -1 && s[2] == -1 then Some([0, 0, 0, 0])
    else if Mother(s) == -1 then Some([1, s[0], 0, 0])
    else
      var rs := Hits(FixedMask(FixedSigma(s)), 15);
      if |rs| <= 3 then Some(Padded(rs)) else None
  }

  /** Every reported position is a bit of a 15-bit word. */
  lemma FixedPositionsValid(s: seq<int>)
    requires |s| >= 5 && forall i :: 0 <= i < 5 ==> -1 <= s[i] < 15
    ensures FixedPositions(s).Some? ==> InRange(FixedPositions(s).value, 15)
  {
    if !(s[0] == -1 && s[2] == -1) {
      if Mother(s) == -1 {
        SingleValid(s);
      } else {
        PaddedValid(Hits(FixedMask(FixedSigma(s)), 15));
      }
    }
  }

  /** A zero denominator with S1 zero needs S3 zero too, so the single position S1 is a bit. */
  lemma SingleValid(s: seq<int>)
    requires |s| >= 5 && forall i :: 0 <= i < 5 ==> -1 <= s[i] < 15
    requires !(s[0] == -1 && s[2] == -1) && Mother(s) == -1
    ensures 0 <= s[0] < 15
  {
    if s[0] == -1 {
      AddOutOfRange(s[2], MulExp(s[0], s[1]));
    }
  }

  /** Up to three positions below 15, reported with their count. */
  lemma PaddedValid(rs: seq<int>)
    requires |rs| <= 15 && forall j :: 0 <= j < |rs| ==> 0 <= rs[j] < 15
    ensures |rs| <= 3 ==> InRange(Padded(rs), 15)
  {
    if |rs| <= 3 {
      assert forall j :: 1 <= j <= |rs| ==> Padded(rs)[j] == rs[j - 1];
    }
  }

  /** The positions the fixed decoder finds in the received word y. */
  function FixedOutcome(y: seq<bool>): Option<seq<int>>
    requires |y| >= 15
  {
    FixedPositions(Syndromes(y))
  }

  /** The word the fixed decoder leaves behind: y with the reported positions flipped. */
  function FixedRepaired(y: seq<bool>): (z: Option<seq<bool>>)
    requires |y| >= 15
    ensures z.Some? <==> FixedOutcome(y).Some?
  {
    FixedPositionsValid(Syndromes(y));
    match FixedOutcome(y)
    case None => None
    case Some(ep) => Some(Flipped(y, Listed(ep)))
  }

  // ---------------------------------------------------------------------
  // Exponent arithmetic
  // ---------------------------------------------------------------------

  /** α^p, α^2p, α^3p and α^5p through MulExp. */
  lemma PowerExps(p: int)
    requires 0 <= p < 15
    ensures (p * 1) % 15 == p
    ensures MulExp(p, p) == (p * 2) % 15
    ensures MulExp(p, MulExp(p, p)) == (p * 3) % 15
    ensures MulExp(MulExp(p, p), MulExp(p, MulExp(p, p))) == (p * 5) % 15
  {
    ModSum(p, p * 2);
    ModSum(p * 2, p * 3);
  }

  /** Exponents can be reduced modulo 15 before they are added. */
  lemma ModSum(a: int, b: int)
    requires 0 <= a && 0 <= b
    ensures (a % 15 + b % 15) % 15 == (a + b) % 15
  {
  }

  /** Doubling an exponent as calcSyndrome does is squaring. */
  lemma DoubleIsSquare(a: int)
    requires -1 <= a < 15
    ensures (if a < 0 then -1 else (a * 2) % 15) == MulExp(a, a)
  {
  }

  /** Java's `(a + b) % 15` is MulExp on exponents of non-zero elements. */
  lemma RemIsMulExp(a: int, b: int)
    requires 0 <= a < 15 && 0 <= b < 15
    ensures Rem(a + b, 15) == MulExp(a, b)
  {
  }

  // ---------------------------------------------------------------------
  // Exponent maps
  // ---------------------------------------------------------------------

  ghost predicate SumAt(a: int, b: int) { true }
  ghost predicate ProductAt(a: int, b: int) { true }
  ghost predicate ZeroAt(a: int) { true }

  /**
   * ex maps exponents to the elements of f: 0 .. 14 one-to-one to non-zero
   * elements and every other exponent to zero, so that AddSpec (addGF) is
   * the field's addition and MulExp its multiplication.
   */
  ghost predicate IsExpMap<E(!new)>(f: Field<E>, ex: int -> E)
  {
    SumsMap(f, ex) && ProductsMap(f, ex) && ZeroMaps(f, ex)
  }

  /** addGF is the field's addition. */
  ghost predicate SumsMap<E(!new)>(f: Field<E>, ex: int -> E)
  {
    forall a: int, b: int {:trigger SumAt(a, b)} :: ex(AddSpec(a, b)) == f.add(ex(a), ex(b))
  }

  /** MulExp is the field's multiplication, and distinct exponents name distinct elements. */
  ghost predicate ProductsMap<E(!new)>(f: Field<E>, ex: int -> E)
  {
    forall a: int, b: int {:trigger ProductAt(a, b)} ::
      ex(MulExp(a, b)) == f.mul(ex(a), ex(b)) &&
      (0 <= a < 15 && 0 <= b < 15 && ex(a) == ex(b) ==> a == b)
  }

  /** Exactly the exponents outside 0 .. 14 name zero. */
  ghost predicate ZeroMaps<E(!new)>(f: Field<E>, ex: int -> E)
  {
    forall a: int {:trigger ZeroAt(a)} :: ex(a) == f.zero <==> a < 0 || a >= 15
  }

  lemma ExSum<E(!new)>(f: Field<E>, ex: int -> E, a: int, b: int)
    requires IsExpMap(f, ex)
    ensures ex(AddSpec(a, b)) == f.add(ex(a), ex(b))
  {
    assert SumAt(a, b);
  }

  lemma ExProduct<E(!new)>(f: Field<E>, ex: int -> E, a: int, b: int)
    requires IsExpMap(f, ex)
    ensures ex(MulExp(a, b)) == f.mul(ex(a), ex(b))
  {
    assert ProductAt(a, b);
  }

  lemma ExInjective<E(!new)>(f: Field<E>, ex: int -> E, a: int, b: int)
    requires IsExpMap(f, ex) && 0 <= a < 15 && 0 <= b < 15 && ex(a) == ex(b)
    ensures a == b
  {
    assert ProductAt(a, b);
  }

  lemma ExZero<E(!new)>(f: Field<E>, ex: int -> E, a: int)
    requires IsExpMap(f, ex)
    ensures ex(a) == f.zero <==> a < 0 || a >= 15
  {
    assert ZeroAt(a);
  }

  /** LogOf only renames zero. */
  lemma ExLogOf<E(!new)>(f: Field<E>, ex: int -> E, a: int)
    requires IsExpMap(f, ex)
    ensures ex(LogOf(a)) == ex(a)
  {
    ExZero(f, ex, a);
    ExZero(f, ex, LogOf(a));
  }

  /** The exponents 2p, 3p and 5p name the square, cube and fifth power of α^p. */
  lemma ExPowers<E(!new)>(f: Field<E>, ex: int -> E, p: int)
    requires IsField(f) && IsExpMap(f, ex) && 0 <= p < 15
    ensures ex((p * 1) % 15) == ex(p)
    ensures ex((p * 2) % 15) == Sq(f, ex(p))
    ensures ex((p * 3) % 15) == Cube(f, ex(p))
    ensures ex((p * 5) % 15) == Fifth(f, ex(p))
  {
    PowerExps(p);
    ExProduct(f, ex, p, p);
    ExProduct(f, ex, p, MulExp(p, p));
    ExProduct(f, ex, MulExp(p, p), MulExp(p, MulExp(p, p)));
  }

  lemma ZeroPowers<E(!new)>(f: Field<E>)
    requires IsField(f)
    ensures Sq(f, f.zero) == f.zero && Cube(f, f.zero) == f.zero && Fifth(f, f.zero) == f.zero
  {
    MulZero(f, f.zero);
  }

  // ---------------------------------------------------------------------
  // The syndromes of a code word with flipped bits
  // ---------------------------------------------------------------------

  /** Up to three error positions, in increasing order, each a bit of a 15-bit word. */
  predicate Errors(ps: seq<int>)
  {
    |ps| <= 3 && (forall j :: 0 <= j < |ps| ==> 0 <= ps[j] < 15) &&
    (forall j, k :: 0 <= j < k < |ps| ==> ps[j] < ps[k])
  }

  /** The exponent of α^(ps[0]·k) + … + α^(ps[n-1]·k), added in order from zero (15). */
  function Accum(ps: seq<int>, k: int, n: nat): (r: int)
    requires n <= |ps|
    ensures 0 <= r <= 15
  {
    if n == 0 then 15 else AddSpec(Accum(ps, k, n - 1), (ps[n - 1] * k) % 15)
  }

  /** Adding row j to a vector adds α^j to its exponent. */
  lemma FindPlusRow(v: seq<int>, j: int)
    requires IsBits(v) && 0 <= j < 15
    ensures Find(Plus(v, Row(j))) == AddSpec(Find(v), j)
  {
    FindSpec(v);
    FindZero(v);
  }

  /** Accum over the first n positions depends on those positions only. */
  lemma {:induction false} AccumAgree(ps: seq<int>, qs: seq<int>, k: int, n: nat)
    requires n <= |ps| && n <= |qs| && forall j :: 0 <= j < n ==> ps[j] == qs[j]
    ensures Accum(ps, k, n) == Accum(qs, k, n)
  {
    if n > 0 {
      AccumAgree(ps, qs, k, n - 1);
    }
  }

  /** Flipping the bits ps of a word whose sum at α^k is zero makes that sum Accum(ps, k, |ps|). */
  lemma {:induction false} FlipSum(c: seq<bool>, ps: seq<int>, k: int)
    requires |c| >= 15 && SynSum(c, k, 15) == ZERO
    requires forall j :: 0 <= j < |ps| ==> 0 <= ps[j] < 15
    ensures Find(SynSum(Flipped(c, ps), k, 15)) == Accum(ps, k, |ps|)
  {
    if |ps| == 0 {
      FindZero(ZERO);
    } else {
      var n := |ps| - 1;
      FlipSum(c, ps[..n], k);
      AccumAgree(ps[..n], ps, k, n);
      var z := Flipped(c, ps[..n]);
      SynSumFlip(z, k, 15, ps[n]);
      FindPlusRow(SynSum(z, k, 15), (ps[n] * k) % 15);
    }
  }

  /** One syndrome of a code word with the bits ps flipped. */
  lemma FlipSyndrome(c: seq<bool>, ps: seq<int>, k: int)
    requires IsCodeword(c) && forall j :: 0 <= j < |ps| ==> 0 <= ps[j] < 15
    requires k == 1 || k == 3 || k == 5
    ensures Syndromes(Flipped(c, ps))[k - 1] == LogOf(Accum(ps, k, |ps|))
  {
    FlipSum(c, ps, k);
  }

  /** The syndromes of a code word with the bits ps flipped. */
  lemma FlipSyndromes(c: seq<bool>, ps: seq<int>)
    requires IsCodeword(c) && forall j :: 0 <= j < |ps| ==> 0 <= ps[j] < 15
    ensures var s := Syndromes(Flipped(c, ps));
      s[0] == LogOf(Accum(ps, 1, |ps|)) && s[1] == MulExp(s[0], s[0]) &&
      s[2] == LogOf(Accum(ps, 3, |ps|)) && s[4] == LogOf(Accum(ps, 5, |ps|))
  {
    var y := Flipped(c, ps);
    var s := Syndromes(y);
    FlipSyndrome(c, ps, 1);
    FlipSyndrome(c, ps, 3);
    FlipSyndrome(c, ps, 5);
    DoubleIsSquare(s[0]);
  }

  /** The locator of error j, and zero for a missing error. */
  function ErrorAt<E>(f: Field<E>, ex: int -> E, ps: seq<int>, j: nat): E
  {
    if j < |ps| then ex(ps[j]) else f.zero
  }

  /** The element named by Accum is the sum u + v + w of the terms, zero standing in for missing ones. */
  lemma AccumSum<E(!new)>(f: Field<E>, ex: int -> E, ps: seq<int>, k: int, u: E, v: E, w: E)
    requires IsField(f) && IsExpMap(f, ex) && |ps| <= 3
    requires u == (if |ps| > 0 then ex((ps[0] * k) % 15) else f.zero)
    requires v == (if |ps| > 1 then ex((ps[1] * k) % 15) else f.zero)
    requires w == (if |ps| > 2 then ex((ps[2] * k) % 15) else f.zero)
    ensures ex(LogOf(Accum(ps, k, |ps|))) == Sum3(f, u, v, w)
  {
    ExLogOf(f, ex, Accum(ps, k, |ps|));
    ExZero(f, ex, 15);
    AddZero(f, f.zero);
    if |ps| == 0 {
    } else {
      AccumAt(f, ex, ps, k, 1);
      AddZero(f, u);
      if |ps| == 1 {
      } else {
        AccumAt(f, ex, ps, k, 2);
        AddZero(f, v);
        if |ps| == 3 {
          AccumAt(f, ex, ps, k, 3);
          AddAssoc(f, u, v, w);
        }
      }
    }
  }

  /** One step of Accum adds one term. */
  lemma AccumAt<E(!new)>(f: Field<E>, ex: int -> E, ps: seq<int>, k: int, n: nat)
    requires IsExpMap(f, ex) && 0 < n <= |ps|
    ensures ex(Accum(ps, k, n)) == f.add(ex(Accum(ps, k, n - 1)), ex((ps[n - 1] * k) % 15))
  {
    ExSum(f, ex, Accum(ps, k, n - 1), (ps[n - 1] * k) % 15);
  }

  /** The power sum in the syndrome at α^k, for the three multipliers the decoder uses. */
  lemma PowerSum<E(!new)>(f: Field<E>, ex: int -> E, ps: seq<int>, k: int, pow: E -> E)
    requires IsField(f) && IsExpMap(f, ex) && Errors(ps)
    requires k == 1 || k == 3 || k == 5
    requires forall a :: pow(a) == if k == 1 then a else if k == 3 then Cube(f, a) else Fifth(f, a)
    ensures ex(LogOf(Accum(ps, k, |ps|))) ==
            Sum3(f, pow(ErrorAt(f, ex, ps, 0)), pow(ErrorAt(f, ex, ps, 1)), pow(ErrorAt(f, ex, ps, 2)))
  {
    ZeroPowers(f);
    forall j | 0 <= j < |ps|
      ensures ex((ps[j] * k) % 15) == pow(ex(ps[j]))
    {
      ExPowers(f, ex, ps[j]);
    }
    AccumSum(f, ex, ps, k, pow(ErrorAt(f, ex, ps, 0)), pow(ErrorAt(f, ex, ps, 1)), pow(ErrorAt(f, ex, ps, 2)));
  }

  /** The syndromes of a code word with errors ps, as field elements: S1 = σ1, S1², S3 and S5. */
  lemma SyndromeValues<E(!new)>(f: Field<E>, ex: int -> E, c: seq<bool>, ps: seq<int>)
    requires IsField(f) && IsExpMap(f, ex) && IsCodeword(c) && Errors(ps)
    ensures var s := Syndromes(Flipped(c, ps));
      var x, y, z := ErrorAt(f, ex, ps, 0), ErrorAt(f, ex, ps, 1), ErrorAt(f, ex, ps, 2);
      ex(s[0]) == E1(f, x, y, z) && s[1] == MulExp(s[0], s[0]) &&
      ex(s[2]) == S3(f, x, y, z) && ex(s[4]) == S5(f, x, y, z)
  {
    FlipSyndromes(c, ps);
    PowerSum(f, ex, ps, 1, a => a);
    PowerSum(f, ex, ps, 3, a => Cube(f, a));
    PowerSum(f, ex, ps, 5, a => Fifth(f, a));
  }

  // ---------------------------------------------------------------------
  // The fixed decoder is correct
  // ---------------------------------------------------------------------

  /** Syndromes S1 = S3 = 0: no errors. */
  lemma DecodeNone<E(!new)>(f: Field<E>, ex: int -> E, s: seq<int>)
    requires IsField(f) && IsExpMap(f, ex)
    requires |s| >= 5 && forall i :: 0 <= i < 5 ==> -1 <= s[i] < 15
    requires ex(s[0]) == f.zero && ex(s[2]) == f.zero
    ensures FixedPositions(s) == Some([0, 0, 0, 0])
  {
    ExZero(f, ex, s[0]);
    ExZero(f, ex, s[2]);
  }

  /** Syndromes S1 = x ≠ 0 with S3 = x³: a single error at the exponent of x. */
  lemma DecodeOne<E(!new)>(f: Field<E>, ex: int -> E, s: seq<int>, x: E)
    requires IsField(f) && IsExpMap(f, ex)
    requires |s| >= 5 && forall i :: 0 <= i < 5 ==> -1 <= s[i] < 15
    requires x != f.zero && ex(s[0]) == x && s[1] == MulExp(s[0], s[0]) && ex(s[2]) == Cube(f, x)
    ensures FixedPositions(s) == Some([1, s[0], 0, 0])
  {
    ExZero(f, ex, s[0]);
    ExProduct(f, ex, s[0], s[0]);
    ExProduct(f, ex, s[0], s[1]);
    ExSum(f, ex, s[2], MulExp(s[0], s[1]));
    FieldAlgebra.AddSelf(f, Cube(f, x));
    ExZero(f, ex, AddSpec(s[2], MulExp(s[0], s[1])));
  }

  /** Two distinct non-zero locators x, y and a third z distinct from both (possibly zero). */
  ghost predicate Distinct<E>(f: Field<E>, x: E, y: E, z: E)
  {
    x != f.zero && y != f.zero && x != y && z != x && z != y
  }

  /** For two or three errors the denominator (y + z)(x + z)(x + y) is not zero. */
  lemma MotherNonzero<E(!new)>(f: Field<E>, x: E, y: E, z: E)
    requires IsField(f) && Distinct(f, x, y, z)
    ensures f.add(S3(f, x, y, z), Cube(f, E1(f, x, y, z))) != f.zero
  {
    Denominator(f, x, y, z);
    SumZero(f, y, z);
    SumZero(f, x, z);
    SumZero(f, x, y);
    Domain(f, f.add(y, z), f.mul(f.add(x, z), f.add(x, y)));
    Domain(f, f.add(x, z), f.add(x, y));
  }

  /**
   * With two or three errors, the fixed σ1, σ2, σ3 are the elementary
   * symmetric functions of the locators, and the denominator is not zero.
   */
  lemma SigmaValues<E(!new)>(f: Field<E>, ex: int -> E, s: seq<int>, x: E, y: E, z: E)
    requires IsField(f) && IsExpMap(f, ex) && Distinct(f, x, y, z)
    requires |s| >= 5 && forall i :: 0 <= i < 5 ==> -1 <= s[i] < 15
    requires ex(s[0]) == E1(f, x, y, z) && s[1] == MulExp(s[0], s[0])
    requires ex(s[2]) == S3(f, x, y, z) && ex(s[4]) == S5(f, x, y, z)
    ensures 0 <= Mother(s) < 15
    ensures var e := FixedSigma(s);
      ex(e[0]) == E1(f, x, y, z) && ex(e[1]) == E2(f, x, y, z) && ex(e[2]) == E3(f, x, y, z)
  {
    var e1, e2, e3 := E1(f, x, y, z), E2(f, x, y, z), E3(f, x, y, z);
    var m := f.add(S3(f, x, y, z), Cube(f, e1));
    // the denominator
    ExProduct(f, ex, s[0], s[0]);
    ExProduct(f, ex, s[0], s[1]);
    ExSum(f, ex, s[2], MulExp(s[0], s[1]));
    MotherNonzero(f, x, y, z);
    ExZero(f, ex, AddSpec(s[2], MulExp(s[0], s[1])));
    var mo := Mother(s);
    assert ex(mo) == m;
    // the numerator is σ2 times the denominator
    ExProduct(f, ex, s[2], s[1]);
    ExSum(f, ex, s[4], MulExp(s[2], s[1]));
    ExLogOf(f, ex, AddSpec(s[4], MulExp(s[2], s[1])));
    Numerator(f, x, y, z);
    Denominator(f, x, y, z);
    var ch := Child(s);
    assert ex(ch) == f.mul(e2, m);
    // so the quotient is σ2
    var q := Quotient(ch, mo);
    ExProduct(f, ex, q, mo);
    MulComm(f, e2, m);
    Cancel(f, ex(q), e2, m);
    // and σ3 = (S3 + S1²·S1) + S1·σ2
    ExProduct(f, ex, s[1], s[0]);
    ExProduct(f, ex, s[0], q);
    ExSum(f, ex, s[2], MulExp(s[1], s[0]));
    ExSum(f, ex, AddSpec(s[2], MulExp(s[1], s[0])), MulExp(s[0], q));
    ThirdCoefficient(f, x, y, z);
  }

  /** With the locator's coefficients σ1, σ2, σ3 of x, y, z, α^i is a root exactly when it is one of them. */
  lemma RootAt<E(!new)>(f: Field<E>, ex: int -> E, e: seq<int>, i: int, x: E, y: E, z: E)
    requires IsField(f) && IsExpMap(f, ex) && |e| >= 3 && 0 <= i < 15
    requires ex(e[0]) == E1(f, x, y, z) && ex(e[1]) == E2(f, x, y, z) && ex(e[2]) == E3(f, x, y, z)
    ensures FixedLocatorAt(e, i) >= 15 <==> ex(i) == x || ex(i) == y || ex(i) == z
  {
    var t := ex(i);
    ExPowers(f, ex, i);
    PowerExps(i);
    ExProduct(f, ex, e[0], (i * 2) % 15);
    ExProduct(f, ex, e[1], i);
    ExSum(f, ex, (i * 3) % 15, MulExp(e[0], (i * 2) % 15));
    ExSum(f, ex, MulExp(e[1], i), e[2]);
    ExSum(f, ex, AddSpec((i * 3) % 15, MulExp(e[0], (i * 2) % 15)), AddSpec(MulExp(e[1], i), e[2]));
    MulComm(f, t, E2(f, x, y, z));
    LocatorZero(f, t, x, y, z);
    ExZero(f, ex, FixedLocatorAt(e, i));
  }

  /** Dropping the last element of an increasing sequence drops exactly the elements not below it. */
  lemma DropLast(a: seq<int>)
    requires |a| > 0 && forall j, k :: 0 <= j < k < |a| ==> a[j] < a[k]
    ensures forall v :: v in a[..|a| - 1] <==> v in a && v < a[|a| - 1]
  {
    forall v | v in a && v < a[|a| - 1]
      ensures v in a[..|a| - 1]
    {
      var j :| 0 <= j < |a| && a[j] == v;
      assert a[..|a| - 1][j] == v;
    }
  }

  /** A sequence whose elements all occur in b leaves b non-empty if it is. */
  lemma NonEmpty(a: seq<int>, b: seq<int>)
    requires forall v :: v in a ==> v in b
    ensures |a| > 0 ==> |b| > 0
  {
    if |a| > 0 {
      var v := a[0];
      assert v in a;
      assert v in b;
    }
  }

  /** Two increasing sequences with the same elements are equal. */
  lemma {:induction false} IncreasingUnique(a: seq<int>, b: seq<int>)
    requires forall j, k :: 0 <= j < k < |a| ==> a[j] < a[k]
    requires forall j, k :: 0 <= j < k < |b| ==> b[j] < b[k]
    requires forall v :: v in a <==> v in b
    ensures a == b
    decreases |a| + |b|
  {
    NonEmpty(a, b);
    NonEmpty(b, a);
    if |a| == 0 || |b| == 0 {
    } else {
      var la, lb := a[|a| - 1], b[|b| - 1];
      assert la in a && lb in b;
      var j :| 0 <= j < |b| && b[j] == la;
      var k :| 0 <= k < |a| && a[k] == lb;
      var a', b' := a[..|a| - 1], b[..|b| - 1];
      DropLast(a);
      DropLast(b);
      assert la == lb;
      forall v
        ensures v in a' <==> v in b'
      {
        assert v in a' <==> v in a && v < la;
        assert v in b' <==> v in b && v < lb;
      }
      IncreasingUnique(a', b');
      assert a == a' + [la];
      assert b == b' + [lb];
    }
  }

  /** Trying all fifteen positions finds exactly the error positions, in order. */
  lemma HitsAreErrors(mask: seq<bool>, ps: seq<int>)
    requires |mask| == 15 && Errors(ps)
    requires forall i :: 0 <= i < 15 ==> (mask[i] <==> i in ps)
    ensures Hits(mask, 15) == ps
  {
    var rs := Hits(mask, 15);
    HitsExact(mask, 15);
    forall v
      ensures v in rs <==> v in ps
    {
      if v in rs || v in ps {
        assert 0 <= v < 15;
      }
    }
    IncreasingUnique(rs, ps);
  }

  /** Two or three errors: the roots of the fixed locator are exactly the error positions. */
  lemma DecodeSeveral<E(!new)>(f: Field<E>, ex: int -> E, s: seq<int>, ps: seq<int>)
    requires IsField(f) && IsExpMap(f, ex) && Errors(ps) && |ps| >= 2
    requires |s| >= 5 && forall i :: 0 <= i < 5 ==> -1 <= s[i] < 15
    requires var x, y, z := ErrorAt(f, ex, ps, 0), ErrorAt(f, ex, ps, 1), ErrorAt(f, ex, ps, 2);
      ex(s[0]) == E1(f, x, y, z) && s[1] == MulExp(s[0], s[0]) &&
      ex(s[2]) == S3(f, x, y, z) && ex(s[4]) == S5(f, x, y, z)
    ensures 0 <= Mother(s) < 15
    ensures FixedPositions(s) == Some(Padded(ps))
  {
    var x, y, z := ErrorAt(f, ex, ps, 0), ErrorAt(f, ex, ps, 1), ErrorAt(f, ex, ps, 2);
    ExZero(f, ex, ps[0]);
    ExZero(f, ex, ps[1]);
    if x == y {
      ExInjective(f, ex, ps[0], ps[1]);
    }
    if |ps| == 3 {
      ExZero(f, ex, ps[2]);
      if z == x {
        ExInjective(f, ex, ps[2], ps[0]);
      }
      if z == y {
        ExInjective(f, ex, ps[2], ps[1]);
      }
    }
    SigmaValues(f, ex, s, x, y, z);
    NotSilent(f, ex, s, x, y, z);
    var e := FixedSigma(s);
    RootsAreErrors(f, ex, e, ps);
    HitsAreErrors(FixedMask(e), ps);
  }

  /** With two or three errors S1 and S3 are not both zero: the denominator S3 + S1³ would be. */
  lemma NotSilent<E(!new)>(f: Field<E>, ex: int -> E, s: seq<int>, x: E, y: E, z: E)
    requires IsField(f) && IsExpMap(f, ex) && Distinct(f, x, y, z)
    requires |s| >= 5 && ex(s[0]) == E1(f, x, y, z) && ex(s[2]) == S3(f, x, y, z)
    ensures s[0] != -1 || s[2] != -1
  {
    if s[0] == -1 && s[2] == -1 {
      ExZero(f, ex, -1);
      ZeroPowers(f);
      AddZero(f, f.zero);
      MotherNonzero(f, x, y, z);
      assert false;
    }
  }

  /** When σ1, σ2, σ3 belong to the error locators, the roots of the locator are the error positions. */
  lemma RootsAreErrors<E(!new)>(f: Field<E>, ex: int -> E, e: seq<int>, ps: seq<int>)
    requires IsField(f) && IsExpMap(f, ex) && Errors(ps) && |e| >= 3
    requires var x, y, z := ErrorAt(f, ex, ps, 0), ErrorAt(f, ex, ps, 1), ErrorAt(f, ex, ps, 2);
      ex(e[0]) == E1(f, x, y, z) && ex(e[1]) == E2(f, x, y, z) && ex(e[2]) == E3(f, x, y, z)
    requires ErrorAt(f, ex, ps, 0) != f.zero
    ensures forall i :: 0 <= i < 15 ==> (FixedMask(e)[i] <==> i in ps)
  {
    forall i | 0 <= i < 15
      ensures FixedMask(e)[i] <==> i in ps
    {
      RootIsError(f, ex, e, ps, i);
    }
  }

  /** α^i is a root of the locator exactly when i is an error position. */
  lemma RootIsError<E(!new)>(f: Field<E>, ex: int -> E, e: seq<int>, ps: seq<int>, i: int)
    requires IsField(f) && IsExpMap(f, ex) && Errors(ps) && |e| >= 3 && 0 <= i < 15
    requires var x, y, z := ErrorAt(f, ex, ps, 0), ErrorAt(f, ex, ps, 1), ErrorAt(f, ex, ps, 2);
      ex(e[0]) == E1(f, x, y, z) && ex(e[1]) == E2(f, x, y, z) && ex(e[2]) == E3(f, x, y, z)
    requires ErrorAt(f, ex, ps, 0) != f.zero
    ensures FixedMask(e)[i] <==> i in ps
  {
    var x, y, z := ErrorAt(f, ex, ps, 0), ErrorAt(f, ex, ps, 1), ErrorAt(f, ex, ps, 2);
    RootAt(f, ex, e, i, x, y, z);
    ExZero(f, ex, i);
    forall j | 0 <= j < |ps|
      ensures ex(i) == ex(ps[j]) <==> i == ps[j]
    {
      if ex(i) == ex(ps[j]) {
        ExInjective(f, ex, i, ps[j]);
      }
    }
  }

  /** The fixed decoder finds every set of up to three errors in a code word. */
  lemma Decodes<E(!new)>(f: Field<E>, ex: int -> E, c: seq<bool>, ps: seq<int>)
    requires IsField(f) && IsExpMap(f, ex) && IsCodeword(c) && Errors(ps)
    ensures FixedOutcome(Flipped(c, ps)) == Some(Padded(ps))
    ensures |ps| >= 2 ==> 0 <= Mother(Syndromes(Flipped(c, ps))) < 15
  {
    var s := Syndromes(Flipped(c, ps));
    SyndromeValues(f, ex, c, ps);
    if |ps| <= 1 {
      DecodeFew(f, ex, s, ps);
    } else {
      DecodeSeveral(f, ex, s, ps);
    }
  }

  /** No error or one error: the syndromes of no error, or of a single error. */
  lemma DecodeFew<E(!new)>(f: Field<E>, ex: int -> E, s: seq<int>, ps: seq<int>)
    requires IsField(f) && IsExpMap(f, ex) && Errors(ps) && |ps| <= 1
    requires |s| >= 5 && forall i :: 0 <= i < 5 ==> -1 <= s[i] < 15
    requires var x, y, z := ErrorAt(f, ex, ps, 0), ErrorAt(f, ex, ps, 1), ErrorAt(f, ex, ps, 2);
      ex(s[0]) == E1(f, x, y, z) && s[1] == MulExp(s[0], s[0]) &&
      ex(s[2]) == S3(f, x, y, z)
    ensures FixedPositions(s) == Some(Padded(ps))
  {
    if |ps| == 0 {
      DecodeFewNone(f, ex, s, ps);
    } else {
      DecodeFewOne(f, ex, s, ps);
    }
  }

  lemma DecodeFewNone<E(!new)>(f: Field<E>, ex: int -> E, s: seq<int>, ps: seq<int>)
    requires IsField(f) && IsExpMap(f, ex) && Errors(ps) && |ps| == 0
    requires |s| >= 5 && forall i :: 0 <= i < 5 ==> -1 <= s[i] < 15
    requires var x, y, z := ErrorAt(f, ex, ps, 0), ErrorAt(f, ex, ps, 1), ErrorAt(f, ex, ps, 2);
      ex(s[0]) == E1(f, x, y, z) && s[1] == MulExp(s[0], s[0]) &&
      ex(s[2]) == S3(f, x, y, z)
    ensures FixedPositions(s) == Some(Padded(ps))
  {
    ZeroPowers(f);
    AddZero(f, f.zero);
    DecodeNone(f, ex, s);
    assert Padded(ps) == [0, 0, 0, 0];
  }

  lemma DecodeFewOne<E(!new)>(f: Field<E>, ex: int -> E, s: seq<int>, ps: seq<int>)
    requires IsField(f) && IsExpMap(f, ex) && Errors(ps) && |ps| == 1
    requires |s| >= 5 && forall i :: 0 <= i < 5 ==> -1 <= s[i] < 15
    requires var x, y, z := ErrorAt(f, ex, ps, 0), ErrorAt(f, ex, ps, 1), ErrorAt(f, ex, ps, 2);
      ex(s[0]) == E1(f, x, y, z) && s[1] == MulExp(s[0], s[0]) &&
      ex(s[2]) == S3(f, x, y, z)
    ensures FixedPositions(s) == Some(Padded(ps))
  {
    ZeroPowers(f);
    AddZero(f, f.zero);
    var x := ex(ps[0]);
    AddZero(f, x);
    AddZero(f, Cube(f, x));
    DecodeSingle(f, ex, s, ps[0]);
    PaddedOne(ps);
  }

  /** One error at p: S1 = α^p, S3 = S1³, and the decoder reports p. */
  lemma DecodeSingle<E(!new)>(f: Field<E>, ex: int -> E, s: seq<int>, p: int)
    requires IsField(f) && IsExpMap(f, ex) && 0 <= p < 15
    requires |s| >= 5 && forall i :: 0 <= i < 5 ==> -1 <= s[i] < 15
    requires ex(s[0]) == ex(p) && s[1] == MulExp(s[0], s[0]) && ex(s[2]) == Cube(f, ex(p))
    ensures FixedPositions(s) == Some([1, p, 0, 0])
  {
    ExZero(f, ex, p);
    DecodeOne(f, ex, s, ex(p));
    ExZero(f, ex, s[0]);
    ExInjective(f, ex, s[0], p);
  }

  /** Flipping the same distinct positions twice restores the word. */
  lemma FlipTwice(c: seq<bool>, ps: seq<int>)
    requires forall j :: 0 <= j < |ps| ==> 0 <= ps[j] < |c|
    requires forall j, k :: 0 <= j < k < |ps| ==> ps[j] != ps[k]
    ensures Flipped(Flipped(c, ps), ps) == c
  {
    FlipExactly(c, ps);
    FlipExactly(Flipped(c, ps), ps);
  }

  /** The positions listed in a padded report are the reported ones. */
  lemma ListedPadded(ps: seq<int>)
    requires |ps| <= 3
    ensures Listed(Padded(ps)) == ps
  {
  }

  // ---------------------------------------------------------------------
  // GF(16) is an instance
  // ---------------------------------------------------------------------

  /** α^k for an exponent 0 .. 14, and zero for any other. */
  function Ex(k: int): (r: Gf16.Elem)
    ensures r == 0 <==> k < 0 || k >= 15
  {
    if 0 <= k < 15 then Gf16.Exp(k) else 0
  }

  /** The 4-bit code of a vector of coefficients: bit m is the coefficient of α^m. */
  function CodeOf(v: seq<int>): (r: Gf16.Elem)
    requires IsBits(v)
    ensures r == 0 <==> v == ZERO
  {
    assert v == [v[0], v[1], v[2], v[3]];
    (if v[0] == 1 then 1 else 0) | (if v[1] == 1 then 2 else 0) |
    (if v[2] == 1 then 4 else 0) | (if v[3] == 1 then 8 else 0)
  }

  /** The coefficient-wise sum is `^` on codes. */
  lemma CodePlus(a: seq<int>, b: seq<int>)
    requires IsBits(a) && IsBits(b)
    ensures CodeOf(Plus(a, b)) == CodeOf(a) ^ CodeOf(b)
  {
  }

  /** Succ is multiplication by α on codes. */
  lemma CodeSucc(r: seq<int>)
    requires IsBits(r)
    ensures CodeOf(Succ(r)) == Gf16.Times(CodeOf(r))
  {
  }

  /** Row k of the table is α^k. */
  lemma {:induction false} CodeRow(k: nat)
    ensures CodeOf(Row(k)) == Gf16.Exp(k)
  {
    if k > 0 {
      CodeRow(k - 1);
      CodeSucc(Row(k - 1));
    }
  }

  lemma CodeVec(a: int)
    ensures CodeOf(Vec(a)) == Ex(a)
  {
    if 0 <= a < 15 {
      CodeRow(a);
    }
  }

  lemma ExFind(v: seq<int>)
    requires IsBits(v)
    ensures Ex(Find(v)) == CodeOf(v)
  {
    FindZero(v);
    FindSpec(v);
    if Find(v) < 15 {
      CodeRow(Find(v));
    }
  }

  /** addGF is addition of GF(16). */
  lemma ExAddSpec(a: int, b: int)
    ensures Ex(AddSpec(a, b)) == Gf16.Add(Ex(a), Ex(b))
  {
    ExFind(Plus(Vec(a), Vec(b)));
    CodePlus(Vec(a), Vec(b));
    CodeVec(a);
    CodeVec(b);
  }

  /** MulExp is multiplication of GF(16). */
  lemma ExMulExp(a: int, b: int)
    ensures Ex(MulExp(a, b)) == Gf16.Product(Ex(a), Ex(b))
  {
    Gf16.MulDomain(Ex(a), Ex(b));
    if 0 <= a < 15 && 0 <= b < 15 {
      Gf16.ExpMul(a, b);
      Gf16.ExpPeriod(a + b);
    }
  }

  lemma ExSumsMap()
    ensures SumsMap(Gf16.GF(), Ex)
  {
    forall a: int, b: int
      ensures Ex(AddSpec(a, b)) == Gf16.Add(Ex(a), Ex(b))
    {
      ExAddSpec(a, b);
    }
  }

  lemma ExProductsMap()
    ensures ProductsMap(Gf16.GF(), Ex)
  {
    forall a: int, b: int
      ensures Ex(MulExp(a, b)) == Gf16.Product(Ex(a), Ex(b))
    {
      ExMulExp(a, b);
    }
    forall a: int, b: int | 0 <= a < 15 && 0 <= b < 15 && Ex(a) == Ex(b)
      ensures a == b
    {
      Gf16.ExpInjective(a, b);
    }
  }

  lemma ExZeroMaps()
    ensures ZeroMaps(Gf16.GF(), Ex)
  {
    forall a: int
      ensures Ex(a) == 0 <==> a < 0 || a >= 15
    {
    }
  }

  lemma ExIsExpMap()
    ensures IsExpMap(Gf16.GF(), Ex)
  {
    ExSumsMap();
    ExProductsMap();
    ExZeroMaps();
  }

  /**
   * The fixed decoder corrects every pattern of up to three flipped bits in
   * a code word: it reports exactly the flipped positions and restores the
   * code word.
   */
  lemma FixedCorrects(c: seq<bool>, ps: seq<int>)
    requires IsCodeword(c) && Errors(ps)
    ensures FixedOutcome(Flipped(c, ps)) == Some(Padded(ps))
    ensures FixedRepaired(Flipped(c, ps)) == Some(c)
    ensures |ps| >= 2 ==> 0 <= Mother(Syndromes(Flipped(c, ps))) < 15
  {
    Gf16.GfIsField();
    ExIsExpMap();
    Decodes(Gf16.GF(), Ex, c, ps);
    ListedPadded(ps);
    FlipTwice(c, ps);
  }

  // ---------------------------------------------------------------------
  // The decoder as written
  // ---------------------------------------------------------------------

  /** addGF evaluated through the codes of GF(16): α^a + α^b is α^r (zero for r = 15). */
  lemma AddSpecIs(a: int, b: int, r: int)
    requires 0 <= r <= 15 && Ex(r) == Gf16.Add(Ex(a), Ex(b))
    ensures AddSpec(a, b) == r
  {
    ExAddSpec(a, b);
    var q := AddSpec(a, b);
    if q < 15 && r < 15 {
      Gf16.ExpInjective(q, r);
    }
  }

  /** With S1, S1², S3 and the numerator and denominator of σ2 non-zero, σ2 and σ3 as written are the fixed ones. */
  lemma WrittenSigma(s: seq<int>)
    requires |s| >= 5 && forall i :: 0 <= i < 5 ==> -1 <= s[i] < 15
    requires s[0] >= 0 && s[1] >= 0 && s[2] >= 0 && Mother(s) >= 0 && Child(s) >= 0
    ensures Sigma(s)[1] == FixedSigma(s)[1] && Sigma(s)[2] == FixedSigma(s)[2]
  {
    var e1 := WrittenSigma2(s);
    WrittenSigma3(s, e1);
  }

  /** σ3 as written, for non-zero S1, S1² and σ2. */
  lemma WrittenSigma3(s: seq<int>, e1: int)
    requires |s| >= 5 && 0 <= s[0] < 15 && 0 <= s[1] < 15 && 0 <= e1 < 15
    ensures Sigma3(s, e1) == AddSpec(AddSpec(s[2], MulExp(s[1], s[0])), MulExp(s[0], e1))
  {
    RemIsMulExp(s[1], s[0]);
    RemIsMulExp(s[0], e1);
  }

  /** σ2 as written is the quotient of the numerator by the denominator when both are non-zero. */
  lemma WrittenSigma2(s: seq<int>) returns (e1: int)
    requires |s| >= 5 && forall i :: 0 <= i < 5 ==> -1 <= s[i] < 15
    requires s[0] >= 0 && s[1] >= 0 && s[2] >= 0 && Mother(s) >= 0 && Child(s) >= 0
    ensures e1 == Sigma2(s) == Quotient(Child(s), Mother(s)) && 0 <= e1 < 15
  {
    RemIsMulExp(s[0], s[1]);
    RemIsMulExp(s[2], s[1]);
    var mother, child := Mother(s), Child(s);
    e1 := Rem(child - mother + 15, 15);
    Sigma2Of(s, MulExp(s[0], s[1]), mother, MulExp(s[2], s[1]), child, e1);
  }

  /** With σ1 and σ2 non-zero, the locator as written takes the fixed locator's values. */
  lemma WrittenLocator(e: seq<int>, i: int)
    requires |e| >= 3 && 0 <= e[0] < 15 && 0 <= e[1] < 15 && 0 <= i < 15
    ensures LocatorAt(e, i) == FixedLocatorAt(e, i)
  {
    RemIsMulExp(e[0], (i * 2) % 15);
    RemIsMulExp(e[1], i);
  }

  /** ... so both find the same roots. */
  lemma WrittenMask(e: seq<int>, f: seq<int>)
    requires |e| >= 3 && |f| == 3 && e[..3] == f && 0 <= e[0] < 15 && 0 <= e[1] < 15
    ensures RootMask(e) == FixedMask(f)
  {
    forall i | 0 <= i < 15
      ensures RootMask(e)[i] == FixedMask(f)[i]
    {
      WrittenLocator(e, i);
      assert FixedLocatorAt(e, i) == FixedLocatorAt(f, i);
    }
  }

  /**
   * When S1, S1² and S3 are non-zero, and the denominator and numerator of
   * σ2 are both non-zero or both zero, the decoder as written finds the
   * positions the fixed decoder finds.
   */
  lemma WrittenAgrees(s: seq<int>)
    requires |s| >= 5 && forall i :: 0 <= i < 5 ==> -1 <= s[i] < 15
    requires s[0] >= 0 && s[1] >= 0 && s[2] >= 0
    requires (Mother(s) >= 0 && Child(s) >= 0) || (Mother(s) == -1 && Child(s) == -1)
    ensures Positions(Sigma(s)) == FixedPositions(s)
  {
    var e := Sigma(s);
    if Mother(s) >= 0 {
      WrittenSigma(s);
      var f := FixedSigma(s);
      assert e[..3] == f;
      WrittenMask(e, f);
    } else {
      RemIsMulExp(s[0], s[1]);
      RemIsMulExp(s[2], s[1]);
    }
  }

  /**
   * The decoder as written corrects no error, one error, and two or three
   * errors whose S1, S3 and S5 + S1²·S3 are all non-zero.
   */
  lemma WrittenCorrects(c: seq<bool>, ps: seq<int>)
    requires IsCodeword(c) && Errors(ps)
    requires var s := Syndromes(Flipped(c, ps));
      |ps| >= 2 ==> s[0] >= 0 && s[2] >= 0 && Child(s) >= 0
    ensures Outcome(Flipped(c, ps)) == Some(Padded(ps))
    ensures Repaired(Flipped(c, ps)) == Some(c)
  {
    if |ps| <= 1 {
      WrittenFew(c, ps);
    } else {
      WrittenSeveral(c, ps);
    }
  }

  /** No error or one error: the decoder as written reports it and restores the code word. */
  lemma WrittenFew(c: seq<bool>, ps: seq<int>)
    requires IsCodeword(c) && Errors(ps) && |ps| <= 1
    ensures Outcome(Flipped(c, ps)) == Some(Padded(ps))
    ensures Repaired(Flipped(c, ps)) == Some(c)
  {
    if |ps| == 0 {
      WrittenNone(c, ps);
    } else {
      WrittenOne(c, ps);
    }
  }

  lemma WrittenNone(c: seq<bool>, ps: seq<int>)
    requires IsCodeword(c) && ps == []
    ensures Outcome(Flipped(c, ps)) == Some(Padded(ps))
    ensures Repaired(Flipped(c, ps)) == Some(c)
  {
    assert Flipped(c, ps) == c;
    assert Padded(ps) == [0, 0, 0, 0];
    CodewordClean(c);
  }

  /** Flipping one position is updating that bit. */
  lemma FlipOne(c: seq<bool>, ps: seq<int>)
    requires |ps| == 1 && 0 <= ps[0] < |c|
    ensures Flipped(c, ps) == c[ps[0] := !c[ps[0]]]
  {
    assert ps[..0] == [];
  }

  /** The report of one position. */
  lemma PaddedOne(ps: seq<int>)
    requires |ps| == 1
    ensures Padded(ps) == [1, ps[0], 0, 0]
  {
  }

  lemma WrittenOne(c: seq<bool>, ps: seq<int>)
    requires IsCodeword(c) && |ps| == 1 && 0 <= ps[0] < 15
    ensures Outcome(Flipped(c, ps)) == Some(Padded(ps))
    ensures Repaired(Flipped(c, ps)) == Some(c)
  {
    FlipOne(c, ps);
    PaddedOne(ps);
    CorrectsSingleError(c, ps[0]);
  }

  /** Two or three errors with S1, S3 and the numerator of σ2 non-zero: the decoder as written finds what the fixed one finds. */
  lemma WrittenSeveral(c: seq<bool>, ps: seq<int>)
    requires IsCodeword(c) && Errors(ps) && |ps| >= 2
    requires var s := Syndromes(Flipped(c, ps)); s[0] >= 0 && s[2] >= 0 && Child(s) >= 0
    ensures Outcome(Flipped(c, ps)) == Some(Padded(ps))
    ensures Repaired(Flipped(c, ps)) == Some(c)
  {
    FixedCorrects(c, ps);
    WrittenAgrees(Syndromes(Flipped(c, ps)));
  }

  /** An exponent in -1 .. 14 is fixed by the element it names. */
  lemma ExIs(a: int, r: int)
    requires -1 <= a < 15 && -1 <= r < 15 && Ex(a) == Ex(r)
    ensures a == r
  {
    if 0 <= a && 0 <= r {
      Gf16.ExpInjective(a, r);
    }
  }

  /** The syndromes of a code word with bits 0 and 5 flipped, as codes: S3 = α^0 + α^15 is zero. */
  lemma TwoErrorsValues(c: seq<bool>)
    requires IsCodeword(c)
    ensures var s := Syndromes(Flipped(c, [0, 5]));
      Ex(s[0]) == 7 && Ex(s[2]) == 0 && Ex(s[4]) == 6
  {
    Gf16.GfIsField();
    ExIsExpMap();
    SyndromeValues(Gf16.GF(), Ex, c, [0, 5]);
    Gf16.ExpValues();
  }

  /** The syndromes of a code word with bits 0 and 5 flipped: S1 = α^10, S3 = 0, S5 = α^5. */
  lemma TwoErrorsSyndromes(c: seq<bool>)
    requires IsCodeword(c)
    ensures var s := Syndromes(Flipped(c, [0, 5]));
      s[0] == 10 && s[1] == 5 && s[2] == -1 && s[3] == 10 && s[4] == 5
  {
    var s := Syndromes(Flipped(c, [0, 5]));
    TwoErrorsValues(c);
    Gf16.ExpValues();
    ExIs(s[0], 10);
    ExIs(s[2], -1);
    ExIs(s[4], 5);
  }

  /** The additions the decoder as written performs on these syndromes for σ2 and σ3. */
  lemma TwoErrorsSigmaSums()
    ensures AddSpec(-1, 0) == 0 && AddSpec(5, 4) == 8 && AddSpec(0, 3) == 14
  {
    Gf16.ExpValues();
    AddSpecIs(-1, 0, 0);
    AddSpecIs(5, 4, 8);
    AddSpecIs(0, 3, 14);
  }

  /** The additions that evaluate the resulting locator at α^0. */
  lemma TwoErrorsLocatorSums()
    ensures AddSpec(0, 10) == 5 && AddSpec(8, 14) == 6 && AddSpec(5, 6) == 9
  {
    Gf16.ExpValues();
    AddSpecIs(0, 10, 5);
    AddSpecIs(8, 14, 6);
    AddSpecIs(5, 6, 9);
  }

  /** With S3 = -1 read as an exponent, σ2 comes out as α^8 where the fixed decoder has α^5. */
  lemma TwoErrorsSigma(s: seq<int>)
    requires |s| == 5 && s[0] == 10 && s[1] == 5 && s[2] == -1 && s[3] == 10 && s[4] == 5
    ensures Sigma(s)[1] == 8 && Sigma(s)[2] == 14
    ensures FixedSigma(s)[1] == 5
  {
    TwoErrorsSigmaSums();
    Sigma2Of(s, 0, 0, 4, 8, 8);
    Sigma3Of(s, 0, 0, 3, 8, 14);
  }

  /** ... and α^0, one of the two error locators, is no root of the resulting locator. */
  lemma TwoErrorsLocator(e: seq<int>)
    requires |e| == 4 && e[0] == 10 && e[1] == 8 && e[2] == 14
    ensures LocatorAt(e, 0) == 9
  {
    TwoErrorsLocatorSums();
    LocatorOf(e, 0, 10, 5, 8, 6, 9);
  }

  /** A scan never lists a position whose α^i is no root of the locator. */
  lemma ScanMisses(e: seq<int>, i: int)
    requires |e| >= 3 && e[0] != -1 && e[1] != -1 && 0 <= i < 15 && !IsRoot(e, i)
    ensures Positions(e).Some? ==> Positions(e).value[0] <= 3 && i !in Listed(Positions(e).value)
  {
    var rs := Hits(RootMask(e), 15);
    HitsExact(RootMask(e), 15);
    if |rs| <= 3 {
      ListedPadded(rs);
    }
  }

  /** A bit that differs from the code word and is not reported stays wrong after the repair. */
  lemma RepairKeeps(c: seq<bool>, y: seq<bool>, j: int)
    requires |c| == |y| >= 15 && 0 <= j < |y| && y[j] != c[j]
    requires Outcome(y).Some? ==> Outcome(y).value[0] <= 3 && j !in Listed(Outcome(y).value)
    ensures Repaired(y) != Some(c)
  {
    if Outcome(y).Some? {
      RepairFlipsListed(y);
    }
  }

  /** The decoder as written never reports position 0 for a code word with bits 0 and 5 flipped. */
  lemma TwoErrorsOutcome(c: seq<bool>)
    requires IsCodeword(c)
    ensures var ep := Outcome(Flipped(c, [0, 5]));
      ep.Some? ==> ep.value[0] <= 3 && 0 !in Listed(ep.value)
  {
    var s := Syndromes(Flipped(c, [0, 5]));
    TwoErrorsSyndromes(c);
    TwoErrorsSigma(s);
    TwoErrorsLocator(Sigma(s));
    ScanMisses(Sigma(s), 0);
  }

  /**
   * Two flipped bits that the decoder as written does not repair: with bits
   * 0 and 5 of a code word flipped it never reports position 0, so the word
   * it leaves differs from the code word (FixedCorrects restores it).
   */
  lemma TwoErrorsMissed(c: seq<bool>, ps: seq<int>)
    requires IsCodeword(c) && ps == [0, 5]
    ensures Repaired(Flipped(c, ps)) != Some(c)
  {
    TwoErrorsOutcome(c);
    TwoErrorsValid(ps);
    MissedError(c, ps, 0);
  }

  /** Bits 0 and 5 are two distinct positions. */
  lemma TwoErrorsValid(ps: seq<int>)
    requires ps == [0, 5]
    ensures Errors(ps) && 0 in ps
  {
    assert ps[0] == 0 && ps[1] == 5;
  }

  /** An error the decoder as written does not report is still there after the repair. */
  lemma MissedError(c: seq<bool>, ps: seq<int>, j: int)
    requires |c| >= 15 && Errors(ps) && j in ps
    requires var ep := Outcome(Flipped(c, ps));
      ep.Some? ==> ep.value[0] <= 3 && j !in Listed(ep.value)
    ensures Repaired(Flipped(c, ps)) != Some(c)
  {
    FlipExactly(c, ps);
    RepairKeeps(c, Flipped(c, ps), j);
  }

  /** The syndromes of a code word with bits 0, 1 and 12 flipped, as codes. */
  lemma ZeroSigma2Values(c: seq<bool>)
    requires IsCodeword(c)
    ensures var s := Syndromes(Flipped(c, [0, 1, 12]));
      Ex(s[0]) == 12 && Ex(s[2]) == 5 && Ex(s[4]) == 6
  {
    Gf16.GfIsField();
    ExIsExpMap();
    SyndromeValues(Gf16.GF(), Ex, c, [0, 1, 12]);
    Gf16.ExpValues();
  }

  /** The syndromes of a code word with bits 0, 1 and 12 flipped: S1 = α^6, S3 = α^8, S5 = α^5. */
  lemma ZeroSigma2Syndromes(c: seq<bool>)
    requires IsCodeword(c)
    ensures var s := Syndromes(Flipped(c, [0, 1, 12]));
      s[0] == 6 && s[1] == 12 && s[2] == 8 && s[3] == 9 && s[4] == 5
  {
    var s := Syndromes(Flipped(c, [0, 1, 12]));
    ZeroSigma2Values(c);
    Gf16.ExpValues();
    ExIs(s[0], 6);
    ExIs(s[2], 8);
    ExIs(s[4], 5);
  }

  /** The additions the decoder performs on these syndromes for σ2 and σ3: the numerator α^5 + α^5 is zero. */
  lemma ZeroSigma2Sums()
    ensures AddSpec(8, 3) == 13 && AddSpec(5, 5) == 15 && AddSpec(13, 7) == 5
  {
    Gf16.ExpValues();
    AddSpecIs(8, 3, 13);
    AddSpecIs(5, 5, 15);
    AddSpecIs(13, 7, 5);
  }

  /** The additions that evaluate the resulting locator at α^0. */
  lemma ZeroSigma2LocatorSums()
    ensures AddSpec(0, 6) == 13 && AddSpec(1, 5) == 2 && AddSpec(13, 2) == 14
  {
    Gf16.ExpValues();
    AddSpecIs(0, 6, 13);
    AddSpecIs(1, 5, 2);
    AddSpecIs(13, 2, 14);
  }

  /** With a zero numerator and a non-zero denominator, σ2 as written is α^1 where the fixed decoder has zero. */
  lemma ZeroSigma2Sigma(s: seq<int>)
    requires |s| == 5 && s[0] == 6 && s[1] == 12 && s[2] == 8 && s[3] == 9 && s[4] == 5
    ensures Sigma(s)[1] == 1 && Sigma(s)[2] == 5
    ensures Mother(s) == 13 && FixedSigma(s)[1] == -1
  {
    ZeroSigma2Sums();
    Sigma2Of(s, 3, 13, 5, -1, 1);
    Sigma3Of(s, 3, 13, 7, 1, 5);
  }

  /** ... and α^0, one of the three error locators, is no root of the resulting locator. */
  lemma ZeroSigma2Locator(e: seq<int>)
    requires |e| == 4 && e[0] == 6 && e[1] == 1 && e[2] == 5
    ensures LocatorAt(e, 0) == 14
  {
    ZeroSigma2LocatorSums();
    LocatorOf(e, 0, 6, 13, 1, 2, 14);
  }

  /** The decoder as written never reports position 0 for a code word with bits 0, 1 and 12 flipped. */
  lemma ZeroSigma2Outcome(c: seq<bool>)
    requires IsCodeword(c)
    ensures var ep := Outcome(Flipped(c, [0, 1, 12]));
      ep.Some? ==> ep.value[0] <= 3 && 0 !in Listed(ep.value)
  {
    var s := Syndromes(Flipped(c, [0, 1, 12]));
    ZeroSigma2Syndromes(c);
    ZeroSigma2Sigma(s);
    ZeroSigma2Locator(Sigma(s));
    ScanMisses(Sigma(s), 0);
  }

  /**
   * Three flipped bits whose σ2 is zero: with bits 0, 1 and 12 of a code
   * word flipped, S5 + S1²·S3 is zero, the decoder as written takes σ2 for
   * α^1, never reports position 0, and the word it leaves differs from the
   * code word (FixedCorrects restores it).
   */
  lemma ZeroSigma2Missed(c: seq<bool>, ps: seq<int>)
    requires IsCodeword(c) && ps == [0, 1, 12]
    ensures Repaired(Flipped(c, ps)) != Some(c)
  {
    ZeroSigma2Outcome(c);
    ZeroSigma2Valid(ps);
    MissedError(c, ps, 0);
  }

  /** Bits 0, 1 and 12 are three distinct positions. */
  lemma ZeroSigma2Valid(ps: seq<int>)
    requires ps == [0, 1, 12]
    ensures Errors(ps) && 0 in ps
  {
    assert ps[0] == 0 && ps[1] == 1 && ps[2] == 12;
  }

  /** Bits 0, 1 and 4 flipped: α^0 + α^1 + α^4 = 0, so S1 is zero although there are three errors. */
  lemma ThreeErrorsSyndrome(c: seq<bool>)
    requires IsCodeword(c)
    ensures Syndromes(Flipped(c, [0, 1, 4]))[0] == -1
  {
    Gf16.GfIsField();
    ExIsExpMap();
    SyndromeValues(Gf16.GF(), Ex, c, [0, 1, 4]);
    Gf16.ExpValues();
    ExIs(Syndromes(Flipped(c, [0, 1, 4]))[0], -1);
  }

  /**
   * Three flipped bits that the decoder as written takes for none: with bits
   * 0, 1 and 4 of a code word flipped, S1 = 0 and it reports no errors and
   * leaves the word as received (FixedCorrects restores the code word).
   */
  lemma ThreeErrorsUnnoticed(c: seq<bool>)
    requires IsCodeword(c)
    ensures Outcome(Flipped(c, [0, 1, 4])) == Some([0, 0, 0, 0])
    ensures Repaired(Flipped(c, [0, 1, 4])) == Some(Flipped(c, [0, 1, 4]))
    ensures Repaired(Flipped(c, [0, 1, 4])) != Some(c)
  {
    var y := Flipped(c, [0, 1, 4]);
    ThreeErrorsSyndrome(c);
    assert Listed([0, 0, 0, 0]) == [];
    FlipExactly(c, [0, 1, 4]);
    assert y[0] != c[0];
  }
}
