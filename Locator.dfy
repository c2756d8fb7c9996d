/**
 * The mathematics behind the last two stages of Reed–Solomon decoding: the
 * Chien search, which finds the error positions as the inverses of the roots
 * of the error locator σ(z), and Forney's formula, which gives the error
 * value at each position from the evaluator ω(z) and the formal derivative
 * σ'(z).
 *
 * Here a polynomial is a coefficient sequence with c[0] the constant term
 * (unlike the codeword of module Poly, whose first byte is the highest).  The
 * decoder evaluates it at α^z as a sum of terms c[k]·α^((z·k) mod 255);
 * `PowerSum` is that sum and `PolyAt` is the textbook evaluation it is proved
 * equal to.
 */
module Locator {
  import opened Gf256
  import opened Poly

  /** c[0] + c[1]·x + … + c[n-1]·x^(n-1). */
  ghost function PolyAt(c: seq<bv8>, x: bv8, n: nat): bv8
    requires n <= |c|
  {
    if n == 0 then 0 else Add(PolyAt(c, x, n - 1), FMul(c[n - 1], Pow(x, n - 1)))
  }

  /** The sum over lo <= k < hi of c[k]·α^((z·k) mod 255). */
  ghost function PowerSum(c: seq<bv8>, z: nat, lo: nat, hi: nat): bv8
    requires lo <= hi <= |c|
    decreases hi
  {
    if hi == lo then 0 else Add(PowerSum(c, z, lo, hi - 1), FMul(c[hi - 1], Exp((z * (hi - 1)) % 255)))
  }

  /** Reducing exponents modulo 255 does not change the value: the sum is c evaluated at α^z. */
  lemma {:induction false} PowerSumAt(c: seq<bv8>, z: nat, n: nat)
    requires n <= |c|
    ensures PowerSum(c, z, 0, n) == PolyAt(c, Exp(z), n)
  {
    if n > 0 {
      PowerSumAt(c, z, n - 1);
      PowerTerm(z, n - 1);
    }
  }

  lemma ExpReduce(w: nat)
    ensures Exp(w % 255) == Exp(w)
  {
    ExpPeriod();
    ExpMod(w, 255);
  }

  lemma PowerTerm(z: nat, k: nat)
    ensures Exp((z * k) % 255) == Pow(Exp(z), k)
  {
    PowExp(z, k);
    var w := z * k;
    MulSucc(z, k);
    ExpReduce(w);
  }

  /** Splitting off the constant term. */
  lemma {:induction false} PowerSumLow(c: seq<bv8>, z: nat, hi: nat)
    requires 1 <= hi <= |c|
    ensures PowerSum(c, z, 0, hi) == Add(c[0], PowerSum(c, z, 1, hi))
  {
    if hi == 1 {
      assert Exp(0) == 1;
      FMulOne(c[0]);
    } else {
      PowerSumLow(c, z, hi - 1);
      var a, b, t := c[0], PowerSum(c, z, 1, hi - 1), FMul(c[hi - 1], Exp((z * (hi - 1)) % 255));
      assert PowerSum(c, z, 0, hi) == Add(Add(a, b), t);
      assert PowerSum(c, z, 1, hi) == Add(b, t);
      AddAssoc(a, b, t);
    }
  }

  /** α^(255-i) is the inverse of α^i. */
  lemma InverseExp(i: nat)
    requires i <= 255
    ensures FMul(Exp(i), Exp(255 - i)) == 1
  {
    FMulPowers(i, 255 - i);
    ExpPeriod();
  }

  /**
   * σ(z) at z = 1/α^i for σ of degree jisu with σ0 = 1, as the search
   * accumulates it: 1 plus the terms σ1 … σ<jisu>.
   */
  ghost function SigmaAt(sigma: seq<bv8>, jisu: nat, i: nat): bv8
    requires 1 <= jisu < |sigma| && i <= 255
  {
    Add(1, PowerSum(sigma, 255 - i, 1, jisu + 1))
  }

  /** With σ0 = 1, SigmaAt is σ evaluated at the inverse of α^i. */
  lemma SigmaAtInverse(sigma: seq<bv8>, jisu: nat, i: nat)
    requires 1 <= jisu < |sigma| && i <= 255 && sigma[0] == 1
    ensures FMul(Exp(i), Exp(255 - i)) == 1
    ensures SigmaAt(sigma, jisu, i) == PolyAt(sigma, Exp(255 - i), jisu + 1)
  {
    InverseExp(i);
    PowerSumLow(sigma, 255 - i, jisu + 1);
    PowerSumAt(sigma, 255 - i, jisu + 1);
  }

  /** The exponents i < n, in increasing order, for which σ(1/α^i) = 0. */
  ghost function Roots(sigma: seq<bv8>, jisu: nat, n: nat): seq<nat>
    requires 1 <= jisu < |sigma| && n <= 255
  {
    if n == 0 then []
    else Roots(sigma, jisu, n - 1) + (if SigmaAt(sigma, jisu, n - 1) == 0 then [n - 1] else [])
  }

  /** Roots holds exactly the exponents below n that are roots, each once and in order. */
  lemma {:induction false} RootsSpec(sigma: seq<bv8>, jisu: nat, n: nat)
    requires 1 <= jisu < |sigma| && n <= 255
    ensures forall t :: 0 <= t < |Roots(sigma, jisu, n)| ==>
      Roots(sigma, jisu, n)[t] < n && SigmaAt(sigma, jisu, Roots(sigma, jisu, n)[t]) == 0
    ensures forall t, u :: 0 <= t < u < |Roots(sigma, jisu, n)| ==> Roots(sigma, jisu, n)[t] < Roots(sigma, jisu, n)[u]
    ensures forall i :: 0 <= i < n && SigmaAt(sigma, jisu, i) == 0 ==> i in Roots(sigma, jisu, n)
  {
    if n > 0 {
      RootsSpec(sigma, jisu, n - 1);
    }
  }

  /** The roots below i are the first ones below n. */
  lemma {:induction false} RootsPrefix(sigma: seq<bv8>, jisu: nat, i: nat, n: nat)
    requires 1 <= jisu < |sigma| && i <= n <= 255
    ensures Roots(sigma, jisu, i) <= Roots(sigma, jisu, n)
    decreases n
  {
    if i < n {
      RootsPrefix(sigma, jisu, i, n - 1);
    }
  }

  /** The sum of α^r over the exponents r. */
  ghost function XorExp(rs: seq<nat>): bv8
  {
    if |rs| == 0 then 0 else Add(XorExp(rs[..|rs| - 1]), Exp(rs[|rs| - 1]))
  }

  /**
   * σ1 is the sum of the error locators, so once jisu - 1 of them have been
   * found the last one is σ1 minus their sum.
   */
  ghost function LastLocator(sigma: seq<bv8>, jisu: nat, n: nat): bv8
    requires 1 <= jisu < |sigma| && n <= 255 && jisu - 1 <= |Roots(sigma, jisu, n)|
  {
    Add(sigma[1], XorExp(Roots(sigma, jisu, n)[..jisu - 1]))
  }

  /** Adding one more exponent to the sum. */
  lemma XorExpSnoc(rs: seq<nat>, r: nat)
    ensures XorExp(rs + [r]) == Add(XorExp(rs), Exp(r))
  {
    assert (rs + [r])[..|rs|] == rs;
  }

  /**
   * When the search has found exactly jisu - 1 roots below i, these are the
   * first jisu - 1 roots below any larger bound, and the last locator is the
   * same.
   */
  lemma LastFound(sigma: seq<bv8>, jisu: nat, i: nat, n: nat)
    requires 1 <= jisu < |sigma| && i <= n <= 255 && |Roots(sigma, jisu, i)| == jisu - 1
    ensures jisu - 1 <= |Roots(sigma, jisu, n)|
    ensures Roots(sigma, jisu, n)[..jisu - 1] == Roots(sigma, jisu, i)
    ensures LastLocator(sigma, jisu, n) == Add(sigma[1], XorExp(Roots(sigma, jisu, i)))
  {
    RootsPrefix(sigma, jisu, i, n);
  }

  /**
   * The locators the search reports name indices of the codeword: α^r for a
   * root r < n names index n - 1 - r, and the last locator was checked to
   * have a logarithm below n.
   */
  lemma LocatorsInRange(pos: seq<bv8>, sigma: seq<bv8>, jisu: nat, n: nat, size: int)
    requires 1 <= jisu < |sigma| && n <= 255 && n <= size && jisu <= |pos|
    requires jisu - 1 <= |Roots(sigma, jisu, n)| && Log(pos[0]) < n
    requires forall t :: 0 <= t < jisu - 1 ==> pos[jisu - 1 - t] == Exp(Roots(sigma, jisu, n)[t])
    ensures InRange(pos, jisu, n, size)
  {
    RootsSpec(sigma, jisu, n);
    forall k | 0 <= k < jisu
      ensures 0 <= Position(n, pos[k]) < size
    {
      if k > 0 {
        var t := jisu - 1 - k;
        LogExp(Roots(sigma, jisu, n)[t]);
      }
    }
  }

  /** n·x: x added to itself n times. */
  ghost function Times(n: nat, x: bv8): bv8
  {
    if n == 0 then 0 else Add(Times(n - 1, x), x)
  }

  /** In characteristic 2, n·x is x for odd n and 0 for even n. */
  lemma {:induction false} TimesParity(n: nat, x: bv8)
    ensures Times(n, x) == if n % 2 == 1 then x else 0
  {
    if n > 0 {
      TimesParity(n - 1, x);
    }
  }

  /** The formal derivative of σ of degree jisu: coefficient k is (k+1)·σ<k+1>. */
  ghost function Derivative(sigma: seq<bv8>, jisu: nat): (d: seq<bv8>)
    requires jisu < |sigma|
    ensures |d| == jisu
  {
    seq(jisu, k requires 0 <= k < jisu => Times(k + 1, sigma[k + 1]))
  }

  /** a / b, and a when b = 0 (the log table maps 0 to 0). */
  ghost function Quot(a: bv8, b: bv8): (q: bv8)
    ensures b != 0 ==> FMul(q, b) == a
    ensures b == 0 ==> q == a
  {
    if b == 0 then a else FDiv(a, b)
  }

  /**
   * Forney's formula for the error value at locator X = ps, with z = 1/X
   * written as α^(255 - log X): X·ω(z)/σ'(z).
   */
  ghost function ErrorValue(sigma: seq<bv8>, omega: seq<bv8>, jisu: nat, ps: bv8): bv8
    requires jisu < |sigma| && jisu <= |omega|
  {
    var zlog := 255 - Log(ps);
    FMul(ps, Quot(PowerSum(omega, zlog, 0, jisu), PowerSum(Derivative(sigma, jisu), zlog, 0, jisu)))
  }

  /** ErrorValue is X·ω(X⁻¹)/σ'(X⁻¹) for a non-zero locator X. */
  lemma Forney(sigma: seq<bv8>, omega: seq<bv8>, jisu: nat, x: bv8, xinv: bv8)
    requires jisu < |sigma| && jisu <= |omega| && x != 0 && FMul(x, xinv) == 1
    ensures ErrorValue(sigma, omega, jisu, x) ==
      FMul(x, Quot(PolyAt(omega, xinv, jisu), PolyAt(Derivative(sigma, jisu), xinv, jisu)))
  {
    var l := Log(x);
    InverseExp(l);
    FMulCancel(xinv, Exp(255 - l), x) by {
      FMulComm(xinv, x);
      FMulComm(Exp(255 - l), x);
    }
    PowerSumAt(omega, 255 - l, jisu);
    PowerSumAt(Derivative(sigma, jisu), 255 - l, jisu);
  }

  /** The codeword index that error locator ps refers to, in a codeword of the given length. */
  ghost function Position(length: int, ps: bv8): int
  {
    length - 1 - Log(ps)
  }

  /** Every one of the first jisu locators refers to an index of a codeword of the given size. */
  ghost predicate InRange(pos: seq<bv8>, jisu: nat, length: int, size: int)
  {
    jisu <= |pos| && forall k :: 0 <= k < jisu ==> 0 <= Position(length, pos[k]) < size
  }

  /**
   * The codeword after the first i corrections: each XORs the Forney value of
   * locator pos[k] into the index that locator names.
   */
  ghost function Corrected(data: seq<bv8>, length: int, pos: seq<bv8>, sigma: seq<bv8>, omega: seq<bv8>, jisu: nat, i: nat): (r: seq<bv8>)
    requires i <= jisu < |sigma| && jisu <= |omega| && InRange(pos, jisu, length, |data|)
    ensures |r| == |data|
  {
    if i == 0 then data
    else
      var c := Corrected(data, length, pos, sigma, omega, jisu, i - 1);
      var p := Position(length, pos[i - 1]);
      c[p := Add(c[p], ErrorValue(sigma, omega, jisu, pos[i - 1]))]
  }

  /** The corrections are the same error pattern XORed into any codeword. */
  lemma {:induction false} CorrectedPattern(data: seq<bv8>, zero: seq<bv8>, length: int, pos: seq<bv8>, sigma: seq<bv8>, omega: seq<bv8>, jisu: nat, i: nat, k: int)
    requires i <= jisu < |sigma| && jisu <= |omega| && |zero| == |data| && InRange(pos, jisu, length, |data|)
    requires forall j :: 0 <= j < |zero| ==> zero[j] == 0
    requires 0 <= k < |data|
    ensures Corrected(data, length, pos, sigma, omega, jisu, i)[k] ==
      Add(data[k], Corrected(zero, length, pos, sigma, omega, jisu, i)[k])
  {
    if i > 0 {
      CorrectedPattern(data, zero, length, pos, sigma, omega, jisu, i - 1, k);
      var c := Corrected(data, length, pos, sigma, omega, jisu, i - 1);
      var z := Corrected(zero, length, pos, sigma, omega, jisu, i - 1);
      var p := Position(length, pos[i - 1]);
      var e := ErrorValue(sigma, omega, jisu, pos[i - 1]);
      assert Corrected(data, length, pos, sigma, omega, jisu, i) == c[p := Add(c[p], e)];
      assert Corrected(zero, length, pos, sigma, omega, jisu, i) == z[p := Add(z[p], e)];
      if k == p {
        var x, y := data[k], z[k];
        assert (x ^ y) ^ e == x ^ (y ^ e);
      }
    }
  }

  /** Applying the corrections twice gives back the received codeword. */
  lemma CorrectedTwice(data: seq<bv8>, length: int, pos: seq<bv8>, sigma: seq<bv8>, omega: seq<bv8>, jisu: nat)
    requires jisu < |sigma| && jisu <= |omega| && InRange(pos, jisu, length, |data|)
    ensures Corrected(Corrected(data, length, pos, sigma, omega, jisu, jisu), length, pos, sigma, omega, jisu, jisu) == data
  {
    var once := Corrected(data, length, pos, sigma, omega, jisu, jisu);
    var twice := Corrected(once, length, pos, sigma, omega, jisu, jisu);
    var zero := seq(|data|, j => 0 as bv8);
    forall k | 0 <= k < |data|
      ensures twice[k] == data[k]
    {
      CorrectedPattern(data, zero, length, pos, sigma, omega, jisu, jisu, k);
      CorrectedPattern(once, zero, length, pos, sigma, omega, jisu, jisu, k);
      var x, e := data[k], Corrected(zero, length, pos, sigma, omega, jisu, jisu)[k];
      assert (x ^ e) ^ e == x;
    }
  }

  /** Only the indices the locators name can change. */
  lemma {:induction false} CorrectedElsewhere(data: seq<bv8>, length: int, pos: seq<bv8>, sigma: seq<bv8>, omega: seq<bv8>, jisu: nat, i: nat, k: int)
    requires i <= jisu < |sigma| && jisu <= |omega| && InRange(pos, jisu, length, |data|)
    requires 0 <= k < |data| && forall j :: 0 <= j < i ==> Position(length, pos[j]) != k
    ensures Corrected(data, length, pos, sigma, omega, jisu, i)[k] == data[k]
  {
    if i > 0 {
      CorrectedElsewhere(data, length, pos, sigma, omega, jisu, i - 1, k);
    }
  }
}
