/**
 * The Reed–Solomon decoder used for QR error correction: syndromes, a
 * modified Berlekamp–Massey iteration for the error locator σ(z) and the
 * evaluator ω(z), a Chien search for the error positions, and Forney's
 * formula for the error values, XORed into the caller's codeword array.
 */
module RsDecode {
  import opened Gf256
  import opened Poly
  import opened Galois
  import opened Locator

  /** The codeword length is outside [npar, 255]. */
  const RS_PERM_ERROR: int := -1
  /** Too many errors to correct. */
  const RS_CORRECT_ERROR: int := -2

  /** p has no non-zero coefficient above degree d. */
  ghost predicate Deg(p: seq<bv8>, d: int)
  {
    forall i :: 0 <= i < |p| && d < i ==> p[i] == 0
  }

  /**
   * The connection polynomial c generates s[lo..hi) as a linear recurrence:
   * coefficients lo .. hi - 1 of c(z)·s(z) vanish.
   */
  ghost predicate Annihilates(c: seq<bv8>, s: seq<bv8>, lo: int, hi: int)
  {
    forall k :: lo <= k < hi ==> Conv(c, s, |c|, k) == 0
  }

  /** The first n syndromes are zero. */
  ghost predicate AllZero(s: seq<bv8>, n: int)
  {
    forall k :: 0 <= k < n && k < |s| ==> s[k] == 0
  }

  /**
   * The state at the head of step n of the modified Berlekamp–Massey loop:
   * sg1 is the connection polynomial, with constant term 1 and degree at
   * most jisu1, and it generates s[jisu1..n). Until the first non-zero
   * discrepancy (m = -1) nothing is known about sg0 except where it is zero;
   * afterwards sg0 is the earlier connection polynomial, shifted and scaled
   * so that its discrepancy at n is 1, with degree at most n - m; g is the
   * length it had, so that jisu0 = jisu1 + n - m - g.
   */
  ghost predicate Head(s: seq<bv8>, n: int, sg0: seq<bv8>, sg1: seq<bv8>, jisu0: int, jisu1: int, m: int, g: int)
  {
    2 <= |s| && |sg0| == |s| && |sg1| == |s| && 0 <= n <= |s| &&
    -1 <= m < n && 0 <= jisu1 <= n && jisu1 <= |s| / 2 &&
    (m == -1 <==> jisu1 == 0) && 0 <= g && jisu0 + g == jisu1 + n - m &&
    sg0[0] == 0 && sg1[0] == 1 && Deg(sg1, jisu1) && Annihilates(sg1, s, jisu1, n) &&
    (m == -1 ==> g == 0 && AllZero(s, n) && forall i :: 0 <= i < |s| && i != n + 1 ==> sg0[i] == 0) &&
    (m >= 0 ==>
       !AllZero(s, n) && g < jisu1 && Deg(sg0, n - m) &&
       (n < |s| ==> Annihilates(sg0, s, n - m, n) && Conv(sg0, s, |s|, n) == 1))
  }

  /** The state after the update of step n, before sg0 is shifted. */
  ghost predicate Mid(s: seq<bv8>, n: int, sg0: seq<bv8>, sg1: seq<bv8>, jisu0: int, jisu1: int, m: int, g: int)
  {
    2 <= |s| && |sg0| == |s| && |sg1| == |s| && 0 <= n < |s| &&
    -1 <= m <= n && 0 <= jisu1 <= n + 1 && jisu1 <= |s| / 2 &&
    (m == -1 <==> jisu1 == 0) && 0 <= g && jisu0 + g == jisu1 + n - m &&
    sg1[0] == 1 && Deg(sg1, jisu1) && Annihilates(sg1, s, jisu1, n + 1) &&
    (m == -1 ==> g == 0 && AllZero(s, n + 1) && forall i :: 0 <= i < |s| && i != n + 1 ==> sg0[i] == 0) &&
    (m >= 0 ==>
       !AllZero(s, n + 1) && g < jisu1 && Deg(sg0, n - m) &&
       (n + 1 < |s| ==> Annihilates(sg0, s, n - m, n) && Conv(sg0, s, |s|, n) == 1))
  }

  /** The arraycopy of sg0 one place up over its first k entries, then sg0[0] := 0. */
  function ShiftUp(p: seq<bv8>, k: int): (q: seq<bv8>)
    requires 0 <= k < |p|
    ensures |q| == |p|
  {
    seq(|p|, i requires 0 <= i < |p| => if i == 0 then 0 else if i <= k then p[i - 1] else p[i])
  }

  lemma ShiftUpAt(p: seq<bv8>, k: int, i: int)
    requires 0 <= k < |p| && 0 <= i < |p|
    ensures |ShiftUp(p, k)| == |p|
    ensures ShiftUp(p, k)[i] == if i == 0 then 0 else if i <= k then p[i - 1] else p[i]
  {
  }

  /** A connection polynomial of degree 0 with constant term 1 reproduces s. */
  lemma ConvUnit(c: seq<bv8>, s: seq<bv8>, k: int)
    requires 1 <= |c| && c[0] == 1 && Deg(c, 0) && 0 <= k < |s|
    ensures Conv(c, s, |c|, k) == s[k]
  {
    ConvTail(c, s, 1, |c|, k);
    FMulOne(s[k]);
  }

  /** Coefficient k <= n of wk = sg1 + d·sg0 (both cut at degree n). */
  lemma WkConv(s: seq<bv8>, sg0: seq<bv8>, sg1: seq<bv8>, wk: seq<bv8>, d: bv8, n: int, k: int)
    requires |sg0| == |s| && |sg1| == |s| && |wk| == |s| && 0 <= k <= n < |s|
    requires forall i :: 0 <= i < |s| ==> wk[i] == if i <= n then Add(sg1[i], FMul(sg0[i], d)) else 0
    ensures Conv(wk, s, |s|, k) == Add(Conv(sg1, s, |s|, k), FMul(Conv(sg0, s, |s|, k), d))
  {
    ConvTail(wk, s, k + 1, |s|, k);
    ConvTail(sg1, s, k + 1, |s|, k);
    ConvTail(sg0, s, k + 1, |s|, k);
    ConvLin(sg1, sg0, wk, d, s, k + 1, k);
  }

  /** Shifting sg0 up by one place moves its product coefficients up by one. */
  lemma ShiftConv(p: seq<bv8>, s: seq<bv8>, kk: int, k: int)
    requires 0 <= kk < |p| && (kk == |p| - 1 || Deg(p, kk - 1)) && 0 <= k && k + 1 < |p|
    ensures Conv(ShiftUp(p, kk), s, |p|, k + 1) == Conv(p, s, |p|, k)
  {
    var q := ShiftUp(p, kk);
    forall i | 0 <= i < |p| - 1
      ensures q[i + 1] == p[i]
    {
      ShiftUpAt(p, kk, i + 1);
    }
    ShiftUpAt(p, kk, 0);
    ConvShift(p, q, s, |p| - 1, k);
    ConvTail(p, s, |p| - 1, |p|, k);
  }

  lemma ShiftDeg(p: seq<bv8>, kk: int, d: int)
    requires 0 <= kk < |p| && Deg(p, d)
    ensures Deg(ShiftUp(p, kk), d + 1)
  {
    forall i | 0 <= i < |p| && d + 1 < i
      ensures ShiftUp(p, kk)[i] == 0
    {
      ShiftUpAt(p, kk, i);
    }
  }

  /** The registers before the first step: sg0 = z and sg1 = 1. */
  lemma HeadStart(s: seq<bv8>, sg0: seq<bv8>, sg1: seq<bv8>)
    requires 2 <= |s| && |sg0| == |s| && |sg1| == |s|
    requires forall i :: 0 <= i < |s| ==> sg0[i] == (if i == 1 then 1 else 0) && sg1[i] == (if i == 0 then 1 else 0)
    ensures Head(s, 0, sg0, sg1, 1, 0, -1, 0)
  {
  }

  /** A zero discrepancy leaves sg1 as it is. */
  lemma StepKeep(s: seq<bv8>, n: int, sg0: seq<bv8>, sg1: seq<bv8>, jisu0: int, jisu1: int, m: int, g: int)
    requires Head(s, n, sg0, sg1, jisu0, jisu1, m, g) == true && n < |s|
    requires Conv(sg1, s, |s|, n) == 0
    ensures Mid(s, n, sg0, sg1, jisu0, jisu1, m, g)
  {
    if m == -1 {
      ConvUnit(sg1, s, n);
    }
  }

  /** A non-zero discrepancy d is the first one, or some earlier syndrome is non-zero. */
  lemma StepNonZero(s: seq<bv8>, n: int, sg0: seq<bv8>, sg1: seq<bv8>, jisu0: int, jisu1: int, m: int, g: int, d: bv8)
    requires Head(s, n, sg0, sg1, jisu0, jisu1, m, g) == true && n < |s|
    requires d == Conv(sg1, s, |s|, n) && d != 0
    ensures !AllZero(s, n + 1) && !AllZero(s, |s|)
  {
    if m == -1 {
      ConvUnit(sg1, s, n);
    }
  }

  /** The entries of wk = sg1 + d·sg0 above degree L vanish when both inputs are of degree at most L. */
  lemma WkDeg(s: seq<bv8>, sg0: seq<bv8>, sg1: seq<bv8>, wk: seq<bv8>, d: bv8, n: int, L: int)
    requires |sg0| == |s| && |sg1| == |s| && |wk| == |s| && 0 <= n < |s|
    requires forall i :: 0 <= i < |s| ==> wk[i] == if i <= n then Add(sg1[i], FMul(sg0[i], d)) else 0
    requires Deg(sg1, L) && forall i :: 0 <= i <= n && L < i ==> sg0[i] == 0
    ensures Deg(wk, L)
  {
  }

  /** Coefficients [lo, n] of wk·s vanish when those of sg1·s and sg0·s below n do and d cancels at n. */
  lemma WkAnnihilates(s: seq<bv8>, sg0: seq<bv8>, sg1: seq<bv8>, wk: seq<bv8>, d: bv8, n: int, lo: int)
    requires |sg0| == |s| && |sg1| == |s| && |wk| == |s| && 0 <= lo && 0 <= n < |s|
    requires forall i :: 0 <= i < |s| ==> wk[i] == if i <= n then Add(sg1[i], FMul(sg0[i], d)) else 0
    requires Annihilates(sg1, s, lo, n) && Annihilates(sg0, s, lo, n)
    requires lo <= n ==> Conv(sg1, s, |s|, n) == d && Conv(sg0, s, |s|, n) == 1
    ensures Annihilates(wk, s, lo, n + 1)
  {
    forall k | lo <= k < n + 1
      ensures Conv(wk, s, |wk|, k) == 0
    {
      WkConv(s, sg0, sg1, wk, d, n, k);
      FMulOne(d);
    }
  }

  /** A non-zero discrepancy that does not lengthen the register: sg1 := sg1 + d·sg0. */
  lemma StepAdjust(s: seq<bv8>, n: int, sg0: seq<bv8>, sg1: seq<bv8>, jisu0: int, jisu1: int, m: int, g: int, d: bv8, wk: seq<bv8>)
    requires Head(s, n, sg0, sg1, jisu0, jisu1, m, g) == true && n < |s|
    requires d == Conv(sg1, s, |s|, n) && d != 0 && n - m <= jisu1
    requires |wk| == |s| && forall i :: 0 <= i < |s| ==> wk[i] == if i <= n then Add(sg1[i], FMul(sg0[i], d)) else 0
    ensures Mid(s, n, sg0, wk, jisu0, jisu1, m, g)
  {
    WkDeg(s, sg0, sg1, wk, d, n, jisu1);
    WkAnnihilates(s, sg0, sg1, wk, d, n, jisu1);
    assert !AllZero(s, n + 1);
  }

  /** Room for the copy of sg1 into sg0 when the register lengthens. */
  lemma StepRoom(s: seq<bv8>, n: int, sg0: seq<bv8>, sg1: seq<bv8>, jisu0: int, jisu1: int, m: int, g: int)
    requires Head(s, n, sg0, sg1, jisu0, jisu1, m, g) == true && n < |s|
    ensures jisu1 < n - m <= |s| / 2 ==> jisu1 < jisu0 < |s|
  {
  }

  /**
   * A non-zero discrepancy that lengthens the register to n - m: sg1 := sg1 + d·sg0,
   * and sg0 := the old sg1 divided by d.
   */
  lemma StepLengthen(s: seq<bv8>, n: int, sg0: seq<bv8>, sg1: seq<bv8>, jisu0: int, jisu1: int, m: int, g: int,
                     d: bv8, wk: seq<bv8>, sg0': seq<bv8>)
    requires Head(s, n, sg0, sg1, jisu0, jisu1, m, g) == true && n < |s|
    requires d == Conv(sg1, s, |s|, n) && d != 0 && jisu1 < n - m <= |s| / 2
    requires |wk| == |s| && forall i :: 0 <= i < |s| ==> wk[i] == if i <= n then Add(sg1[i], FMul(sg0[i], d)) else 0
    requires |sg0'| == |s| && forall i :: 0 <= i < |s| ==> if i <= jisu0 then FMul(sg0'[i], d) == sg1[i] else sg0'[i] == sg0[i]
    ensures Mid(s, n, sg0', wk, n - m, n - m, n - jisu1, jisu1)
  {
    var L := n - m;
    StepRoom(s, n, sg0, sg1, jisu0, jisu1, m, g);
    StepNonZero(s, n, sg0, sg1, jisu0, jisu1, m, g, d);
    WkDeg(s, sg0, sg1, wk, d, n, L);
    WkAnnihilates(s, sg0, sg1, wk, d, n, L);
    forall i | 0 <= i < |s|
      ensures sg1[i] == FMul(sg0'[i], d)
      ensures jisu1 < i ==> sg0'[i] == 0
    {
      if i > jisu0 {
        assert sg0'[i] == 0;
      }
    }
    if n + 1 < |s| {
      forall k | jisu1 <= k <= n
        ensures Conv(sg0', s, |s|, k) == if k == n then 1 else 0
      {
        ConvScale(sg0', sg1, d, s, |s|, k);
        FMulOne(d);
        FMulCancel(Conv(sg0', s, |s|, k), if k == n then 1 else 0, d);
      }
    }
  }

  /** The shift at the end of step n brings the state to the head of step n + 1. */
  lemma StepShift(s: seq<bv8>, n: int, sg0: seq<bv8>, sg1: seq<bv8>, jisu0: int, jisu1: int, m: int, g: int, k: int)
    requires Mid(s, n, sg0, sg1, jisu0, jisu1, m, g) == true
    requires k == if |s| - 1 < jisu0 then |s| - 1 else jisu0
    ensures 0 <= k < |sg0|
    ensures Head(s, n + 1, ShiftUp(sg0, k), sg1, jisu0 + 1, jisu1, m, g)
  {
    var q := ShiftUp(sg0, k);
    if m == -1 {
      forall i | 0 <= i < |s|
        ensures q[i] == 0
      {
        ShiftUpAt(sg0, k, i);
      }
    } else {
      ShiftDeg(sg0, k, n - m);
      if n + 1 < |s| {
        forall j | n - m < j <= n + 1
          ensures Conv(q, s, |s|, j) == Conv(sg0, s, |s|, j - 1)
        {
          ShiftConv(sg0, s, k, j - 1);
        }
      }
    }
    ShiftUpAt(sg0, k, 0);
  }

  /** The number of entries of sg0 that the end of each step moves up. */
  function ShiftCount(p: seq<bv8>, jisu0: int): int
  {
    if |p| - 1 < jisu0 then |p| - 1 else jisu0
  }

  /** A whole step with a zero discrepancy. */
  lemma NextKeep(s: seq<bv8>, n: int, sg0: seq<bv8>, sg1: seq<bv8>, jisu0: int, jisu1: int, m: int, g: int)
    requires Head(s, n, sg0, sg1, jisu0, jisu1, m, g) == true && n < |s|
    requires Conv(sg1, s, |s|, n) == 0
    ensures 0 <= ShiftCount(sg0, jisu0) < |sg0|
    ensures Head(s, n + 1, ShiftUp(sg0, ShiftCount(sg0, jisu0)), sg1, jisu0 + 1, jisu1, m, g) == true
  {
    StepKeep(s, n, sg0, sg1, jisu0, jisu1, m, g);
    StepShift(s, n, sg0, sg1, jisu0, jisu1, m, g, ShiftCount(sg0, jisu0));
  }

  /** A whole step with a non-zero discrepancy that keeps the register length. */
  lemma NextAdjust(s: seq<bv8>, n: int, sg0: seq<bv8>, sg1: seq<bv8>, jisu0: int, jisu1: int, m: int, g: int, d: bv8, wk: seq<bv8>)
    requires Head(s, n, sg0, sg1, jisu0, jisu1, m, g) == true && n < |s|
    requires d == Conv(sg1, s, |s|, n) && d != 0 && n - m <= jisu1
    requires |wk| == |s| && forall i :: 0 <= i < |s| ==> wk[i] == if i <= n then Add(sg1[i], FMul(sg0[i], d)) else 0
    ensures 0 <= ShiftCount(sg0, jisu0) < |sg0|
    ensures Head(s, n + 1, ShiftUp(sg0, ShiftCount(sg0, jisu0)), wk, jisu0 + 1, jisu1, m, g) == true
  {
    StepAdjust(s, n, sg0, sg1, jisu0, jisu1, m, g, d, wk);
    StepShift(s, n, sg0, wk, jisu0, jisu1, m, g, ShiftCount(sg0, jisu0));
  }

  /** A whole step with a non-zero discrepancy that lengthens the register to n - m. */
  lemma NextLengthen(s: seq<bv8>, n: int, sg0: seq<bv8>, sg1: seq<bv8>, jisu0: int, jisu1: int, m: int, g: int,
                     d: bv8, wk: seq<bv8>, sg0': seq<bv8>)
    requires Head(s, n, sg0, sg1, jisu0, jisu1, m, g) == true && n < |s|
    requires d == Conv(sg1, s, |s|, n) && d != 0 && jisu1 < n - m <= |s| / 2
    requires |wk| == |s| && forall i :: 0 <= i < |s| ==> wk[i] == if i <= n then Add(sg1[i], FMul(sg0[i], d)) else 0
    requires |sg0'| == |s| && forall i :: 0 <= i < |s| ==> if i <= jisu0 then FMul(sg0'[i], d) == sg1[i] else sg0'[i] == sg0[i]
    ensures 0 <= ShiftCount(sg0', n - m) < |sg0'|
    ensures Head(s, n + 1, ShiftUp(sg0', ShiftCount(sg0', n - m)), wk, n - m + 1, n - m, n - jisu1, jisu1) == true
  {
    StepLengthen(s, n, sg0, sg1, jisu0, jisu1, m, g, d, wk, sg0');
    StepShift(s, n, sg0', wk, n - m, n - m, n - jisu1, jisu1, ShiftCount(sg0', n - m));
  }


  /** wk: sg1 + d·sg0 on the coefficients up to n, zero above. */
  ghost function Combine(sg1: seq<bv8>, sg0: seq<bv8>, d: bv8, n: int): (wk: seq<bv8>)
    requires |sg0| == |sg1|
    ensures |wk| == |sg1|
    ensures forall j :: 0 <= j < |wk| ==> wk[j] == if j <= n then Add(sg1[j], FMul(sg0[j], d)) else 0
  {
    seq(|sg1|, j requires 0 <= j < |sg1| => if j <= n then Add(sg1[j], FMul(sg0[j], d)) else 0)
  }

  /** sg0 after a length change: sg1 / d on the coefficients up to jisu0, unchanged above. */
  ghost function Rescale(sg1: seq<bv8>, sg0: seq<bv8>, d: bv8, jisu0: int): (q: seq<bv8>)
    requires |sg0| == |sg1| && d != 0
    ensures |q| == |sg0|
    ensures forall j :: 0 <= j < |q| ==> q[j] == if j <= jisu0 then FDiv(sg1[j], d) else sg0[j]
  {
    seq(|sg0|, j requires 0 <= j < |sg0| => if j <= jisu0 then FDiv(sg1[j], d) else sg0[j])
  }

  /**
   * What the finished loop promises about the connection polynomial copied
   * into sigma: cut at its degree it generates the syndromes, and its
   * products with the syndromes are those of sg1.
   */
  lemma BMFinish(s: seq<bv8>, sg1: seq<bv8>, jisu1: int, sigma: seq<bv8>)
    requires |sg1| == |s| && 2 <= |s| && 0 <= jisu1 <= |s| / 2 && Deg(sg1, jisu1)
    requires Annihilates(sg1, s, jisu1, |s|)
    requires |sigma| == |s| / 2 + 2
    requires forall i :: 0 <= i < |s| && i < |sigma| ==> sigma[i] == sg1[i]
    ensures Annihilates(sigma[..jisu1 + 1], s, jisu1, |s|)
    ensures forall k :: Conv(sg1, s, |s|, k) == Conv(sigma, s, jisu1 + 1, k)
  {
    var c := sigma[..jisu1 + 1];
    forall k
      ensures Conv(sg1, s, |s|, k) == Conv(sigma, s, jisu1 + 1, k)
      ensures Conv(c, s, |c|, k) == Conv(sigma, s, jisu1 + 1, k)
    {
      ConvSame(sigma, sg1, s, jisu1 + 1, k);
      ConvSame(c, sigma, s, jisu1 + 1, k);
      ConvTail(sg1, s, jisu1 + 1, |s|, k);
    }
  }

  /** The syndromes of a received codeword: its values at α^0 … α^(npar-1). */
  ghost function Syndromes(data: seq<bv8>, npar: nat): (s: seq<bv8>)
    ensures |s| == npar
  {
    seq(npar, i requires 0 <= i < npar => Eval(data, Exp(i)))
  }

  /** The first term of σ'(α^z), which is σ1. */
  lemma DerivStart(sigma: seq<bv8>, jisu: int, z: nat)
    requires 1 <= jisu < |sigma|
    ensures PowerSum(Derivative(sigma, jisu), z, 0, 1) == sigma[1]
  {
    assert Exp(0) == 1;
    TimesParity(1, sigma[1]);
    FMulOne(sigma[1]);
  }

  /** Two more terms of σ'(α^z): the odd one vanishes and the even one is σ<j+1>. */
  lemma DerivStep(sigma: seq<bv8>, jisu: int, z: nat, j: nat)
    requires 2 <= j < jisu < |sigma| && j % 2 == 0
    ensures PowerSum(Derivative(sigma, jisu), z, 0, j + 1) ==
      Add(PowerSum(Derivative(sigma, jisu), z, 0, j - 1), FMul(sigma[j + 1], Exp((z * j) % 255)))
  {
    var d := Derivative(sigma, jisu);
    DerivPair(sigma, jisu, j);
    PowerSumSkip(d, z, j, sigma[j + 1]);
  }

  /** Entry j - 1 of the derivative (an odd power) is zero, entry j is σ_(j+1). */
  lemma DerivPair(sigma: seq<bv8>, jisu: int, j: nat)
    requires 2 <= j < jisu < |sigma| && j % 2 == 0
    ensures Derivative(sigma, jisu)[j - 1] == 0 && Derivative(sigma, jisu)[j] == sigma[j + 1]
  {
    TimesParity(j, sigma[j]);
    TimesParity(j + 1, sigma[j + 1]);
  }

  /** Two more terms of a power sum whose first is zero add just the second. */
  lemma PowerSumSkip(d: seq<bv8>, z: nat, j: nat, b: bv8)
    requires 1 <= j < |d| && d[j - 1] == 0 && d[j] == b
    ensures PowerSum(d, z, 0, j + 1) == Add(PowerSum(d, z, 0, j - 1), FMul(b, Exp((z * j) % 255)))
  {
    var u, w := (z * (j - 1)) % 255, (z * j) % 255;
    assert PowerSum(d, z, 0, j) == Add(PowerSum(d, z, 0, j - 1), FMul(0, Exp(u)));
    assert PowerSum(d, z, 0, j + 1) == Add(PowerSum(d, z, 0, j), FMul(b, Exp(w)));
  }

  /** The last term of σ'(α^z) for even jisu vanishes. */
  lemma DerivOdd(sigma: seq<bv8>, jisu: int, z: nat, j: nat)
    requires 2 <= j == jisu < |sigma| && j % 2 == 0
    ensures PowerSum(Derivative(sigma, jisu), z, 0, j) == PowerSum(Derivative(sigma, jisu), z, 0, j - 1)
  {
    TimesParity(j, sigma[j]);
  }

  /** The locators rs are stored from pos[jisu - 1] downwards. */
  ghost predicate Stored(pos: seq<bv8>, jisu: int, rs: seq<nat>)
  {
    |rs| < jisu <= |pos| && forall t :: 0 <= t < |rs| ==> pos[jisu - 1 - t] == Exp(rs[t])
  }

  /** Finding root i extends the roots by i and the sum of locators by α^i. */
  lemma RootFound(sigma: seq<bv8>, jisu: nat, i: nat, last: bv8, pv: bv8)
    requires 1 <= jisu < |sigma| && i < 255 && SigmaAt(sigma, jisu, i) == 0 && pv == Exp(i)
    requires last == Add(sigma[1], XorExp(Roots(sigma, jisu, i)))
    ensures Roots(sigma, jisu, i + 1) == Roots(sigma, jisu, i) + [i]
    ensures last ^ pv == Add(sigma[1], XorExp(Roots(sigma, jisu, i + 1)))
  {
    var rs := Roots(sigma, jisu, i);
    XorExpSnoc(rs, i);
    AddAssoc(sigma[1], XorExp(rs), pv);
  }

  /** Storing one more locator below the ones already stored. */
  lemma StoredSnoc(pos: seq<bv8>, jisu: int, rs: seq<nat>, r: nat)
    requires Stored(pos, jisu, rs) && |rs| + 1 < jisu
    ensures Stored(pos[jisu - 1 - |rs| := Exp(r)], jisu, rs + [r])
  {
  }

  /**
   * The state of the search before trying α^i: the roots below i are stored
   * from pos[jisu - 1] down to pos[posIdx + 1], last is σ1 minus their sum,
   * and pos is otherwise as it was (p0) from index jisu on.
   */
  ghost predicate Scan(pos: seq<bv8>, p0: seq<bv8>, sigma: seq<bv8>, jisu: int, i: int, posIdx: int, last: bv8)
  {
    1 <= jisu < |sigma| && 0 <= i <= 255 && 0 <= posIdx <= jisu - 1 && |pos| == |p0| &&
    |Roots(sigma, jisu, i)| == jisu - 1 - posIdx &&
    last == Add(sigma[1], XorExp(Roots(sigma, jisu, i))) &&
    Stored(pos, jisu, Roots(sigma, jisu, i)) &&
    forall k :: jisu <= k < |pos| ==> pos[k] == p0[k]
  }

  /**
   * What a successful decode found for the syndromes s of a codeword of the
   * given length: σ (σ0 = 1, degree jisu) generates the syndromes from
   * jisu on, ω is σ·S truncated, jisu - 1 of the locators are the roots of σ
   * found by the search in increasing order, the remaining one is σ1 minus
   * their sum, and every locator names an index of the codeword.
   */
  ghost predicate Located(s: seq<bv8>, length: int, jisu: int, sigma: seq<bv8>, omega: seq<bv8>, pos: seq<bv8>)
  {
    0 <= length <= 255 && 1 <= jisu < |sigma| && jisu <= |omega| && |pos| == jisu &&
    sigma[0] == 1 && Annihilates(sigma[..jisu + 1], s, jisu, |s|) &&
    (forall k :: 0 <= k < |omega| ==> omega[k] == Conv(sigma, s, jisu + 1, k)) &&
    jisu - 1 <= |Roots(sigma, jisu, length)| && pos[0] == LastLocator(sigma, jisu, length) &&
    (forall t :: 0 <= t < jisu - 1 ==> pos[jisu - 1 - t] == Exp(Roots(sigma, jisu, length)[t])) &&
    InRange(pos, jisu, length, length)
  }

  class RsDecode {
    /** The number of parity symbols the syndromes are taken over. */
    const npar: int
    /** The shared field tables. */
    const galois: Galois

    ghost predicate Valid()
    {
      galois.Valid()
    }

    constructor (npar: int, galois: Galois)
      requires galois.Valid()
      ensures this.npar == npar && this.galois == galois && Valid()
    {
      this.npar := npar;
      this.galois := galois;
    }

    /** The discrepancy of step n: coefficient n of sg1(z)·S(z), summed over the degree of sg1. */
    method Discrepancy(sg1: seq<bv8>, syn: seq<bv8>, n: int, jisu1: int) returns (d: bv8)
      requires Valid() && 0 <= jisu1 <= n < |syn| && jisu1 < |sg1| && Deg(sg1, jisu1) && sg1[0] == 1
      ensures d == Conv(sg1, syn, |sg1|, n)
    {
      d := syn[n];
      FMulOne(syn[n]);
      var i := 1;
      while i <= jisu1
        invariant 1 <= i <= jisu1 + 1
        invariant d == Conv(sg1, syn, i, n)
      {
        d := d ^ galois.Mul(sg1[i], syn[n - i]);
        i := i + 1;
      }
      ConvTail(sg1, syn, jisu1 + 1, |sg1|, n);
    }

    /** wk := sg1 + d·sg0 over the coefficients 0 .. n, with d = α^logd. */
    method AddScaled(sg1: seq<bv8>, sg0: seq<bv8>, logd: int, n: int, ghost d: bv8) returns (wk: seq<bv8>)
      requires Valid() && |sg0| == |sg1| && 0 <= n < |sg1| && 0 <= logd < 255 && Exp(logd) == d
      ensures wk == Combine(sg1, sg0, d, n)
    {
      wk := seq(|sg1|, _ => 0);
      var i := 0;
      while i <= n
        invariant 0 <= i <= n + 1 && |wk| == |sg1|
        invariant forall j :: 0 <= j < |wk| ==> wk[j] == if j < i then Add(sg1[j], FMul(sg0[j], d)) else 0
      {
        wk := wk[i := sg1[i] ^ galois.MulExp(sg0[i], logd)];
        i := i + 1;
      }
    }

    /** sg0 := sg1 / d over the coefficients 0 .. jisu0, with d = α^logd. */
    method DivideInto(sg0: seq<bv8>, sg1: seq<bv8>, logd: int, jisu0: int, ghost d: bv8) returns (sg0': seq<bv8>)
      requires Valid() && |sg0| == |sg1| && 0 <= jisu0 < |sg1| && 0 <= logd < 255 && Exp(logd) == d && d != 0
      ensures sg0' == Rescale(sg1, sg0, d, jisu0)
    {
      sg0' := sg0;
      var i := 0;
      while i <= jisu0
        invariant 0 <= i <= jisu0 + 1 && |sg0'| == |sg0|
        invariant forall j :: 0 <= j < |sg0'| ==> sg0'[j] == if j < i then FDiv(sg1[j], d) else sg0[j]
      {
        var q := galois.DivExp(sg1[i], logd);
        FMulCancel(q, FDiv(sg1[i], d), d);
        sg0' := sg0'[i := q];
        i := i + 1;
      }
    }

    /**
     * One iteration n of the Berlekamp–Massey loop: the discrepancy, the
     * update of σ and, when the degree grows, of the auxiliary polynomial;
     * ok is false when the degree would exceed npar / 2.
     */
    method MbmStep(syn: seq<bv8>, n: int, sg0: seq<bv8>, sg1: seq<bv8>, jisu0: int, jisu1: int, m: int, ghost g: int)
      returns (ok: bool, sg0': seq<bv8>, sg1': seq<bv8>, jisu0': int, jisu1': int, m': int, ghost g': int)
      requires Valid() && |syn| == npar && n < npar && Head(syn, n, sg0, sg1, jisu0, jisu1, m, g)
      ensures ok ==> Head(syn, n + 1, sg0', sg1', jisu0', jisu1', m', g') == true
      ensures !ok ==> !AllZero(syn, npar)
    {
      ok, sg0', sg1', jisu0', jisu1', m', g' := true, sg0, sg1, jisu0, jisu1, m, g;
      var d := Discrepancy(sg1, syn, n, jisu1);
      if d == 0 {
        NextKeep(syn, n, sg0, sg1, jisu0, jisu1, m, g);
        sg0' := ShiftUp(sg0, ShiftCount(sg0, jisu0));
        jisu0' := jisu0 + 1;
        return;
      }
      var logd := galois.ToLog(d);
      var wk := AddScaled(sg1, sg0, logd, n, d);
      var js := n - m;
      if js <= jisu1 {
        NextAdjust(syn, n, sg0, sg1, jisu0, jisu1, m, g, d, wk);
        sg1' := wk;
        sg0' := ShiftUp(sg0, ShiftCount(sg0, jisu0));
        jisu0' := jisu0 + 1;
        return;
      }
      m' := n - jisu1;
      g' := jisu1;
      jisu1' := js;
      if jisu1' > npar / 2 {
        StepNonZero(syn, n, sg0, sg1, jisu0, jisu1, m, g, d);
        ok := false;
        return;
      }
      StepRoom(syn, n, sg0, sg1, jisu0, jisu1, m, g);
      var q := DivideInto(sg0, sg1, logd, jisu0, d);
      NextLengthen(syn, n, sg0, sg1, jisu0, jisu1, m, g, d, wk, q);
      sg1' := wk;
      sg0' := ShiftUp(q, ShiftCount(q, js));
      jisu0' := js + 1;
    }

    /**
     * Modified Berlekamp–Massey: from the npar syndromes, the error locator
     * σ (into sigma, σ0 = 1, degree the result) and the evaluator
     * ω = σ·S mod z^|omega| (into omega). The result is -1 when the degree
     * would exceed npar / 2.
     */
    method CalcSigmaMBM(sigma: array<bv8>, omega: array<bv8>, syn: seq<bv8>) returns (r: int)
      requires Valid() && 2 <= npar && |syn| == npar
      requires sigma.Length == npar / 2 + 2 && omega.Length == npar / 2 + 1 && sigma != omega
      modifies sigma, omega
      ensures r == -1 || 0 <= r <= npar / 2
      ensures r == 0 <==> AllZero(syn, npar)
      ensures r >= 0 ==> sigma[0] == 1 && forall i :: r < i < npar && i < sigma.Length ==> sigma[i] == 0
      ensures r >= 0 ==> Annihilates(sigma[..r + 1], syn, r, npar)
      ensures r >= 0 ==> forall k :: 0 <= k < omega.Length ==> omega[k] == Conv(sigma[..], syn, r + 1, k)
      ensures r >= 0 ==> forall i :: npar <= i < sigma.Length ==> sigma[i] == old(sigma[i])
      ensures r < 0 ==> sigma[..] == old(sigma[..]) && omega[..] == old(omega[..])
    {
      var sg0: seq<bv8> := seq(npar, _ => 0)[1 := 1];
      var sg1: seq<bv8> := seq(npar, _ => 0)[0 := 1];
      var jisu0, jisu1, m := 1, 0, -1;
      ghost var g := 0;
      HeadStart(syn, sg0, sg1);
      var n := 0;
      while n < npar
        invariant Head(syn, n, sg0, sg1, jisu0, jisu1, m, g) == true
        modifies {}
      {
        var ok;
        ok, sg0, sg1, jisu0, jisu1, m, g := MbmStep(syn, n, sg0, sg1, jisu0, jisu1, m, g);
        if !ok {
          return -1;
        }
        n := n + 1;
      }
      galois.MulPoly(omega, sg1, syn);
      var len := if |sg1| < sigma.Length then |sg1| else sigma.Length;
      forall i | 0 <= i < len {
        sigma[i] := sg1[i];
      }
      BMFinish(syn, sg1, jisu1, sigma[..]);
      assert sigma[..jisu1 + 1] == sigma[..][..jisu1 + 1];
      r := jisu1;
    }
      /** σ(1/α^i): the inner loop of the Chien search. */
    method LocatorValue(sigma: seq<bv8>, jisu: int, i: int) returns (wk: bv8)
      requires Valid() && 1 <= jisu < |sigma| && 0 <= i < 255
      ensures wk == SigmaAt(sigma, jisu, i)
    {
      var z := 255 - i;
      wk := 1;
      var j := 1;
      while j <= jisu
        invariant 1 <= j <= jisu + 1
        invariant wk == Add(1, PowerSum(sigma, z, 1, j))
      {
        var t := galois.MulExp(sigma[j], (z * j) % 255);
        var a, b := wk, PowerSum(sigma, z, 1, j);
        assert a ^ t == 1 ^ (b ^ t);
        wk := wk ^ t;
        j := j + 1;
      }
    }

    /**
     * Chien search: tries α^i for i < n as error locators, i.e. 1/α^i as a
     * root of σ, storing each one found from pos[jisu - 1] downwards; once
     * jisu - 1 are found the last is σ1 minus their sum, and it must name an
     * index below n as well. The result is 0, or RS_CORRECT_ERROR when
     * fewer locators are found.
     */
    method ChienSearch(pos: array<bv8>, n: int, jisu: int, sigma: seq<bv8>) returns (r: int)
      requires Valid() && 1 <= jisu < |sigma| && jisu <= pos.Length && 0 <= n <= 255
      modifies pos
      ensures r == 0 || r == RS_CORRECT_ERROR
      ensures r == 0 <==> jisu - 1 <= |Roots(sigma, jisu, n)| && Log(LastLocator(sigma, jisu, n)) < n
      ensures r == 0 ==> pos[0] == LastLocator(sigma, jisu, n)
      ensures r == 0 ==> forall t :: 0 <= t < jisu - 1 ==> pos[jisu - 1 - t] == Exp(Roots(sigma, jisu, n)[t])
      ensures forall k :: jisu <= k < pos.Length ==> pos[k] == old(pos[k])
    {
      var last := sigma[1];
      if jisu == 1 {
        r := ChienLast(pos, n, jisu, sigma, last, 0, pos[..]);
        return;
      }
      var posIdx := jisu - 1;
      var i := 0;
      ghost var p0 := pos[..];
      while posIdx > 0 && i < n
        invariant 0 <= i <= n
        invariant Scan(pos[..], p0, sigma, jisu, i, posIdx, last) == true
      {
        posIdx, last := ChienStep(pos, jisu, sigma, i, posIdx, last, p0);
        i := i + 1;
      }
      if posIdx == 0 {
        r := ChienLast(pos, n, jisu, sigma, last, i, p0);
        return;
      }
      return RS_CORRECT_ERROR;
    }

    /** Step i of the search: when 1/α^i is a root of σ, α^i is stored at pos[posIdx]. */
    method ChienStep(pos: array<bv8>, jisu: int, sigma: seq<bv8>, i: int, posIdx: int, last: bv8, ghost p0: seq<bv8>)
      returns (posIdx': int, last': bv8)
      requires Valid() && 0 <= i < 255 && 0 < posIdx && Scan(pos[..], p0, sigma, jisu, i, posIdx, last) == true
      modifies pos
      ensures Scan(pos[..], p0, sigma, jisu, i + 1, posIdx', last') == true
    {
      posIdx', last' := posIdx, last;
      ghost var rs := Roots(sigma, jisu, i);
      var wk := LocatorValue(sigma, jisu, i);
      if wk == 0 {
        var pv := galois.ToExp(i);
        RootFound(sigma, jisu, i, last, pv);
        StoredSnoc(pos[..], jisu, rs, i);
        last' := last ^ pv;
        pos[posIdx] := pv;
        posIdx' := posIdx - 1;
      } else {
        assert Roots(sigma, jisu, i + 1) == rs + [];
        assert rs + [] == rs;
      }
    }

    /**
     * The end of a successful search, with jisu - 1 locators found below i:
     * the last locator is accepted when it names an index below n.
     */
    method ChienLast(pos: array<bv8>, n: int, jisu: int, sigma: seq<bv8>, last: bv8, ghost i: int, ghost p0: seq<bv8>) returns (r: int)
      requires Valid() && 1 <= jisu < |sigma| && jisu <= pos.Length && 0 <= i <= n <= 255
      requires |Roots(sigma, jisu, i)| == jisu - 1 && last == Add(sigma[1], XorExp(Roots(sigma, jisu, i)))
      requires Stored(pos[..], jisu, Roots(sigma, jisu, i)) == true
      requires |p0| == pos.Length && forall k :: jisu <= k < pos.Length ==> pos[k] == p0[k]
      modifies pos
      ensures r == 0 || r == RS_CORRECT_ERROR
      ensures r == 0 <==> jisu - 1 <= |Roots(sigma, jisu, n)| && Log(LastLocator(sigma, jisu, n)) < n
      ensures r == 0 ==> pos[0] == LastLocator(sigma, jisu, n)
      ensures r == 0 ==> forall t :: 0 <= t < jisu - 1 ==> pos[jisu - 1 - t] == Exp(Roots(sigma, jisu, n)[t])
      ensures forall k :: jisu <= k < pos.Length ==> pos[k] == p0[k]
    {
      LastFound(sigma, jisu, i, n);
      if galois.ToLog(last) >= n {
        return RS_CORRECT_ERROR;
      }
      pos[0] := last;
      return 0;
    }

    /** ω(z) at z = α^zlog: the first inner loop of the Forney step. */
    method OmegaValue(omega: seq<bv8>, jisu: int, zlog: int) returns (ov: bv8)
      requires Valid() && 1 <= jisu <= |omega| && 0 <= zlog <= 255
      ensures ov == PowerSum(omega, zlog, 0, jisu)
    {
      ov := omega[0];
      assert Exp(0) == 1;
      FMulOne(omega[0]);
      var j := 1;
      while j < jisu
        invariant 1 <= j <= jisu
        invariant ov == PowerSum(omega, zlog, 0, j)
      {
        ov := ov ^ galois.MulExp(omega[j], (zlog * j) % 255);
        j := j + 1;
      }
    }

    /**
     * σ'(z) at z = α^zlog: the second inner loop of the Forney step, which
     * visits only the even powers since the odd coefficients of the formal
     * derivative vanish in characteristic 2.
     */
    method DerivValue(sigma: seq<bv8>, jisu: int, zlog: int) returns (dv: bv8)
      requires Valid() && 1 <= jisu < |sigma| && 0 <= zlog <= 255
      ensures dv == PowerSum(Derivative(sigma, jisu), zlog, 0, jisu)
    {
      ghost var d := Derivative(sigma, jisu);
      dv := sigma[1];
      DerivStart(sigma, jisu, zlog);
      var j := 2;
      while j < jisu
        invariant 2 <= j <= jisu + 1 && j % 2 == 0
        invariant dv == PowerSum(d, zlog, 0, j - 1)
      {
        DerivStep(sigma, jisu, zlog, j);
        dv := dv ^ galois.MulExp(sigma[j + 1], (zlog * j) % 255);
        j := j + 2;
      }
      if j == jisu {
        DerivOdd(sigma, jisu, zlog, j);
      }
    }

    /** X·ω(1/X)/σ'(1/X) for the locator X = ps: the value XORed into the codeword. */
    method ForneyValue(ps: bv8, jisu: int, sigma: seq<bv8>, omega: seq<bv8>) returns (e: bv8)
      requires Valid() && 1 <= jisu < |sigma| && jisu <= |omega|
      ensures e == ErrorValue(sigma, omega, jisu, ps)
    {
      var zlog := 255 - galois.ToLog(ps);
      var ov := OmegaValue(omega, jisu, zlog);
      var dv := DerivValue(sigma, jisu, zlog);
      var q := galois.Div(ov, dv);
      if dv != 0 {
        FMulCancel(q, Quot(ov, dv), dv);
      }
      e := galois.Mul(ps, q);
    }

    /**
     * Forney's method: for each of the jisu locators, X·ω(1/X)/σ'(1/X) is
     * XORed into the codeword index the locator names.
     */
    method DoForney(data: array<bv8>, length: int, jisu: int, pos: seq<bv8>, sigma: seq<bv8>, omega: seq<bv8>)
      requires Valid() && 1 <= jisu < |sigma| && jisu <= |omega| && InRange(pos, jisu, length, data.Length) == true
      modifies data
      ensures data[..] == Corrected(old(data[..]), length, pos, sigma, omega, jisu, jisu)
    {
      ghost var d0 := data[..];
      var i := 0;
      while i < jisu
        invariant 0 <= i <= jisu
        invariant data[..] == Corrected(d0, length, pos, sigma, omega, jisu, i)
      {
        var e := ForneyValue(pos[i], jisu, sigma, omega);
        var p := galois.ToPos(length, pos[i]);
        data[p] := data[p] ^ e;
        i := i + 1;
      }
    }
      /**
     * Decodes the codeword data[..length] in place: -1 (RS_PERM_ERROR) when
     * the length is out of range, 0 when every syndrome is zero, -2
     * (RS_CORRECT_ERROR) when σ or its roots cannot be found, and otherwise
     * the number of errors, which are corrected unless noCorrect is set.
     * The ghost results are the locator, the evaluator and the error
     * locators the correction used.
     */
    method Decode(data: array<bv8>, length: int, noCorrect: bool)
      returns (r: int, ghost sigma: seq<bv8>, ghost omega: seq<bv8>, ghost pos: seq<bv8>)
      requires Valid() && 2 <= npar
      requires npar <= length <= 255 ==> length <= data.Length
      modifies data
      ensures r == RS_PERM_ERROR || r == RS_CORRECT_ERROR || 0 <= r <= npar / 2
      ensures r == RS_PERM_ERROR <==> length < npar || 255 < length
      ensures r == 0 <==> npar <= length <= 255 && AllZero(Syndromes(old(data[..length]), npar), npar)
      ensures r <= 0 || noCorrect ==> data[..] == old(data[..])
      ensures r > 0 ==> Located(Syndromes(old(data[..length]), npar), length, r, sigma, omega, pos) == true
      ensures r > 0 && !noCorrect ==> data[..] == Corrected(old(data[..]), length, pos, sigma, omega, r, r)
    {
      sigma, omega, pos := [], [], [];
      if length < npar || length > 255 {
        return RS_PERM_ERROR, sigma, omega, pos;
      }
      var syn := new bv8[npar];
      var clean := galois.CalcSyndrome(data[..], length, syn);
      assert syn[..] == Syndromes(data[..length], npar) by {
        assert data[..][..length] == data[..length];
      }
      if clean {
        return 0, sigma, omega, pos;
      }
      r, sigma, omega, pos := Correct(data, length, noCorrect, syn[..]);
    }

    /**
     * The part of decoding after non-zero syndromes syn were found: σ and ω
     * by Berlekamp–Massey, the locators by the Chien search, and the
     * correction by Forney's method unless noCorrect is set.
     */
    method Correct(data: array<bv8>, length: int, noCorrect: bool, syn: seq<bv8>)
      returns (r: int, ghost sigma: seq<bv8>, ghost omega: seq<bv8>, ghost pos: seq<bv8>)
      requires Valid() && 2 <= npar <= length <= 255 && length <= data.Length
      requires syn == Syndromes(data[..length], npar) && !AllZero(syn, npar)
      modifies data
      ensures r == RS_CORRECT_ERROR || 1 <= r <= npar / 2
      ensures r < 0 || noCorrect ==> data[..] == old(data[..])
      ensures r > 0 ==> Located(syn, length, r, sigma, omega, pos) == true
      ensures r > 0 && !noCorrect ==> data[..] == Corrected(old(data[..]), length, pos, sigma, omega, r, r)
    {
      sigma, omega, pos := [], [], [];
      var sg := new bv8[npar / 2 + 2];
      var om := new bv8[npar / 2 + 1];
      var jisu := CalcSigmaMBM(sg, om, syn);
      if jisu <= 0 {
        return RS_CORRECT_ERROR, sigma, omega, pos;
      }
      sigma, omega := sg[..], om[..];
      var ps := new bv8[jisu];
      var c := ChienSearch(ps, length, jisu, sg[..]);
      if c < 0 {
        return c, sigma, omega, pos;
      }
      pos := ps[..];
      assert Located(syn, length, jisu, sigma, omega, pos) by {
        LocatorsInRange(pos, sigma, jisu, length, length);
      }
      if !noCorrect {
        assert InRange(pos, jisu, length, data.Length);
        DoForney(data, length, jisu, ps[..], sg[..], om[..]);
      }
      r := jisu;
    }

    /**
     * Decoding with correction: the cases of Decode, and for a positive
     * result the codeword corrected at the located indices.
     */
    method DecodeCorrect(data: array<bv8>, length: int)
      returns (r: int, ghost sigma: seq<bv8>, ghost omega: seq<bv8>, ghost pos: seq<bv8>)
      requires Valid() && 2 <= npar
      requires npar <= length <= 255 ==> length <= data.Length
      modifies data
      ensures r == RS_PERM_ERROR || r == RS_CORRECT_ERROR || 0 <= r <= npar / 2
      ensures r == RS_PERM_ERROR <==> length < npar || 255 < length
      ensures r == 0 <==> npar <= length <= 255 && AllZero(Syndromes(old(data[..length]), npar), npar)
      ensures r <= 0 ==> data[..] == old(data[..])
      ensures r > 0 ==> Located(Syndromes(old(data[..length]), npar), length, r, sigma, omega, pos) == true
      ensures r > 0 ==> data[..] == Corrected(old(data[..]), length, pos, sigma, omega, r, r)
    {
      r, sigma, omega, pos := Decode(data, length, false);
    }

    /**
     * Decoding of the whole array, with correction: the cases of Decode,
     * and for a positive result the array corrected at the located indices.
     */
    method DecodeAll(data: array<bv8>)
      returns (r: int, ghost sigma: seq<bv8>, ghost omega: seq<bv8>, ghost pos: seq<bv8>)
      requires Valid() && 2 <= npar
      modifies data
      ensures r == RS_PERM_ERROR || r == RS_CORRECT_ERROR || 0 <= r <= npar / 2
      ensures r == RS_PERM_ERROR <==> data.Length < npar || 255 < data.Length
      ensures r == 0 <==> npar <= data.Length <= 255 && AllZero(Syndromes(old(data[..]), npar), npar)
      ensures r <= 0 ==> data[..] == old(data[..])
      ensures r > 0 ==> Located(Syndromes(old(data[..]), npar), data.Length, r, sigma, omega, pos) == true
      ensures r > 0 ==> data[..] == Corrected(old(data[..]), data.Length, pos, sigma, omega, r, r)
    {
      r, sigma, omega, pos := Decode(data, data.Length, false);
      assert old(data[..data.Length]) == old(data[..]);
    }
  }
}
