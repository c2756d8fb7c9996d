/**
 * The integer square root used for distances between image points: a
 * digit-by-digit method that fixes one bit of the root per round, from bit 15
 * down to bit 0, keeping the remainder `val - g*g` in `val`.
 */
module QRCodeUtility {
  import opened JavaInt

  /** r is the integer square root of n: the largest r whose square does not exceed n. */
  predicate IsIntSqrt(n: int, r: int)
  {
    0 <= r && r * r <= n < (r + 1) * (r + 1)
  }

  /** An integer square root is unique. */
  lemma {:induction false} IntSqrtUnique(n: int, r1: int, r2: int)
    requires IsIntSqrt(n, r1) && IsIntSqrt(n, r2)
    ensures r1 == r2
  {
    if r1 < r2 {
      SquareMono(r1 + 1, r2);
    } else if r2 < r1 {
      SquareMono(r2 + 1, r1);
    }
  }

  /** Squaring is monotonic on non-negative integers. */
  lemma SquareMono(a: int, b: int)
    requires 0 <= a <= b
    ensures a * a <= b * b
  {
    MulMono(a, a, b, b);
  }

  lemma MulMono(a: int, b: int, c: int, d: int)
    requires 0 <= a <= c && 0 <= b <= d
    ensures a * b <= c * d
  {
    assert a * b <= c * b;
    assert c * b <= c * d;
  }

  /**
   * Java's `sqrt(int val)`.  A negative argument yields 0; otherwise the
   * result is the integer square root.  The shifted trial value never leaves
   * the int range, so Java's `<<` is exact multiplication by 2^bshft here.
   * The do-while loop starts with b = 0x8000 > 0, so it is the `while` below.
   */
  method Sqrt(val: int32) returns (r: int32)
    ensures val < 0 ==> r == 0
    ensures val >= 0 ==> IsIntSqrt(val as int, r as int)
    ensures 0 <= r as int <= 46340
  {
    var g: int, v: int, b: int, bshft: int := 0, val as int, 0x8000, 15;
    ghost var u: int := 0x1_0000;
    Pow2Known();
    while b > 0
      invariant -1 <= bshft <= 15 && u == Pow2(bshft + 1) && b == u / 2
      invariant b == 0x8000 ==> g == 0
      invariant RootState(val as int, g, v, u)
      decreases bshft
    {
      Pow2Half(bshft);
      assert u == 2 * b;
      g, v := TryBit(val as int, g, v, b, bshft);
      bshft := bshft - 1;
      u := b;
      b := b / 2;
    }
    assert u == 1;
    RootDone(val as int, g, v);
    r := g as int32;
  }

  /** When every bit is decided, g is the root, and it is at most 46340 since val < 2^31. */
  lemma RootDone(val: int, g: int, v: int)
    requires val < 0x8000_0000 && RootState(val, g, v, 1)
    ensures val < 0 ==> g == 0
    ensures val >= 0 ==> IsIntSqrt(val, g)
    ensures 0 <= g <= 46340
  {
    if g > 46340 {
      SquareMono(46341, g);
    }
  }

  /**
   * The loop's state: v is the remainder val - g*g and the root lies in
   * [g, g + u), so u is the weight of the bits not yet decided; a negative
   * val keeps g at 0 and v at val.
   */
  predicate RootState(val: int, g: int, v: int, u: int)
  {
    && (val < 0 ==> g == 0 && v == val)
    && (val >= 0 ==> v == val - g * g && 0 <= g && g * g <= val < (g + u) * (g + u))
  }

  /**
   * One round of the loop: bit b = 2^bshft joins the root when the trial
   * value `((g << 1) + b) << bshft` still fits in the remainder v.
   */
  method TryBit(ghost val: int, g: int, v: int, b: int, bshft: int) returns (g1: int, v1: int)
    requires -0x8000_0000 <= val < 0x8000_0000
    requires 0 <= bshft <= 15 && b == Pow2(bshft) && b <= 0x8000 && (bshft < 15 ==> b <= 0x4000)
    requires b == 0x8000 ==> g == 0
    requires RootState(val, g, v, 2 * b)
    ensures RootState(val, g1, v1, b)
  {
    var temp := (2 * g + b) * Pow2(bshft);
    TrialFits(val, g, b);
    g1, v1 := g, v;
    if v >= temp {
      RootStep(val, g, b);
      g1, v1 := g + b, v - temp;
    } else if val >= 0 {
      BoundStep(val, g, b, v);
    }
  }

  lemma Pow2Half(k: int)
    requires 0 <= k <= 15
    ensures Pow2(k + 1) == 2 * Pow2(k) && Pow2(k + 1) / 2 == Pow2(k) && Pow2(k) / 2 == (if k == 0 then 0 else Pow2(k - 1))
    ensures Pow2(k) >= 1 && Pow2(k) <= 0x8000 && (k < 15 ==> Pow2(k) <= 0x4000)
  {
    Pow2Known();
    if k < 15 {
      Pow2Mono(k, 14);
    }
  }

  lemma Pow2Known()
    ensures Pow2(14) == 0x4000 && Pow2(15) == 0x8000 && Pow2(16) == 0x1_0000
  {
    assert Pow2(4) == 16;
    assert Pow2(8) == 256;
    assert Pow2(12) == 4096;
  }

  /** The trial value (2g+b)*b stays below 2^31, and above any negative argument. */
  lemma TrialFits(val: int, g: int, b: int)
    requires 1 <= b <= 0x8000 && 0 <= g
    requires b == 0x8000 ==> g == 0
    requires b < 0x8000 ==> b <= 0x4000
    requires val >= 0 ==> g * g <= val < 0x8000_0000
    requires val < 0 ==> g == 0
    ensures 0 < (2 * g + b) * b < 0x8000_0000
  {
    MulMono(1, 1, b, b);
    if g > 46340 {
      SquareMono(46341, g);
    }
    if b < 0x8000 {
      MulMono(2 * g + b, b, 2 * 46340 + 0x4000, 0x4000);
    }
  }

  /** Accepting bit b keeps the remainder and both bounds. */
  lemma RootStep(val: int, g: int, b: int)
    ensures val - g * g - (2 * g + b) * b == val - (g + b) * (g + b)
    ensures (g + b + b) * (g + b + b) == (g + 2 * b) * (g + 2 * b)
  {
  }

  /** Rejecting bit b tightens the upper bound to (g+b)^2. */
  lemma BoundStep(val: int, g: int, b: int, v: int)
    requires v == val - g * g && v < (2 * g + b) * b
    ensures val < (g + b) * (g + b)
  {
  }
}
