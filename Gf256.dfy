/**
 * The field GF(256) of QR Code error correction (ISO/IEC 18004, reduction
 * polynomial x^8 + x^4 + x^3 + x^2 + 1) and polynomials over it, as
 * mathematics: the reference the lookup tables of module Galois are proved
 * against.
 *
 * Field elements are bytes (bv8) and addition is XOR.  The doubling step
 * `Step` is the body of the table builder's loop, and `Exp(i)` is α^i as
 * that loop produces it.  α has order 255, so `Exp` is a bijection from
 * [0, 255) onto the non-zero bytes and `Log` is its inverse; the product
 * `FMul` adds logarithms and agrees with repeated doubling, which makes it
 * distribute over XOR.
 */
module Gf256 {
  import opened Bytes

  /**
   * Multiplication by α: shift left, and add the reduction polynomial when the
   * bit shifted out was set (written without a branch: d >> 7 is that bit).
   */
  function Step(d: bv8): bv8
  {
    (d << 1) ^ ((d >> 7) * 0x1d)
  }

  /** α^i, computed the way the table builder computes it. */
  function Exp(i: nat): (r: bv8)
    ensures r != 0
  {
    if i == 0 then 1 else Step(Exp(i - 1))
  }

  lemma StepInjective(a: bv8, b: bv8)
    requires Step(a) == Step(b)
    ensures a == b
  {
  }

  /** A few powers of α, each derived from the previous one by at most eight doublings. */
  lemma PowerCheckpoints()
    ensures Exp(1) != 1 && Exp(3) != 1 && Exp(5) != 1 && Exp(15) != 1
    ensures Exp(17) != 1 && Exp(51) != 1 && Exp(85) != 1
    ensures Exp(255) == 1
  {
    PowersTo85();
    PowersTo255();
  }

  lemma PowersTo64()
    ensures Exp(3) == 8 && Exp(5) == 32 && Exp(15) == 38 && Exp(17) == 152
    ensures Exp(51) == 10 && Exp(64) == 95
  {
    assert Exp(8) == 29;
    assert Exp(16) == 76;
    assert Exp(24) == 143;
    assert Exp(32) == 157;
    assert Exp(40) == 106;
    assert Exp(48) == 70;
    assert Exp(56) == 93;
  }

  lemma PowersTo85()
    ensures Exp(1) == 2 && Exp(3) == 8 && Exp(5) == 32 && Exp(15) == 38 && Exp(17) == 152
    ensures Exp(51) == 10 && Exp(85) == 214 && Exp(128) == 133
  {
    PowersTo64();
    assert Exp(72) == 101;
    assert Exp(80) == 253;
    assert Exp(88) == 254;
    assert Exp(96) == 217;
    assert Exp(104) == 13;
    assert Exp(112) == 129;
    assert Exp(120) == 59;
  }

  lemma PowersTo192()
    ensures Exp(192) == 130
  {
    PowersTo85();
    assert Exp(136) == 79;
    assert Exp(144) == 168;
    assert Exp(152) == 73;
    assert Exp(160) == 230;
    assert Exp(168) == 252;
    assert Exp(176) == 227;
    assert Exp(184) == 149;
  }

  lemma PowersTo255()
    ensures Exp(255) == 1
  {
    PowersTo192();
    assert Exp(200) == 28;
    assert Exp(208) == 81;
    assert Exp(216) == 195;
    assert Exp(224) == 18;
    assert Exp(232) == 247;
    assert Exp(240) == 44;
    assert Exp(248) == 27;
  }

  lemma ExpPeriod()
    ensures Exp(255) == 1
  {
    PowersTo255();
  }

  /** Once α^p = 1 the powers repeat with period p. */
  lemma {:induction false} ExpShift(i: nat, p: nat)
    requires Exp(p) == 1
    ensures Exp(i + p) == Exp(i)
  {
    if i > 0 {
      ExpShift(i - 1, p);
      assert Exp(i + p) == Step(Exp(i - 1 + p));
    }
  }

  lemma {:induction false} ExpMultiple(q: nat, r: nat, p: nat)
    requires Exp(p) == 1
    ensures Exp(q * p + r) == Exp(r)
  {
    if q > 0 {
      ExpMultiple(q - 1, r, p);
      ExpShift((q - 1) * p + r, p);
      assert (q - 1) * p + r + p == q * p + r;
    }
  }

  lemma ExpMod(i: nat, p: nat)
    requires p > 0 && Exp(p) == 1
    ensures Exp(i) == Exp(i % p)
  {
    ExpMultiple(i / p, i % p, p);
  }

  /** Equal powers differ by a multiple of the order: cancel common doublings. */
  lemma {:induction false} ExpCancel(i: nat, j: nat)
    requires i <= j && Exp(i) == Exp(j)
    ensures Exp(j - i) == 1
    decreases i
  {
    if i > 0 {
      StepInjective(Exp(i - 1), Exp(j - 1));
      ExpCancel(i - 1, j - 1);
    }
  }

  lemma DivisorsOf255(p: int)
    requires 1 <= p <= 255 && 255 % p == 0
    ensures p == 1 || p == 3 || p == 5 || p == 15 || p == 17 || p == 51 || p == 85 || p == 255
  {
  }

  /** α has order exactly 255: no smaller positive power is 1. */
  lemma {:induction false} ExpOrder(k: nat)
    requires 0 < k < 255
    ensures Exp(k) != 1
    decreases k
  {
    if Exp(k) == 1 {
      PowerCheckpoints();
      ExpMod(255, k);
      var r := 255 % k;
      if r == 0 {
        DivisorsOf255(k);
      } else {
        ExpOrder(r);
      }
    }
  }

  lemma ExpInjective(i: nat, j: nat)
    requires i < 255 && j < 255 && Exp(i) == Exp(j)
    ensures i == j
  {
    if i != j {
      var lo, hi := if i < j then i else j, if i < j then j else i;
      ExpCancel(lo, hi);
      ExpOrder(hi - lo);
    }
  }

  /** The powers α^0 .. α^254 reach every non-zero byte. */
  ghost function PowerValues(n: nat): set<int>
  {
    set i | 0 <= i < n :: Exp(i) as int
  }

  lemma {:induction false} PowerValuesCard(n: nat)
    requires n <= 255
    ensures |PowerValues(n)| == n
  {
    if n > 0 {
      PowerValuesCard(n - 1);
      assert PowerValues(n) == PowerValues(n - 1) + {Exp(n - 1) as int};
      if Exp(n - 1) as int in PowerValues(n - 1) {
        var i :| 0 <= i < n - 1 && Exp(i) as int == Exp(n - 1) as int;
        ByteInt(Exp(i), Exp(n - 1));
        ExpInjective(i, n - 1);
      }
    }
  }

  ghost function IntRange(lo: int, hi: int): (r: set<int>)
    ensures forall k :: k in r <==> lo <= k < hi
    ensures lo <= hi ==> |r| == hi - lo
    decreases hi - lo
  {
    if lo >= hi then {} else IntRange(lo, hi - 1) + {hi - 1}
  }

  lemma ExpSurjective(a: bv8)
    requires a != 0
    ensures exists i :: 0 <= i < 255 && Exp(i) == a
  {
    var all := IntRange(1, 256);
    var pw := PowerValues(255);
    PowerValuesInRange(255);
    PowerValuesCard(255);
    SubsetSameSize(pw, all);
    NonZeroInRange(a);
    var i :| 0 <= i < 255 && Exp(i) as int == a as int;
    ByteInt(Exp(i), a);
  }

  lemma NonZeroInRange(a: bv8)
    requires a != 0
    ensures a as int in IntRange(1, 256)
  {
  }


  lemma PowerValuesInRange(n: nat)
    ensures PowerValues(n) <= IntRange(1, 256)
  {
    forall k | k in PowerValues(n)
      ensures 1 <= k < 256
    {
      var i :| 0 <= i < n && Exp(i) as int == k;
    }
  }

  lemma SubsetSameSize(s: set<int>, t: set<int>)
    requires s <= t && |s| == |t|
    ensures s == t
  {
    assert |t - s| == |t| - |s| == 0;
  }

  /** The discrete logarithm: the exponent in [0, 255) of a non-zero byte, 0 for 0. */
  ghost function Log(a: bv8): (r: nat)
    ensures r < 255
    ensures a != 0 ==> Exp(r) == a
  {
    if a == 0 then 0 else ExpSurjective(a); var i :| 0 <= i < 255 && Exp(i) == a; i
  }

  lemma LogExp(i: nat)
    requires i < 255
    ensures Log(Exp(i)) == i
  {
    ExpInjective(Log(Exp(i)), i);
  }

  /** log(a * b) = log a + log b (mod 255) on the exponent side. */
  lemma ExpAdd(i: nat, j: nat)
    ensures Exp((i % 255 + j % 255) % 255) == Exp(i + j)
  {
    ExpPeriod();
    ExpMod(i + j, 255);
    ExpMod(i % 255 + j % 255, 255);
    ModAdd(i, j % 255);
    ModAdd(j, i);
  }

  /** Doubling distributes over addition (XOR) of field elements. */
  lemma StepLinear(a: bv8, b: bv8)
    ensures Step(a ^ b) == Step(a) ^ Step(b)
  {
  }

  /**
   * b * α^n by n doublings: the reference product that the table lookups
   * must agree with.
   */
  function StepN(b: bv8, n: nat): bv8
  {
    if n == 0 then b else Step(StepN(b, n - 1))
  }

  lemma {:induction false} StepNExp(j: nat, n: nat)
    ensures StepN(Exp(j), n) == Exp(j + n)
  {
    if n > 0 {
      StepNExp(j, n - 1);
    }
  }

  lemma {:induction false} StepNZero(n: nat)
    ensures StepN(0, n) == 0
  {
    if n > 0 {
      StepNZero(n - 1);
    }
  }

  lemma {:induction false} StepNLinear(b: bv8, c: bv8, n: nat)
    ensures StepN(b ^ c, n) == StepN(b, n) ^ StepN(c, n)
  {
    if n > 0 {
      StepNLinear(b, c, n - 1);
      StepLinear(StepN(b, n - 1), StepN(c, n - 1));
    }
  }

  lemma {:induction false} ModShift(w: nat, q: nat)
    ensures (255 * q + w) % 255 == w % 255
  {
    if q > 0 {
      ModShift(w, q - 1);
      assert 255 * q + w == 255 * (q - 1) + w + 255;
    }
  }

  /** Reducing one summand first does not change the sum modulo 255. */
  lemma ModAdd(u: nat, v: nat)
    ensures (u % 255 + v) % 255 == (u + v) % 255
  {
    var q := u / 255;
    assert u + v == 255 * q + (u % 255 + v);
    ModShift(u % 255 + v, q);
  }

  lemma LogInjective(x: bv8, y: bv8)
    requires x != 0 && y != 0 && Log(x) == Log(y)
    ensures x == y
  {
  }

  /** The logarithm of any power, reduced modulo the order. */
  lemma LogExpMod(s: nat)
    ensures Log(Exp(s)) == s % 255
  {
    ExpPeriod();
    ExpMod(s, 255);
    LogExp(s % 255);
  }

  /** The field product: the logarithms add. */
  ghost function FMul(a: bv8, b: bv8): (r: bv8)
    ensures r == 0 <==> a == 0 || b == 0
  {
    if a == 0 || b == 0 then 0 else Exp(Log(a) + Log(b))
  }

  lemma FMulLog(a: bv8, b: bv8)
    requires a != 0 && b != 0
    ensures Log(FMul(a, b)) == (Log(a) + Log(b)) % 255
  {
    LogExpMod(Log(a) + Log(b));
  }

  /** The product is b doubled log(a) times: shift-and-reduce multiplication. */
  lemma FMulIsStepN(a: bv8, b: bv8)
    requires a != 0
    ensures FMul(a, b) == StepN(b, Log(a))
  {
    if b == 0 {
      StepNZero(Log(a));
    } else {
      StepNExp(Log(b), Log(a));
    }
  }

  lemma FMulComm(a: bv8, b: bv8)
    ensures FMul(a, b) == FMul(b, a)
  {
  }

  lemma FMulOne(a: bv8)
    ensures FMul(a, 1) == a && FMul(1, a) == a
  {
    LogExp(0);
  }

  lemma FMulAssoc(a: bv8, b: bv8, c: bv8)
    ensures FMul(FMul(a, b), c) == FMul(a, FMul(b, c))
  {
    if a != 0 && b != 0 && c != 0 {
      var la, lb, lc := Log(a), Log(b), Log(c);
      FMulLog(a, b);
      FMulLog(b, c);
      FMulLog(FMul(a, b), c);
      FMulLog(a, FMul(b, c));
      ModAdd(la + lb, lc);
      ModAdd(lb + lc, la);
      LogInjective(FMul(FMul(a, b), c), FMul(a, FMul(b, c)));
    }
  }

  /** A non-zero factor cancels: x * b = y * b implies x = y. */
  lemma FMulCancel(x: bv8, y: bv8, b: bv8)
    requires b != 0 && FMul(x, b) == FMul(y, b)
    ensures x == y
  {
    if x != 0 && y != 0 {
      FMulLog(x, b);
      FMulLog(y, b);
      ModCancel(Log(x), Log(y), Log(b));
      LogInjective(x, y);
    }
  }

  lemma ModCancel(u: nat, v: nat, w: nat)
    requires u < 255 && v < 255 && (u + w) % 255 == (v + w) % 255
    ensures u == v
  {
  }

  /** Multiplication distributes over addition, which in GF(256) is XOR. */
  lemma FMulDist(a: bv8, b: bv8, c: bv8)
    ensures FMul(a, b ^ c) == FMul(a, b) ^ FMul(a, c)
  {
    if a != 0 {
      FMulIsStepN(a, b);
      FMulIsStepN(a, c);
      FMulIsStepN(a, b ^ c);
      StepNLinear(b, c, Log(a));
    }
  }

  lemma FMulPowers(i: nat, j: nat)
    ensures FMul(Exp(i), Exp(j)) == Exp(i + j)
  {
    LogExpMod(i);
    LogExpMod(j);
    ExpPeriod();
    ExpMod(i % 255 + j % 255, 255);
    ExpAdd(i, j);
  }

  /** a * α^b is a power of α with the exponents added. */
  lemma FMulByPower(a: bv8, b: nat)
    requires a != 0
    ensures FMul(a, Exp(b)) == Exp(Log(a) + b)
  {
    LogExpMod(b);
    ModAdd(b, Log(a));
    ExpPeriod();
    ExpMod(Log(a) + b, 255);
    ExpMod(Log(a) + b % 255, 255);
  }

  /** The quotient lookup of the tables, α^(log a - log b + 255), times b is a. */
  lemma ExpQuotient(a: bv8, b: bv8)
    requires a != 0
    ensures b != 0 ==> FMul(Exp(Log(a) - Log(b) + 255), b) == a
    ensures b == 0 ==> Exp(Log(a) - Log(b) + 255) == a
  {
    ExpPeriod();
    ExpShift(Log(a), 255);
    if b != 0 {
      var s := Log(a) - Log(b) + 255;
      LogExpMod(s);
      ModAdd(s, Log(b));
      ModShift(Log(a), 1);
    }
  }

  /** Field division: the unique x with x·b = a. */
  ghost function FDiv(a: bv8, b: bv8): (x: bv8)
    requires b != 0
    ensures FMul(x, b) == a
  {
    if a == 0 then 0 else ExpQuotient(a, b); Exp(Log(a) - Log(b) + 255)
  }

  lemma ExpQuotientPower(a: bv8, b: nat)
    requires a != 0 && Log(a) - b + 255 >= 0
    ensures FMul(Exp(Log(a) - b + 255), Exp(b)) == a
  {
    FMulPowers(Log(a) - b + 255, b);
    ExpPeriod();
    ExpShift(Log(a), 255);
  }

  /** x^e by repeated multiplication. */
  ghost function Pow(x: bv8, e: nat): bv8
  {
    if e == 0 then 1 else FMul(Pow(x, e - 1), x)
  }

  lemma {:induction false} PowExp(i: nat, e: nat)
    ensures Pow(Exp(i), e) == Exp(i * e)
  {
    if e > 0 {
      PowExp(i, e - 1);
      FMulPowers(i * (e - 1), i);
      assert i * (e - 1) + i == i * e;
    }
  }
}
