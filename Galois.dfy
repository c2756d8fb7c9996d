/**
 * The table-driven GF(256) arithmetic singleton of the Reed-Solomon decoder:
 * exponent and logarithm tables built once by repeated doubling, lookups
 * proved against the field of module Gf256, polynomial multiplication and
 * syndrome computation.
 */
module Galois {
  import opened Gf256
  import opened Poly
  import opened Bytes

  /** The reduction polynomial with its x^8 term dropped. */
  const POLYNOMIAL: bv16 := 0x1d

  /**
   * The lookup tables of the arithmetic singleton.  The source fills two
   * arrays once, in its private constructor, and never writes them again;
   * the model keeps them as immutable sequences filled by the same loop.
   */
  class Galois {
    /** α^i for i in [0, 510): the table holds the powers twice over. */
    const expTbl: seq<bv8>
    /** The exponent of each non-zero byte; entry 0 is never written and stays 0. */
    const logTbl: seq<int>

    ghost predicate Valid()
    {
      |expTbl| == 510 && |logTbl| == 256 &&
      (forall i :: 0 <= i < 510 ==> expTbl[i] == Exp(i)) &&
      (forall a: bv8 :: logTbl[a as int] == Log(a))
    }

    constructor ()
      ensures Valid()
    {
      var e := new bv8[510](_ => 0);
      var l := new int[256](_ => 0);
      InitGaloisTable(e, l);
      expTbl := e[..];
      logTbl := l[..];
    }

    /** One doubling as the table builder writes it, on a wider register. */
    static method Double(d: bv16) returns (n: bv16)
      requires d < 256
      ensures n < 256 && n as bv8 == Step(d as bv8)
    {
      n := d << 1;
      if n & 0x100 != 0 {
        n := (n ^ POLYNOMIAL) & 0xff;
      }
    }

    /** The log table entry for byte a once the first i powers have been recorded. */
    static ghost function LogSoFar(a: bv8, i: int): int
    {
      if a != 0 && Log(a) < i then Log(a) else 0
    }

    /** The first i powers are in both halves of the exponent table. */
    static ghost predicate ExpPrefix(e: seq<bv8>, i: int)
    {
      |e| == 510 && 0 <= i <= 255 &&
      (forall k :: 0 <= k < i ==> e[k] == Exp(k)) &&
      (forall k :: 255 <= k < 255 + i ==> e[k] == Exp(k - 255))
    }

    static lemma ExpPrefixStep(e: seq<bv8>, i: nat, v: bv8)
      requires i < 255 && v == Exp(i) && ExpPrefix(e, i)
      ensures ExpPrefix(e[255 + i := v][i := v], i + 1)
    {
    }

    /** Once all 255 powers are in, the upper half holds α^255 .. α^509 as well. */
    static lemma ExpPrefixFull(e: seq<bv8>)
      requires ExpPrefix(e, 255)
      ensures forall k :: 0 <= k < 510 ==> e[k] == Exp(k)
    {
      ExpPeriod();
      forall k | 255 <= k < 510
        ensures e[k] == Exp(k)
      {
        ExpShift(k - 255, 255);
      }
    }

    static ghost predicate LogPrefix(l: seq<int>, i: int)
    {
      |l| == 256 && forall a: bv8 :: l[a as int] == LogSoFar(a, i)
    }

    /** Recording α^i = d as the log of d extends the log table by one power. */
    static lemma LogPrefixStep(l: seq<int>, i: nat, d: bv8)
      requires i < 255 && d == Exp(i)
      requires LogPrefix(l, i)
      ensures LogPrefix(l[d as int := i], i + 1)
    {
      var l2, j := l[d as int := i], i + 1;
      forall a: bv8
        ensures l2[a as int] == LogSoFar(a, j)
      {
        LogEntryStep(l, i, d, a);
      }
    }

    static lemma LogEntryStep(l: seq<int>, i: nat, d: bv8, a: bv8)
      requires i < 255 && d == Exp(i)
      requires LogPrefix(l, i)
      ensures l[d as int := i][a as int] == LogSoFar(a, i + 1)
    {
      if a == d {
        LogExp(i);
      } else {
        assert a as int != d as int by {
          if a as int == d as int {
            ByteInt(a, d);
          }
        }
        assert l[a as int] == LogSoFar(a, i);
        assert a != 0 ==> Log(a) != i;
      }
    }

    /** With all 255 powers recorded, every entry is the logarithm (0 for byte 0). */
    static lemma LogPrefixFull(l: seq<int>)
      requires LogPrefix(l, 255)
      ensures forall a: bv8 :: l[a as int] == Log(a)
    {
      forall a: bv8
        ensures l[a as int] == Log(a)
      {
        assert l[a as int] == LogSoFar(a, 255);
      }
    }

    /** Builds both tables from a zero-filled start by repeated doubling. */
    static method InitGaloisTable(expTbl: array<bv8>, logTbl: array<int>)
      requires expTbl.Length == 510 && logTbl.Length == 256
      requires forall k :: 0 <= k < 256 ==> logTbl[k] == 0
      modifies expTbl, logTbl
      ensures forall i :: 0 <= i < 510 ==> expTbl[i] == Exp(i)
      ensures forall a: bv8 :: logTbl[a as int] == Log(a)
    {
      var d: bv16 := 1;
      var i := 0;
      while i < 255
        invariant 0 <= i <= 255
        invariant d < 256 && d as bv8 == Exp(i)
        invariant ExpPrefix(expTbl[..], i)
        invariant LogPrefix(logTbl[..], i)
      {
        var v := d as bv8;
        ghost var e := expTbl[..];
        ExpPrefixStep(e, i, v);
        expTbl[255 + i] := v;
        expTbl[i] := v;
        assert expTbl[..] == e[255 + i := v][i := v];
        ghost var before := logTbl[..];
        NarrowWiden(d);
        LogPrefixStep(before, i, v);
        logTbl[d as int] := i;
        assert logTbl[..] == before[v as int := i];
        d := Double(d);
        i := i + 1;
      }
      ExpPrefixFull(expTbl[..]);
      LogPrefixFull(logTbl[..]);
    }

    /** Scalar to vector: α^a. */
    function ToExp(a: int): (r: bv8)
      requires Valid() && 0 <= a < 510
      ensures r == Exp(a) && r == Exp(a % 255)
    {
      ExpPeriod();
      ExpMod(a, 255);
      expTbl[a]
    }

    /** Vector to scalar: the exponent of a non-zero byte. */
    function ToLog(a: bv8): (r: int)
      requires Valid()
      ensures r == Log(a)
      ensures 0 <= r < 255
      ensures a != 0 ==> Exp(r) == a
      ensures a == 0 ==> r == 0
    {
      logTbl[a as int]
    }

    /** The index in a codeword of `length` bytes whose error locator is `a`. */
    function ToPos(length: int, a: bv8): (r: int)
      requires Valid()
      ensures length - 255 <= r <= length - 1
      ensures a != 0 ==> Exp(length - 1 - r) == a
    {
      length - 1 - ToLog(a)
    }

    /** a * b by adding logarithms. */
    function Mul(a: bv8, b: bv8): (r: bv8)
      requires Valid()
      ensures r == FMul(a, b)
    {
      if a == 0 || b == 0 then 0
      else
        expTbl[ToLog(a) + ToLog(b)]
    }

    /** a * α^b. */
    function MulExp(a: bv8, b: int): (r: bv8)
      requires Valid()
      requires a != 0 ==> 0 <= ToLog(a) + b < 510
      ensures r == 0 <==> a == 0
      ensures a != 0 ==> Log(r) == (Log(a) + b) % 255
      ensures b >= 0 ==> r == FMul(a, Exp(b))
    {
      if a == 0 then 0
      else
        var s := ToLog(a) + b;
        LogExpMod(s);
        if b >= 0 then FMulByPower(a, b); expTbl[s] else expTbl[s]
    }

    /** a / b; the table lookup returns a itself when b is 0. */
    function Div(a: bv8, b: bv8): (r: bv8)
      requires Valid()
      ensures r == 0 <==> a == 0
      ensures b == 0 ==> r == a
      ensures b != 0 ==> FMul(r, b) == a
    {
      if a == 0 then 0
      else
        var s := ToLog(a) - ToLog(b) + 255;
        ExpQuotient(a, b);
        expTbl[s]
    }

    /** a / α^b. */
    function DivExp(a: bv8, b: int): (r: bv8)
      requires Valid()
      requires a != 0 ==> 0 <= ToLog(a) - b + 255 < 510
      ensures r == 0 <==> a == 0
      ensures a != 0 ==> (Log(r) + b) % 255 == Log(a)
      ensures b >= 0 ==> FMul(r, Exp(b)) == a
    {
      if a == 0 then 0
      else
        var s := ToLog(a) - b + 255;
        assert Log(expTbl[s]) == s % 255 by {
          LogExpMod(s);
        }
        assert (s % 255 + b) % 255 == Log(a) by {
          SubMod(Log(a), b);
        }
        if b >= 0 then ExpQuotientPower(a, b); expTbl[s] else expTbl[s]
    }

    /** Subtracting b with a bias of 255 and adding b back returns l, modulo 255. */
    static lemma SubMod(l: int, b: int)
      requires 0 <= l < 255 && 0 <= l - b + 255 < 510
      ensures ((l - b + 255) % 255 + b) % 255 == l
    {
      var t := l - b + 255;
      if t < 255 {
        assert t % 255 + b == l + 255;
      } else {
        assert t % 255 + b == l;
      }
    }

    /** 1 / a; the lookup yields 1 for a = 0. */
    function Inv(a: bv8): (r: bv8)
      requires Valid()
      ensures a == 0 ==> r == 1
      ensures a != 0 ==> FMul(a, r) == 1
    {
      var s := 255 - ToLog(a);
      ExpPeriod();
      FMulPowers(Log(a), s);
      expTbl[s]
    }
  
    /** The exponent table holds the 255 powers twice over. */
    lemma ExpTableRepeats(i: int)
      requires Valid() && 0 <= i < 255
      ensures expTbl[i] == expTbl[255 + i]
    {
      ExpPeriod();
      ExpShift(i, 255);
    }

    /** The log table inverts the lower half of the exponent table. */
    lemma LogOfExp(i: int)
      requires Valid() && 0 <= i < 255
      ensures ToLog(expTbl[i]) == i
    {
      LogExp(i);
    }

    /** The lower half of the exponent table lists every non-zero byte exactly once. */
    lemma ExpTablePermutation(a: bv8)
      requires Valid()
      ensures a != 0 <==> exists i :: 0 <= i < 255 && expTbl[i] == a
      ensures forall i, j :: 0 <= i < j < 255 ==> expTbl[i] != expTbl[j]
    {
      if a != 0 {
        ExpSurjective(a);
      }
      forall i, j | 0 <= i < j < 255
        ensures expTbl[i] != expTbl[j]
      {
        if expTbl[i] == expTbl[j] {
          ExpInjective(i, j);
        }
      }
    }

    lemma MulZeroComm(a: bv8, b: bv8)
      requires Valid()
      ensures Mul(a, b) == 0 <==> a == 0 || b == 0
      ensures Mul(a, b) == Mul(b, a)
    {
      FMulComm(a, b);
    }

    /** Division undoes multiplication, and the inverse is a multiplicative inverse. */
    lemma DivMul(a: bv8, b: bv8)
      requires Valid() && b != 0
      ensures Div(Mul(a, b), b) == a
      ensures a != 0 ==> Mul(a, Inv(a)) == 1
    {
      FMulCancel(Div(Mul(a, b), b), a, b);
    }

    /** For an exponent in [0, 255), mulExp is mul by the power and divExp undoes it. */
    lemma MulExpDivExp(a: bv8, e: int)
      requires Valid() && 0 <= e < 255
      ensures MulExp(a, e) == Mul(a, ToExp(e))
      ensures DivExp(MulExp(a, e), e) == a
    {
      var m := MulExp(a, e);
      FMulCancel(DivExp(m, e), a, Exp(e));
    }

    /** s holds the first n partial products, coefficient by coefficient. */
    static ghost predicate ConvPrefix(s: seq<bv8>, a: seq<bv8>, b: seq<bv8>, n: nat)
      requires n <= |a|
    {
      forall k :: 0 <= k < |s| ==> s[k] == Conv(a, b, n, k)
    }

    /** Row ia of the product has been added to coefficients ia .. ia + ib - 1. */
    static ghost predicate RowPrefix(s: seq<bv8>, a: seq<bv8>, b: seq<bv8>, ia: nat, ib: int)
      requires ia < |a|
    {
      forall k :: 0 <= k < |s| ==>
        s[k] == if ia <= k < ia + ib then Conv(a, b, ia + 1, k) else Conv(a, b, ia, k)
    }

    static lemma RowStart(s: seq<bv8>, a: seq<bv8>, b: seq<bv8>, ia: nat)
      requires ia < |a| && ConvPrefix(s, a, b, ia)
      ensures RowPrefix(s, a, b, ia, 0)
    {
    }

    static lemma RowStep(s: seq<bv8>, a: seq<bv8>, b: seq<bv8>, ia: nat, ib: nat, v: bv8)
      requires ia < |a| && ib < |b| && ia + ib < |s|
      requires RowPrefix(s, a, b, ia, ib) && v == FMul(a[ia], b[ib])
      ensures RowPrefix(s[ia + ib := s[ia + ib] ^ v], a, b, ia, ib + 1)
    {
    }

    static lemma RowSkipTerm(s: seq<bv8>, a: seq<bv8>, b: seq<bv8>, ia: nat, ib: nat)
      requires ia < |a| && ib < |b| && ia + ib < |s| && b[ib] == 0
      requires RowPrefix(s, a, b, ia, ib)
      ensures RowPrefix(s, a, b, ia, ib + 1)
    {
    }

    static lemma RowEnd(s: seq<bv8>, a: seq<bv8>, b: seq<bv8>, ia: nat, ib: int)
      requires ia < |a|
      requires ib == |b| || ib == |s| - ia || (ib == 0 && |s| - ia <= 0)
      requires RowRange(s, b, ia, ib) && RowPrefix(s, a, b, ia, ib)
      ensures ConvPrefix(s, a, b, ia + 1)
    {
    }

    static ghost predicate RowRange(s: seq<bv8>, b: seq<bv8>, ia: nat, ib: int)
    {
      0 <= ib <= |b| && (ib == 0 || ia + ib <= |s|)
    }

    static lemma RowSkip(s: seq<bv8>, a: seq<bv8>, b: seq<bv8>, ia: nat)
      requires ia < |a| && a[ia] == 0 && ConvPrefix(s, a, b, ia)
      ensures ConvPrefix(s, a, b, ia + 1)
    {
    }

    /** seki := a * b, truncated to the length of seki. */
    method MulPoly(seki: array<bv8>, a: seq<bv8>, b: seq<bv8>)
      requires Valid()
      modifies seki
      ensures forall k :: 0 <= k < seki.Length ==> seki[k] == Conv(a, b, |a|, k)
    {
      forall k | 0 <= k < seki.Length {
        seki[k] := 0;
      }
      var ia := 0;
      while ia < |a|
        invariant 0 <= ia <= |a|
        invariant ConvPrefix(seki[..], a, b, ia)
      {
        if a[ia] != 0 {
          var loga := ToLog(a[ia]);
          var ib2 := if |b| < seki.Length - ia then |b| else seki.Length - ia;
          var ib := 0;
          RowStart(seki[..], a, b, ia);
          while ib < ib2
            invariant RowRange(seki[..], b, ia, ib) && ib <= if ib2 < 0 then 0 else ib2
            invariant RowPrefix(seki[..], a, b, ia, ib)
          {
            if b[ib] != 0 {
              ghost var before := seki[..];
              var v := expTbl[loga + ToLog(b[ib])];
              assert v == Mul(a[ia], b[ib]);
              RowStep(before, a, b, ia, ib, v);
              seki[ia + ib] := seki[ia + ib] ^ v;
              assert seki[..] == before[ia + ib := before[ia + ib] ^ v];
            } else {
              RowSkipTerm(seki[..], a, b, ia, ib);
            }
            ib := ib + 1;
          }
          RowEnd(seki[..], a, b, ia, ib);
        } else {
          RowSkip(seki[..], a, b, ia);
        }
        ia := ia + 1;
      }
    }

    /** s[j] is the syndrome at α^j for every j < i. */
    static ghost predicate SyndromePrefix(s: seq<bv8>, p: seq<bv8>, i: int)
    {
      0 <= i <= |s| && forall j :: 0 <= j < i ==> s[j] == Eval(p, Exp(j))
    }

    static lemma SyndromeStep(s: seq<bv8>, p: seq<bv8>, i: nat, v: bv8)
      requires i < |s| && SyndromePrefix(s, p, i) && v == Eval(p, Exp(i))
      ensures SyndromePrefix(s[i := v], p, i + 1)
    {
    }

    lemma HornerStep(p: seq<bv8>, idx: nat, i: nat, wk: bv8)
      requires Valid() && idx < |p| && i <= 255
      requires wk == Eval(p[..idx], Exp(i))
      ensures p[idx] ^ MulExp(wk, i) == Eval(p[..idx + 1], Exp(i))
    {
      assert p[..idx + 1][..idx] == p[..idx];
    }

    static lemma OrZero(x: bv8, y: bv8)
      ensures x | y == 0 <==> x == 0 && y == 0
    {
    }

    /**
     * syn[i] := data[..length] evaluated at α^i; the result is whether every
     * syndrome is zero.
     */
    method CalcSyndrome(data: seq<bv8>, length: int, syn: array<bv8>) returns (r: bool)
      requires Valid()
      requires length <= |data| && syn.Length <= 256
      modifies syn
      ensures forall i :: 0 <= i < syn.Length ==> syn[i] == Eval(data[..if length < 0 then 0 else length], Exp(i))
      ensures r <==> forall i :: 0 <= i < syn.Length ==> syn[i] == 0
    {
      ghost var n := if length < 0 then 0 else length;
      var hasErr: bv8 := 0;
      var i := 0;
      while i < syn.Length
        invariant SyndromePrefix(syn[..], data[..n], i)
        invariant hasErr == 0 <==> forall j :: 0 <= j < i ==> syn[j] == 0
      {
        var wk: bv8 := 0;
        var idx := 0;
        ghost var before := syn[..];
        while idx < length
          invariant 0 <= idx <= n
          invariant wk == Eval(data[..idx], Exp(i))
          invariant syn[..] == before
        {
          HornerStep(data, idx, i, wk);
          wk := data[idx] ^ (if wk == 0 then 0 else expTbl[ToLog(wk) + i]);
          idx := idx + 1;
        }
        assert data[..n][..idx] == data[..n];
        SyndromeStep(before, data[..n], i, wk);
        syn[i] := wk;
        assert syn[..] == before[i := wk];
        OrZero(hasErr, wk);
        hasErr := hasErr | wk;
        i := i + 1;
      }
      r := hasErr == 0;
    }
  }
}
