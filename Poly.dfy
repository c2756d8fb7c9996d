/**
 * Polynomials over GF(256) as byte sequences: Horner evaluation (the
 * syndrome of a received codeword) and the truncated product.
 */
module Poly {
  import opened Gf256

  /** Horner evaluation of p at x, with p[0] the highest coefficient. */
  ghost function Eval(p: seq<bv8>, x: bv8): bv8
  {
    if |p| == 0 then 0 else FMul(Eval(p[..|p| - 1], x), x) ^ p[|p| - 1]
  }

  lemma {:induction false} EvalZeros(p: seq<bv8>, x: bv8)
    requires forall k :: 0 <= k < |p| ==> p[k] == 0
    ensures Eval(p, x) == 0
    decreases |p|
  {
    if |p| > 0 {
      EvalZeros(p[..|p| - 1], x);
    }
  }

  /**
   * A single error of value v at index j of an n-byte codeword has syndrome
   * v * X^i at α^i, where X = α^(n-1-j) is the error locator of index j.
   */
  lemma EvalSingle(p: seq<bv8>, j: nat, i: nat)
    requires j < |p|
    requires forall k :: 0 <= k < |p| && k != j ==> p[k] == 0
    ensures Eval(p, Exp(i)) == FMul(p[j], Pow(Exp(|p| - 1 - j), i))
  {
    var e: nat := |p| - 1 - j;
    PowExp(e, i);
    EvalSingleExp(p, j, i, e);
  }

  lemma {:induction false} EvalSingleExp(p: seq<bv8>, j: nat, i: nat, e: nat)
    requires j < |p| && e == |p| - 1 - j
    requires forall k :: 0 <= k < |p| && k != j ==> p[k] == 0
    ensures Eval(p, Exp(i)) == FMul(p[j], Exp(e * i))
    decreases |p|
  {
    var m, x, c := |p| - 1, Exp(i), p[j];
    var q := p[..m];
    if j == m {
      assert Eval(q, x) == 0 by {
        EvalZeros(q, x);
      }
      assert Eval(p, x) == c;
      FMulOne(c);
    } else {
      var e': nat := e - 1;
      MulSucc(e', i);
      assert Eval(q, x) == FMul(c, Exp(e' * i)) by {
        EvalSingleExp(q, j, i, e');
      }
      assert Eval(p, x) == FMul(FMul(c, Exp(e' * i)), x) by {
        assert p[m] == 0;
      }
      assert FMul(FMul(c, Exp(e' * i)), x) == FMul(c, Exp(e * i)) by {
        FMulAssoc(c, Exp(e' * i), x);
        FMulPowers(e' * i, i);
      }
    }
  }

  lemma MulSucc(e: nat, i: nat)
    ensures e * i >= 0 && e * i + i == (e + 1) * i
  {
  }

  /** Addition in GF(256), which is XOR; sums of products are built from it. */
  function Add(x: bv8, y: bv8): bv8
  {
    x ^ y
  }

  /** The term a[i]·b[k-i] of coefficient k of a * b, or 0 when k - i is out of range. */
  ghost function Term(a: seq<bv8>, b: seq<bv8>, i: nat, k: int): bv8
    requires i < |a|
  {
    if 0 <= k - i < |b| then FMul(a[i], b[k - i]) else 0
  }

  /**
   * Coefficient k of the product of a and b, counting only the first n
   * coefficients of a.
   */
  ghost function Conv(a: seq<bv8>, b: seq<bv8>, n: nat, k: int): bv8
    requires n <= |a|
  {
    if n == 0 then 0 else Add(Conv(a, b, n - 1, k), Term(a, b, n - 1, k))
  }

  /** The product with the constant polynomial 1 is the polynomial itself. */
  lemma {:induction false} ConvOne(a: seq<bv8>, n: nat, k: int)
    requires n <= |a|
    ensures Conv(a, [1], n, k) == if 0 <= k < n then a[k] else 0
  {
    if n > 0 {
      ConvOne(a, n - 1, k);
      FMulOne(a[n - 1]);
    }
  }

  /** Coefficients beyond both degrees vanish. */
  lemma {:induction false} ConvDegree(a: seq<bv8>, b: seq<bv8>, n: nat, k: int)
    requires n <= |a| && (k < 0 || k >= n + |b| - 1)
    ensures Conv(a, b, n, k) == 0
  {
    if n > 0 {
      ConvDegree(a, b, n - 1, k);
    }
  }

  /** Right distributivity, from the left law and commutativity. */
  lemma FMulDistRight(a: bv8, b: bv8, c: bv8)
    ensures FMul(a ^ b, c) == FMul(a, c) ^ FMul(b, c)
  {
    FMulComm(a ^ b, c);
    FMulDist(c, a, b);
    FMulComm(a, c);
    FMulComm(b, c);
  }

  /** (a * c) * s = (a * s) * c. */
  lemma FMulSwap(a: bv8, c: bv8, s: bv8)
    ensures FMul(FMul(a, c), s) == FMul(FMul(a, s), c)
  {
    FMulAssoc(a, c, s);
    FMulComm(c, s);
    FMulAssoc(a, s, c);
  }

  /** Coefficients of a in [m, n) that are zero, or lie above k, do not contribute to coefficient k. */
  lemma {:induction false} ConvTail(a: seq<bv8>, b: seq<bv8>, m: nat, n: nat, k: int)
    requires m <= n <= |a|
    requires forall i :: m <= i < n ==> i > k || a[i] == 0
    ensures Conv(a, b, n, k) == Conv(a, b, m, k)
    decreases n
  {
    if n > m {
      ConvTail(a, b, m, n - 1, k);
    }
  }

  /** Only the first n coefficients of a are read. */
  lemma {:induction false} ConvSame(a: seq<bv8>, a': seq<bv8>, b: seq<bv8>, n: nat, k: int)
    requires n <= |a| && n <= |a'|
    requires forall i :: 0 <= i < n ==> a[i] == a'[i]
    ensures Conv(a, b, n, k) == Conv(a', b, n, k)
  {
    if n > 0 {
      ConvSame(a, a', b, n - 1, k);
      assert Term(a, b, n - 1, k) == Term(a', b, n - 1, k);
    }
  }

  /** Right distributivity over Add. */
  lemma AddDistRight(x: bv8, y: bv8, c: bv8)
    ensures FMul(Add(x, y), c) == Add(FMul(x, c), FMul(y, c))
  {
    FMulDistRight(x, y, c);
  }

  /** Scaling every coefficient of a by c scales every product coefficient by c. */
  lemma {:induction false} ConvScale(a: seq<bv8>, q: seq<bv8>, c: bv8, b: seq<bv8>, n: nat, k: int)
    requires n <= |a| && n <= |q|
    requires forall i :: 0 <= i < n ==> q[i] == FMul(a[i], c)
    ensures Conv(q, b, n, k) == FMul(Conv(a, b, n, k), c)
  {
    if n > 0 {
      var i := n - 1;
      ConvScale(a, q, c, b, i, k);
      TermScale(a, q, c, b, i, k);
      AddDistRight(Conv(a, b, i, k), Term(a, b, i, k), c);
    }
  }

  lemma TermScale(a: seq<bv8>, q: seq<bv8>, c: bv8, b: seq<bv8>, i: nat, k: int)
    requires i < |a| && i < |q| && q[i] == FMul(a[i], c)
    ensures Term(q, b, i, k) == FMul(Term(a, b, i, k), c)
  {
    if 0 <= k - i < |b| {
      FMulSwap(a[i], c, b[k - i]);
    }
  }

  /** The product is linear in its first factor: (a + c·e) * b = a * b + c·(e * b). */
  lemma {:induction false} ConvLin(a: seq<bv8>, e: seq<bv8>, w: seq<bv8>, c: bv8, b: seq<bv8>, n: nat, k: int)
    requires n <= |a| && n <= |e| && n <= |w|
    requires forall i :: 0 <= i < n ==> w[i] == Add(a[i], FMul(e[i], c))
    ensures Conv(w, b, n, k) == Add(Conv(a, b, n, k), FMul(Conv(e, b, n, k), c))
  {
    if n > 0 {
      var i := n - 1;
      ConvLin(a, e, w, c, b, i, k);
      TermLin(a, e, w, c, b, i, k);
      AddDistRight(Conv(e, b, i, k), Term(e, b, i, k), c);
      AddRegroup(Conv(a, b, i, k), FMul(Conv(e, b, i, k), c), Term(a, b, i, k), FMul(Term(e, b, i, k), c));
    }
  }

  lemma TermLin(a: seq<bv8>, e: seq<bv8>, w: seq<bv8>, c: bv8, b: seq<bv8>, i: nat, k: int)
    requires i < |a| && i < |e| && i < |w| && w[i] == Add(a[i], FMul(e[i], c))
    ensures Term(w, b, i, k) == Add(Term(a, b, i, k), FMul(Term(e, b, i, k), c))
  {
    if 0 <= k - i < |b| {
      AddDistRight(a[i], FMul(e[i], c), b[k - i]);
      FMulSwap(e[i], c, b[k - i]);
    }
  }

  /** (x + y) + (u + v) = (x + u) + (y + v). */
  lemma AddAssoc(x: bv8, y: bv8, z: bv8)
    ensures Add(Add(x, y), z) == Add(x, Add(y, z))
  {
  }

  lemma AddRegroup(x: bv8, y: bv8, u: bv8, v: bv8)
    ensures Add(Add(x, y), Add(u, v)) == Add(Add(x, u), Add(y, v))
  {
    var a, b, c, d := x ^ y, u ^ v, x ^ u, y ^ v;
    assert a ^ b == c ^ d;
  }

  /** Multiplying by x moves every product coefficient up one place. */
  lemma {:induction false} ConvShift(p: seq<bv8>, q: seq<bv8>, b: seq<bv8>, n: nat, k: int)
    requires n <= |p| && n < |q| && q[0] == 0
    requires forall i :: 0 <= i < n ==> q[i + 1] == p[i]
    ensures Conv(q, b, n + 1, k + 1) == Conv(p, b, n, k)
  {
    if n > 0 {
      ConvShift(p, q, b, n - 1, k);
    }
  }
}
