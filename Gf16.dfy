/**
 * GF(16) = GF(2)[α] / (α⁴ + α + 1), the field the BCH(15,5) decoder works in,
 * with an element held as its 4-bit code in a bv8 (bit k is the coefficient
 * of α^k). Addition is `^`; multiplication is the shift-and-add product Mul.
 * GfIsField shows the codes form a FieldAlgebra.Field, so the identities
 * proved there hold for them.
 */
module Gf16 {
  import opened FieldAlgebra

  /** Multiplication by α: shift left and reduce by α⁴ = α + 1. */
  function Times(a: bv8): (r: bv8)
    requires a < 16
    ensures r < 16
    ensures r == 0 <==> a == 0
  {
    if a & 8 == 0 then a << 1 else (a << 1) ^ 0x13
  }

  /** The product of the elements with codes a & 15 and b & 15: a·α^k summed over the bits k of b. */
  function Mul(a: bv8, b: bv8): (r: bv8)
    ensures r < 16
  {
    var a0 := a & 15;
    var a1 := Times(a0);
    var a2 := Times(a1);
    var a3 := Times(a2);
    (if b & 1 == 0 then 0 else a0) ^ (if b & 2 == 0 then 0 else a1) ^
    (if b & 4 == 0 then 0 else a2) ^ (if b & 8 == 0 then 0 else a3)
  }

  /** α^i. */
  function Exp(i: nat): (r: bv8)
    ensures 0 < r < 16
  {
    if i == 0 then 1 else Times(Exp(i - 1))
  }

  /** The codes of α^0 .. α^15; α has order 15. */
  lemma ExpValues()
    ensures Exp(0) == 1 && Exp(1) == 2 && Exp(2) == 4 && Exp(3) == 8
    ensures Exp(4) == 3 && Exp(5) == 6 && Exp(6) == 12 && Exp(7) == 11
    ensures Exp(8) == 5 && Exp(9) == 10 && Exp(10) == 7 && Exp(11) == 14
    ensures Exp(12) == 15 && Exp(13) == 13 && Exp(14) == 9 && Exp(15) == 1
  {
    assert Exp(4) == 3;
    assert Exp(8) == 5;
    assert Exp(12) == 15;
  }

  /** α^0 .. α^14 are pairwise distinct. */
  lemma ExpInjective(i: nat, j: nat)
    requires i < 15 && j < 15 && Exp(i) == Exp(j)
    ensures i == j
  {
    ExpValues();
    assert i == 0 || i == 1 || i == 2 || i == 3 || i == 4 || i == 5 || i == 6 || i == 7 ||
           i == 8 || i == 9 || i == 10 || i == 11 || i == 12 || i == 13 || i == 14;
    assert j == 0 || j == 1 || j == 2 || j == 3 || j == 4 || j == 5 || j == 6 || j == 7 ||
           j == 8 || j == 9 || j == 10 || j == 11 || j == 12 || j == 13 || j == 14;
  }

  /** α^(i+15) = α^i. */
  lemma {:induction false} ExpShift(i: nat)
    ensures Exp(i + 15) == Exp(i)
  {
    if i == 0 {
      ExpValues();
    } else {
      ExpShift(i - 1);
    }
  }

  /** Exponents of α count modulo 15. */
  lemma {:induction false} ExpPeriod(i: nat)
    ensures Exp(i % 15) == Exp(i)
    decreases i
  {
    if i >= 15 {
      ExpPeriod(i - 15);
      ExpShift(i - 15);
      assert (i - 15) % 15 == i % 15;
    }
  }


  /** The codes of the sixteen elements. */
  type Elem = x: bv8 | x < 16

  lemma MulComm(a: bv8, b: bv8)
    ensures Mul(a, b) == Mul(b, a)
  {
  }

  lemma MulDist(a: bv8, b: bv8, c: bv8)
    ensures Mul(a, b ^ c) == Mul(a, b) ^ Mul(a, c)
  {
  }

  lemma MulAssocLow(a: bv8, b: bv8, c: bv8)
    requires c < 8
    ensures Mul(Mul(a, b), c) == Mul(a, Mul(b, c))
  {
  }

  lemma MulAssocHigh(a: bv8, b: bv8, c: bv8)
    requires 8 <= c < 16
    ensures Mul(Mul(a, b), c) == Mul(a, Mul(b, c))
  {
  }

  /** Associativity, split on the top bit of c to keep each case small. */
  lemma MulAssoc(a: bv8, b: bv8, c: bv8)
    requires c < 16
    ensures Mul(Mul(a, b), c) == Mul(a, Mul(b, c))
  {
    if c < 8 {
      MulAssocLow(a, b, c);
    } else {
      MulAssocHigh(a, b, c);
    }
  }

  /** GF(16) has no zero divisors. */
  lemma MulDomain(a: bv8, b: bv8)
    requires a < 16 && b < 16
    ensures Mul(a, b) == 0 <==> a == 0 || b == 0
  {
  }

  /** Multiplying by α commutes with multiplying by a. */
  lemma TimesMul(a: bv8, b: bv8)
    requires b < 16
    ensures Mul(a, Times(b)) == Times(Mul(a, b))
  {
  }

  lemma MulOne(a: bv8)
    requires a < 16
    ensures Mul(a, 1) == a
  {
  }

  /** α^i·α^j = α^(i+j). */
  lemma {:induction false} ExpMul(i: nat, j: nat)
    ensures Mul(Exp(i), Exp(j)) == Exp(i + j)
  {
    if j == 0 {
      MulOne(Exp(i));
    } else {
      ExpMul(i, j - 1);
      TimesMul(Exp(i), Exp(j - 1));
    }
  }

  /** Addition of elements. */
  function Add(a: Elem, b: Elem): Elem
  {
    a ^ b
  }

  /** Multiplication of elements. */
  function Product(a: Elem, b: Elem): Elem
  {
    Mul(a, b)
  }

  lemma ProductComm()
    ensures forall a: Elem, b: Elem :: Product(a, b) == Product(b, a)
  {
    forall a: Elem, b: Elem
      ensures Product(a, b) == Product(b, a)
    {
      MulComm(a, b);
    }
  }

  lemma ProductAssoc()
    ensures forall a: Elem, b: Elem, c: Elem :: Product(Product(a, b), c) == Product(a, Product(b, c))
  {
    forall a: Elem, b: Elem, c: Elem
      ensures Product(Product(a, b), c) == Product(a, Product(b, c))
    {
      MulAssoc(a, b, c);
    }
  }

  lemma ProductDist()
    ensures forall a: Elem, b: Elem, c: Elem :: Product(a, Add(b, c)) == Add(Product(a, b), Product(a, c))
  {
    forall a: Elem, b: Elem, c: Elem
      ensures Product(a, Add(b, c)) == Add(Product(a, b), Product(a, c))
    {
      MulDist(a, b, c);
    }
  }

  lemma ProductDomain()
    ensures forall a: Elem, b: Elem :: Product(a, b) == 0 ==> a == 0 || b == 0
  {
    forall a: Elem, b: Elem
      ensures Product(a, b) == 0 ==> a == 0 || b == 0
    {
      MulDomain(a, b);
    }
  }

  /** GF(16) on element codes. */
  function GF(): (f: Field<Elem>)
    ensures f.zero == 0
  {
    Field(Add, Product, 0)
  }

  lemma GfAddLaws()
    ensures AddLaws(GF())
  {
    forall a: Elem, b: Elem
      ensures Add(a, b) == Add(b, a) && Add(a, 0) == a && Add(a, a) == 0
    {
    }
    forall a: Elem, b: Elem, c: Elem
      ensures Add(Add(a, b), c) == Add(a, Add(b, c))
    {
    }
  }

  lemma GfMulLaws()
    ensures MulLaws(GF())
  {
    ProductComm();
    ProductAssoc();
    ProductDist();
  }

  lemma GfNoZeroDivisors()
    ensures NoZeroDivisors(GF())
  {
    ProductDomain();
  }

  lemma GfIsField()
    ensures IsField(GF())
  {
    GfAddLaws();
    GfMulLaws();
    GfNoZeroDivisors();
  }
}
