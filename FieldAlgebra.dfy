/**
 * The polynomial identities behind the BCH(15,5) error locator, proved for any
 * commutative ring of characteristic 2 (a + a = 0) without zero divisors.
 * GF(16) is such a ring (Gf16.GfIsField). The identities: the locator built
 * from the elementary symmetric functions of x, y, z factors as
 * (t + x)(t + y)(t + z); and the power sums S1, S3, S5 of x, y, z determine
 * those functions by Newton's identities, which is how the decoder recovers
 * σ1, σ2, σ3 from the syndromes.
 */
module FieldAlgebra {

  /** Addition, multiplication and zero on elements of type E. */
  datatype Field<!E> = Field(add: (E, E) -> E, mul: (E, E) -> E, zero: E)

  /**
   * Markers, one per group of laws of IsField. A law is used only where its
   * marker appears, so the solver meets the laws one instance at a time,
   * through the lemmas below.
   */
  ghost predicate AddAt<E>(a: E, b: E, c: E) { true }
  ghost predicate MulAt<E>(a: E, b: E, c: E) { true }
  ghost predicate DomainAt<E>(a: E, b: E) { true }

  /** A commutative ring of characteristic 2 without zero divisors. */
  ghost predicate IsField<E(!new)>(f: Field<E>)
  {
    AddLaws(f) && MulLaws(f) && NoZeroDivisors(f)
  }

  /** Addition is commutative and associative, with identity zero and every element its own negative. */
  ghost predicate AddLaws<E(!new)>(f: Field<E>)
  {
    forall a: E, b: E, c: E {:trigger AddAt(a, b, c)} ::
      f.add(a, b) == f.add(b, a) && f.add(f.add(a, b), c) == f.add(a, f.add(b, c)) &&
      f.add(a, f.zero) == a && f.add(a, a) == f.zero
  }

  /** Multiplication is commutative and associative and distributes over addition. */
  ghost predicate MulLaws<E(!new)>(f: Field<E>)
  {
    forall a: E, b: E, c: E {:trigger MulAt(a, b, c)} ::
      f.mul(a, b) == f.mul(b, a) && f.mul(f.mul(a, b), c) == f.mul(a, f.mul(b, c)) &&
      f.mul(a, f.add(b, c)) == f.add(f.mul(a, b), f.mul(a, c))
  }

  /** A product is zero only when a factor is. */
  ghost predicate NoZeroDivisors<E(!new)>(f: Field<E>)
  {
    forall a: E, b: E {:trigger DomainAt(a, b)} ::
      f.mul(a, b) == f.zero ==> a == f.zero || b == f.zero
  }

  lemma AddComm<E(!new)>(f: Field<E>, a: E, b: E)
    requires IsField(f)
    ensures f.add(a, b) == f.add(b, a)
  {
    assert AddAt(a, b, a);
  }

  lemma AddAssoc<E(!new)>(f: Field<E>, a: E, b: E, c: E)
    requires IsField(f)
    ensures f.add(f.add(a, b), c) == f.add(a, f.add(b, c))
  {
    assert AddAt(a, b, c);
  }

  /** Zero is the identity on both sides. */
  lemma AddZero<E(!new)>(f: Field<E>, a: E)
    requires IsField(f)
    ensures f.add(a, f.zero) == a && f.add(f.zero, a) == a
  {
    assert AddAt(a, f.zero, a);
    assert AddAt(f.zero, a, a);
  }

  /** Characteristic 2. */
  lemma AddSelf<E(!new)>(f: Field<E>, a: E)
    requires IsField(f)
    ensures f.add(a, a) == f.zero
  {
    assert AddAt(a, a, a);
  }

  lemma MulComm<E(!new)>(f: Field<E>, a: E, b: E)
    requires IsField(f)
    ensures f.mul(a, b) == f.mul(b, a)
  {
    assert MulAt(a, b, a);
  }

  lemma MulAssoc<E(!new)>(f: Field<E>, a: E, b: E, c: E)
    requires IsField(f)
    ensures f.mul(f.mul(a, b), c) == f.mul(a, f.mul(b, c))
  {
    assert MulAt(a, b, c);
  }

  lemma Dist<E(!new)>(f: Field<E>, a: E, b: E, c: E)
    requires IsField(f)
    ensures f.mul(a, f.add(b, c)) == f.add(f.mul(a, b), f.mul(a, c))
  {
    assert MulAt(a, b, c);
  }

  lemma DistRight<E(!new)>(f: Field<E>, a: E, b: E, c: E)
    requires IsField(f)
    ensures f.mul(f.add(b, c), a) == f.add(f.mul(b, a), f.mul(c, a))
  {
    Dist(f, a, b, c);
    MulComm(f, f.add(b, c), a);
    MulComm(f, b, a);
    MulComm(f, c, a);
  }

  /** Zero annihilates. */
  lemma MulZero<E(!new)>(f: Field<E>, a: E)
    requires IsField(f)
    ensures f.mul(a, f.zero) == f.zero && f.mul(f.zero, a) == f.zero
  {
    Dist(f, a, f.zero, f.zero);
    AddZero(f, f.zero);
    AddSelf(f, f.mul(a, f.zero));
    MulComm(f, a, f.zero);
  }

  /** A product is zero exactly when a factor is. */
  lemma Domain<E(!new)>(f: Field<E>, a: E, b: E)
    requires IsField(f)
    ensures f.mul(a, b) == f.zero <==> a == f.zero || b == f.zero
  {
    assert DomainAt(a, b);
    MulZero(f, a);
    MulZero(f, b);
  }

  /** A sum is zero exactly when the two terms are equal. */
  lemma SumZero<E(!new)>(f: Field<E>, a: E, b: E)
    requires IsField(f)
    ensures f.add(a, b) == f.zero <==> a == b
  {
    AddSelf(f, a);
    if f.add(a, b) == f.zero {
      calc {
        a;
        { AddZero(f, a); }
        f.add(a, f.zero);
        { AddSelf(f, b); }
        f.add(a, f.add(b, b));
        { AddAssoc(f, a, b, b); }
        f.add(f.add(a, b), b);
        { AddZero(f, b); }
        b;
      }
    }
  }

  /** Adding the same term twice changes nothing. */
  lemma AddTwice<E(!new)>(f: Field<E>, a: E, b: E)
    requires IsField(f)
    ensures f.add(f.add(a, b), b) == a
  {
    AddAssoc(f, a, b, b);
    AddSelf(f, b);
    AddZero(f, a);
  }

  /** A non-zero factor cancels. */
  lemma Cancel<E(!new)>(f: Field<E>, a: E, b: E, c: E)
    requires IsField(f) && c != f.zero && f.mul(a, c) == f.mul(b, c)
    ensures a == b
  {
    DistRight(f, c, a, b);
    SumZero(f, f.mul(a, c), f.mul(b, c));
    Domain(f, f.add(a, b), c);
    SumZero(f, a, b);
  }

  /** a + (b + c) = b + (a + c). */
  lemma AddSwap<E(!new)>(f: Field<E>, a: E, b: E, c: E)
    requires IsField(f)
    ensures f.add(a, f.add(b, c)) == f.add(b, f.add(a, c))
  {
    AddAssoc(f, a, b, c);
    AddAssoc(f, b, a, c);
    AddComm(f, a, b);
  }

  /** (a + b) + (c + d) = (a + c) + (b + d). */
  lemma Regroup<E(!new)>(f: Field<E>, a: E, b: E, c: E, d: E)
    requires IsField(f)
    ensures f.add(f.add(a, b), f.add(c, d)) == f.add(f.add(a, c), f.add(b, d))
  {
    AddAssoc(f, a, b, f.add(c, d));
    AddSwap(f, b, c, d);
    AddAssoc(f, a, c, f.add(b, d));
  }

  /** a·(b·c) = b·(a·c). */
  lemma MulSwap<E(!new)>(f: Field<E>, a: E, b: E, c: E)
    requires IsField(f)
    ensures f.mul(a, f.mul(b, c)) == f.mul(b, f.mul(a, c))
  {
    MulAssoc(f, a, b, c);
    MulAssoc(f, b, a, c);
    MulComm(f, a, b);
  }

  /** a·(b + c + d) over three terms. */
  lemma Dist3<E(!new)>(f: Field<E>, a: E, b: E, c: E, d: E)
    requires IsField(f)
    ensures f.mul(a, f.add(b, f.add(c, d))) == f.add(f.mul(a, b), f.add(f.mul(a, c), f.mul(a, d)))
  {
    Dist(f, a, b, f.add(c, d));
    Dist(f, a, c, d);
  }

  function Sq<E>(f: Field<E>, a: E): E
  {
    f.mul(a, a)
  }

  function Cube<E>(f: Field<E>, a: E): E
  {
    f.mul(a, Sq(f, a))
  }

  function Fifth<E>(f: Field<E>, a: E): E
  {
    f.mul(Sq(f, a), Cube(f, a))
  }

  /** x + y + z, grouped to the right. */
  function Sum3<E>(f: Field<E>, x: E, y: E, z: E): E
  {
    f.add(x, f.add(y, z))
  }

  /** The square of a sum is the sum of the squares. */
  lemma SqSum<E(!new)>(f: Field<E>, a: E, b: E)
    requires IsField(f)
    ensures Sq(f, f.add(a, b)) == f.add(Sq(f, a), Sq(f, b))
  {
    var s := f.add(a, b);
    Dist(f, s, a, b);
    DistRight(f, a, a, b);
    DistRight(f, b, a, b);
    MulComm(f, b, a);
    // (aa + ab) + (ab + bb) = aa + bb
    AddAssoc(f, Sq(f, a), f.mul(a, b), f.add(f.mul(a, b), Sq(f, b)));
    AddTwice(f, Sq(f, b), f.mul(a, b));
    AddComm(f, f.mul(a, b), Sq(f, b));
    AddAssoc(f, f.mul(a, b), f.mul(a, b), Sq(f, b));
    AddSelf(f, f.mul(a, b));
    AddZero(f, Sq(f, b));
  }

  lemma SqSum3<E(!new)>(f: Field<E>, a: E, b: E, c: E)
    requires IsField(f)
    ensures Sq(f, Sum3(f, a, b, c)) == Sum3(f, Sq(f, a), Sq(f, b), Sq(f, c))
  {
    SqSum(f, b, c);
    SqSum(f, a, f.add(b, c));
  }

  /** σ1 = x + y + z, the first elementary symmetric function of the locators x, y, z. */
  function E1<E>(f: Field<E>, x: E, y: E, z: E): E
  {
    Sum3(f, x, y, z)
  }

  /** σ2 = yz + x(y + z). */
  function E2<E>(f: Field<E>, x: E, y: E, z: E): E
  {
    f.add(f.mul(y, z), f.mul(x, f.add(y, z)))
  }

  /** σ3 = xyz. */
  function E3<E>(f: Field<E>, x: E, y: E, z: E): E
  {
    f.mul(x, f.mul(y, z))
  }

  /** The error locator (t³ + σ1·t²) + (σ2·t + σ3), grouped as the decoder adds it. */
  function Locator<E>(f: Field<E>, s1: E, s2: E, s3: E, t: E): E
  {
    f.add(f.add(Cube(f, t), f.mul(s1, Sq(f, t))), f.add(f.mul(s2, t), s3))
  }

  /** (t + y)(t + z) = (t² + (y + z)·t) + yz. */
  lemma QuadFactors<E(!new)>(f: Field<E>, t: E, y: E, z: E)
    requires IsField(f)
    ensures f.mul(f.add(t, y), f.add(t, z)) ==
            f.add(f.add(Sq(f, t), f.mul(f.add(y, z), t)), f.mul(y, z))
  {
    var yt, zt, yz := f.mul(y, t), f.mul(z, t), f.mul(y, z);
    Dist(f, f.add(t, y), t, z);
    DistRight(f, t, t, y);
    DistRight(f, z, t, y);
    DistRight(f, t, y, z);
    MulComm(f, t, z);
    // (tt + yt) + (zt + yz) = (tt + (yt + zt)) + yz
    AddAssoc(f, f.add(Sq(f, t), yt), zt, yz);
    AddAssoc(f, Sq(f, t), yt, zt);
  }

  /** t·((t² + a·t) + b) = (t³ + a·t²) + b·t. */
  lemma TimesQuad<E(!new)>(f: Field<E>, t: E, a: E, b: E)
    requires IsField(f)
    ensures f.mul(t, f.add(f.add(Sq(f, t), f.mul(a, t)), b)) ==
            f.add(f.add(Cube(f, t), f.mul(a, Sq(f, t))), f.mul(b, t))
  {
    Dist(f, t, f.add(Sq(f, t), f.mul(a, t)), b);
    Dist(f, t, Sq(f, t), f.mul(a, t));
    MulSwap(f, t, a, t);
    MulComm(f, t, b);
  }

  /** x·((t² + a·t) + b) = (x·t² + (x·a)·t) + x·b. */
  lemma ScaleQuad<E(!new)>(f: Field<E>, x: E, t: E, a: E, b: E)
    requires IsField(f)
    ensures f.mul(x, f.add(f.add(Sq(f, t), f.mul(a, t)), b)) ==
            f.add(f.add(f.mul(x, Sq(f, t)), f.mul(f.mul(x, a), t)), f.mul(x, b))
  {
    Dist(f, x, f.add(Sq(f, t), f.mul(a, t)), b);
    Dist(f, x, Sq(f, t), f.mul(a, t));
    MulAssoc(f, x, a, t);
  }

  /** ((c + p) + r) + ((a + b) + d) = (c + (a + p)) + ((r + b) + d). */
  lemma Shuffle6<E(!new)>(f: Field<E>, c: E, p: E, r: E, a: E, b: E, d: E)
    requires IsField(f)
    ensures f.add(f.add(f.add(c, p), r), f.add(f.add(a, b), d)) ==
            f.add(f.add(c, f.add(a, p)), f.add(f.add(r, b), d))
  {
    calc {
      f.add(f.add(f.add(c, p), r), f.add(f.add(a, b), d));
      { AddAssoc(f, f.add(f.add(c, p), r), f.add(a, b), d); }
      f.add(f.add(f.add(f.add(c, p), r), f.add(a, b)), d);
      { Regroup(f, f.add(c, p), r, a, b); }
      f.add(f.add(f.add(f.add(c, p), a), f.add(r, b)), d);
      { AddAssoc(f, f.add(f.add(c, p), a), f.add(r, b), d); }
      f.add(f.add(f.add(c, p), a), f.add(f.add(r, b), d));
      { AddAssoc(f, c, p, a); AddComm(f, p, a); }
      f.add(f.add(c, f.add(a, p)), f.add(f.add(r, b), d));
    }
  }

  /**
   * With σ1, σ2, σ3 the elementary symmetric functions of x, y, z, the
   * locator factors as (t + x)(t + y)(t + z).
   */
  lemma LocatorFactors<E(!new)>(f: Field<E>, t: E, x: E, y: E, z: E)
    requires IsField(f)
    ensures Locator(f, E1(f, x, y, z), E2(f, x, y, z), E3(f, x, y, z), t) ==
            f.mul(f.add(t, x), f.mul(f.add(t, y), f.add(t, z)))
  {
    var yz, s := f.mul(y, z), f.add(y, z);
    var q := f.add(f.add(Sq(f, t), f.mul(s, t)), yz);
    QuadFactors(f, t, y, z);
    DistRight(f, q, t, x);
    TimesQuad(f, t, s, yz);
    ScaleQuad(f, x, t, s, yz);
    DistRight(f, Sq(f, t), x, s);
    DistRight(f, t, yz, f.mul(x, s));
    Shuffle6(f, Cube(f, t), f.mul(s, Sq(f, t)), f.mul(yz, t),
             f.mul(x, Sq(f, t)), f.mul(f.mul(x, s), t), f.mul(x, yz));
  }

  /** The locator vanishes exactly at x, y and z. */
  lemma LocatorZero<E(!new)>(f: Field<E>, t: E, x: E, y: E, z: E)
    requires IsField(f)
    ensures Locator(f, E1(f, x, y, z), E2(f, x, y, z), E3(f, x, y, z), t) == f.zero <==>
            t == x || t == y || t == z
  {
    LocatorFactors(f, t, x, y, z);
    Domain(f, f.add(t, x), f.mul(f.add(t, y), f.add(t, z)));
    Domain(f, f.add(t, y), f.add(t, z));
    SumZero(f, t, x);
    SumZero(f, t, y);
    SumZero(f, t, z);
  }

  /** ((c + a) + (b + d)) = 0 gives c = (a + b) + d: a root's cube in terms of lower powers. */
  lemma Isolate<E(!new)>(f: Field<E>, c: E, a: E, b: E, d: E)
    requires IsField(f) && f.add(f.add(c, a), f.add(b, d)) == f.zero
    ensures c == f.add(f.add(a, b), d)
  {
    SumZero(f, f.add(c, a), f.add(b, d));
    // c + a = b + d, so c = (b + d) + a
    calc {
      c;
      { AddTwice(f, c, a); }
      f.add(f.add(c, a), a);
      f.add(f.add(b, d), a);
      { AddAssoc(f, b, d, a); AddComm(f, d, a); }
      f.add(b, f.add(a, d));
      { AddSwap(f, b, a, d); }
      f.add(a, f.add(b, d));
      { AddAssoc(f, a, b, d); }
      f.add(f.add(a, b), d);
    }
  }

  /** At a root r of the locator, r³ = (σ1·r² + σ2·r) + σ3. */
  lemma RootCube<E(!new)>(f: Field<E>, r: E, x: E, y: E, z: E)
    requires IsField(f) && (r == x || r == y || r == z)
    ensures Cube(f, r) == f.add(f.add(f.mul(E1(f, x, y, z), Sq(f, r)), f.mul(E2(f, x, y, z), r)), E3(f, x, y, z))
  {
    LocatorZero(f, r, x, y, z);
    Isolate(f, Cube(f, r), f.mul(E1(f, x, y, z), Sq(f, r)), f.mul(E2(f, x, y, z), r), E3(f, x, y, z));
  }

  /** At a root r of the locator, r⁵ = (σ1·r⁴ + σ2·r³) + σ3·r². */
  lemma RootFifth<E(!new)>(f: Field<E>, r: E, x: E, y: E, z: E)
    requires IsField(f) && (r == x || r == y || r == z)
    ensures Fifth(f, r) ==
            f.add(f.add(f.mul(E1(f, x, y, z), Sq(f, Sq(f, r))), f.mul(E2(f, x, y, z), Cube(f, r))),
                  f.mul(E3(f, x, y, z), Sq(f, r)))
  {
    var e1, e2, e3, r2 := E1(f, x, y, z), E2(f, x, y, z), E3(f, x, y, z), Sq(f, r);
    RootCube(f, r, x, y, z);
    Dist(f, r2, f.add(f.mul(e1, r2), f.mul(e2, r)), e3);
    Dist(f, r2, f.mul(e1, r2), f.mul(e2, r));
    MulSwap(f, r2, e1, r2);
    MulSwap(f, r2, e2, r);
    MulComm(f, r2, r);
    MulComm(f, r2, e3);
  }

  /** Three sums of three, regrouped term by term. */
  lemma Transpose<E(!new)>(f: Field<E>, a1: E, b1: E, c1: E, a2: E, b2: E, c2: E, a3: E, b3: E, c3: E)
    requires IsField(f)
    ensures Sum3(f, f.add(f.add(a1, b1), c1), f.add(f.add(a2, b2), c2), f.add(f.add(a3, b3), c3)) ==
            f.add(f.add(Sum3(f, a1, a2, a3), Sum3(f, b1, b2, b3)), Sum3(f, c1, c2, c3))
  {
    var p1, p2, p3 := f.add(a1, b1), f.add(a2, b2), f.add(a3, b3);
    calc {
      Sum3(f, f.add(p1, c1), f.add(p2, c2), f.add(p3, c3));
      { Regroup(f, p2, c2, p3, c3); }
      f.add(f.add(p1, c1), f.add(f.add(p2, p3), f.add(c2, c3)));
      { Regroup(f, p1, c1, f.add(p2, p3), f.add(c2, c3)); }
      f.add(f.add(p1, f.add(p2, p3)), Sum3(f, c1, c2, c3));
      { Regroup(f, a2, b2, a3, b3); Regroup(f, a1, b1, f.add(a2, a3), f.add(b2, b3)); }
      f.add(f.add(Sum3(f, a1, a2, a3), Sum3(f, b1, b2, b3)), Sum3(f, c1, c2, c3));
    }
  }

  /** The power sum x³ + y³ + z³. */
  function S3<E>(f: Field<E>, x: E, y: E, z: E): E
  {
    Sum3(f, Cube(f, x), Cube(f, y), Cube(f, z))
  }

  /** The power sum x⁵ + y⁵ + z⁵. */
  function S5<E>(f: Field<E>, x: E, y: E, z: E): E
  {
    Sum3(f, Fifth(f, x), Fifth(f, y), Fifth(f, z))
  }

  /** Newton's identity for the third power sum: S3 = (σ1·σ1² + σ2·σ1) + σ3. */
  lemma Newton3<E(!new)>(f: Field<E>, x: E, y: E, z: E)
    requires IsField(f)
    ensures S3(f, x, y, z) ==
            f.add(f.add(Cube(f, E1(f, x, y, z)), f.mul(E2(f, x, y, z), E1(f, x, y, z))), E3(f, x, y, z))
  {
    var e1, e2, e3 := E1(f, x, y, z), E2(f, x, y, z), E3(f, x, y, z);
    RootCube(f, x, x, y, z);
    RootCube(f, y, x, y, z);
    RootCube(f, z, x, y, z);
    Transpose(f, f.mul(e1, Sq(f, x)), f.mul(e2, x), e3, f.mul(e1, Sq(f, y)), f.mul(e2, y), e3,
              f.mul(e1, Sq(f, z)), f.mul(e2, z), e3);
    Dist3(f, e1, Sq(f, x), Sq(f, y), Sq(f, z));
    Dist3(f, e2, x, y, z);
    SqSum3(f, x, y, z);
    AddSelf(f, e3);
    AddZero(f, e3);
  }

  /**
   * The decoder's denominator S3 + S1³ is σ2·σ1 + σ3, the locator at σ1,
   * which is (y + z)(x + z)(x + y).
   */
  lemma Denominator<E(!new)>(f: Field<E>, x: E, y: E, z: E)
    requires IsField(f)
    ensures f.add(S3(f, x, y, z), Cube(f, E1(f, x, y, z))) ==
            f.add(f.mul(E2(f, x, y, z), E1(f, x, y, z)), E3(f, x, y, z))
    ensures f.add(S3(f, x, y, z), Cube(f, E1(f, x, y, z))) ==
            f.mul(f.add(y, z), f.mul(f.add(x, z), f.add(x, y)))
  {
    var e1, e2, e3 := E1(f, x, y, z), E2(f, x, y, z), E3(f, x, y, z);
    var c, m := Cube(f, e1), f.mul(e2, e1);
    Newton3(f, x, y, z);
    // ((c + m) + e3) + c = m + e3
    AddAssoc(f, c, m, e3);
    AddComm(f, f.add(c, f.add(m, e3)), c);
    AddAssoc(f, c, c, f.add(m, e3));
    AddSelf(f, c);
    AddZero(f, f.add(m, e3));
    // the locator at σ1
    LocatorFactors(f, e1, x, y, z);
    AddSelf(f, c);
    AddZero(f, f.add(m, e3));
    SumAround(f, x, y, z);
  }

  /** σ1 + x = y + z, σ1 + y = x + z, σ1 + z = x + y. */
  lemma SumAround<E(!new)>(f: Field<E>, x: E, y: E, z: E)
    requires IsField(f)
    ensures f.add(E1(f, x, y, z), x) == f.add(y, z)
    ensures f.add(E1(f, x, y, z), y) == f.add(x, z)
    ensures f.add(E1(f, x, y, z), z) == f.add(x, y)
  {
    var s := f.add(y, z);
    AddComm(f, f.add(x, s), x);
    AddAssoc(f, x, x, s);
    AddSelf(f, x);
    AddZero(f, s);
    AddComm(f, f.add(x, s), y);
    AddSwap(f, y, x, s);
    AddAssoc(f, y, y, z);
    AddSelf(f, y);
    AddZero(f, z);
    AddComm(f, f.add(x, s), z);
    AddSwap(f, z, x, s);
    AddComm(f, y, z);
    AddAssoc(f, z, z, y);
    AddSelf(f, z);
    AddZero(f, y);
  }

  /** Newton's identity for the fifth power sum: S5 = (σ1·S1⁴ + σ2·S3) + σ3·S1². */
  lemma Newton5<E(!new)>(f: Field<E>, x: E, y: E, z: E)
    requires IsField(f)
    ensures S5(f, x, y, z) ==
            f.add(f.add(f.mul(E1(f, x, y, z), Sq(f, Sq(f, E1(f, x, y, z)))), f.mul(E2(f, x, y, z), S3(f, x, y, z))),
                  f.mul(E3(f, x, y, z), Sq(f, E1(f, x, y, z))))
  {
    var e1, e2, e3 := E1(f, x, y, z), E2(f, x, y, z), E3(f, x, y, z);
    RootFifth(f, x, x, y, z);
    RootFifth(f, y, x, y, z);
    RootFifth(f, z, x, y, z);
    Transpose(f, f.mul(e1, Sq(f, Sq(f, x))), f.mul(e2, Cube(f, x)), f.mul(e3, Sq(f, x)),
              f.mul(e1, Sq(f, Sq(f, y))), f.mul(e2, Cube(f, y)), f.mul(e3, Sq(f, y)),
              f.mul(e1, Sq(f, Sq(f, z))), f.mul(e2, Cube(f, z)), f.mul(e3, Sq(f, z)));
    Dist3(f, e1, Sq(f, Sq(f, x)), Sq(f, Sq(f, y)), Sq(f, Sq(f, z)));
    Dist3(f, e2, Cube(f, x), Cube(f, y), Cube(f, z));
    Dist3(f, e3, Sq(f, x), Sq(f, y), Sq(f, z));
    SqSum3(f, x, y, z);
    SqSum3(f, Sq(f, x), Sq(f, y), Sq(f, z));
  }

  /** (a + ((b + c) + d) + e) + ((a + b) + e) = c + d. */
  lemma Collapse<E(!new)>(f: Field<E>, a: E, b: E, c: E, d: E, e: E)
    requires IsField(f)
    ensures f.add(f.add(f.add(a, f.add(f.add(b, c), d)), e), f.add(f.add(a, b), e)) == f.add(c, d)
  {
    var u := f.add(f.add(b, c), d);
    calc {
      f.add(f.add(f.add(a, u), e), f.add(f.add(a, b), e));
      { Regroup(f, f.add(a, u), e, f.add(a, b), e); AddSelf(f, e); }
      f.add(f.add(f.add(a, u), f.add(a, b)), f.zero);
      { AddZero(f, f.add(f.add(a, u), f.add(a, b))); }
      f.add(f.add(a, u), f.add(a, b));
      { Regroup(f, a, u, a, b); AddSelf(f, a); AddZero(f, f.add(u, b)); AddComm(f, f.zero, f.add(u, b)); }
      f.add(u, b);
      { AddAssoc(f, f.add(b, c), d, b); AddComm(f, d, b); AddAssoc(f, f.add(b, c), b, d); }
      f.add(f.add(f.add(b, c), b), d);
      { AddComm(f, b, c); AddTwice(f, c, b); }
      f.add(c, d);
    }
  }

  /** The decoder's numerator S5 + S3·S1² is σ2 times the denominator σ2·σ1 + σ3. */
  lemma Numerator<E(!new)>(f: Field<E>, x: E, y: E, z: E)
    requires IsField(f)
    ensures f.add(S5(f, x, y, z), f.mul(S3(f, x, y, z), Sq(f, E1(f, x, y, z)))) ==
            f.mul(E2(f, x, y, z), f.add(f.mul(E2(f, x, y, z), E1(f, x, y, z)), E3(f, x, y, z)))
  {
    var e1, e2, e3 := E1(f, x, y, z), E2(f, x, y, z), E3(f, x, y, z);
    var t, c, m := Sq(f, e1), Cube(f, e1), f.mul(e2, e1);
    Newton5(f, x, y, z);
    Newton3(f, x, y, z);
    // S3·t = (c·t + m·t) + e3·t with c·t = e1·t² and m·t = e2·c
    DistRight(f, t, f.add(c, m), e3);
    DistRight(f, t, c, m);
    MulAssoc(f, e1, t, t);
    MulAssoc(f, e2, e1, t);
    // e2·S3 = (e2·c + e2·m) + e2·e3
    Dist(f, e2, f.add(c, m), e3);
    Dist(f, e2, c, m);
    Collapse(f, f.mul(e1, Sq(f, t)), f.mul(e2, c), f.mul(e2, m), f.mul(e2, e3), f.mul(e3, t));
    Dist(f, e2, m, e3);
  }

  /** The decoder's σ3 = (S3 + S1²·S1) + S1·σ2 is σ3 = xyz. */
  lemma ThirdCoefficient<E(!new)>(f: Field<E>, x: E, y: E, z: E)
    requires IsField(f)
    ensures f.add(f.add(S3(f, x, y, z), f.mul(Sq(f, E1(f, x, y, z)), E1(f, x, y, z))),
                  f.mul(E1(f, x, y, z), E2(f, x, y, z))) == E3(f, x, y, z)
  {
    var e1, e2, e3 := E1(f, x, y, z), E2(f, x, y, z), E3(f, x, y, z);
    Denominator(f, x, y, z);
    MulComm(f, Sq(f, e1), e1);
    MulComm(f, e1, e2);
    AddComm(f, f.mul(e2, e1), e3);
    AddTwice(f, e3, f.mul(e2, e1));
  }
}
