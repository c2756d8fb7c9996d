/**
 * A mutable point of the image plane with Java `int` coordinates.  Every
 * coordinate operation is Java's 32-bit arithmetic (JavaInt.Add32 and
 * friends), so results wrap around exactly as the program's would.
 */
module Point {
  import opened JavaInt
  import QRCodeUtility

  /** Direction flags. */
  const RIGHT: int32 := 1
  const BOTTOM: int32 := 2
  const LEFT: int32 := 4
  const TOP: int32 := 8

  /** Java's `(a + b) / 2` on int: the wrapped sum, halved toward zero. */
  function Mid(a: int32, b: int32): (r: int32)
    ensures -0x8000_0000 <= a as int + b as int < 0x8000_0000 ==>
      (if a <= b then a <= r <= b else b <= r <= a) &&
      -1 <= a as int + b as int - 2 * r as int <= 1
  {
    var s := Add32(a, b) as int;
    Div(s, 2) as int32
  }

  /**
   * The squared distance as Java computes it, `(x1-x2)*(x1-x2) + (y1-y2)*(y1-y2)`
   * in 32-bit arithmetic.
   */
  function Dist2(x1: int32, y1: int32, x2: int32, y2: int32): int32
  {
    var dx := Sub32(x1, x2);
    var dy := Sub32(y1, y2);
    Add32(Mul32(dx, dx), Mul32(dy, dy))
  }

  /** The 32-bit squared distance is the true one when each coordinate difference is below 2^15 in size. */
  lemma Dist2Exact(x1: int32, y1: int32, x2: int32, y2: int32)
    requires -0x8000 < x1 as int - x2 as int < 0x8000 && -0x8000 < y1 as int - y2 as int < 0x8000
    ensures Dist2(x1, y1, x2, y2) as int ==
      (x1 as int - x2 as int) * (x1 as int - x2 as int) + (y1 as int - y2 as int) * (y1 as int - y2 as int)
  {
    var u := x1 as int - x2 as int;
    var v := y1 as int - y2 as int;
    SmallSquare(u);
    SmallSquare(v);
    assert Sub32(x1, x2) as int == u;
    assert Sub32(y1, y2) as int == v;
    assert Mul32(Sub32(x1, x2), Sub32(x1, x2)) as int == u * u;
    assert Mul32(Sub32(y1, y2), Sub32(y1, y2)) as int == v * v;
  }

  lemma SmallSquare(v: int)
    requires -0x8000 < v < 0x8000
    ensures 0 <= v * v < 0x4000_0000
  {
    if v < 0 {
      QRCodeUtility.MulMono(-v, -v, 0x7FFF, 0x7FFF);
    } else {
      QRCodeUtility.MulMono(v, v, 0x7FFF, 0x7FFF);
    }
  }

  /** The squared distance is symmetric, wrap-around included. */
  lemma Dist2Symmetric(x1: int32, y1: int32, x2: int32, y2: int32)
    ensures Dist2(x1, y1, x2, y2) == Dist2(x2, y2, x1, y1)
  {
    WrapMod(x1 as int - x2 as int);
    WrapMod(x2 as int - x1 as int);
    WrapMod(y1 as int - y2 as int);
    WrapMod(y2 as int - y1 as int);
    NegSquare(x1 as int - x2 as int, Sub32(x1, x2) as int, Sub32(x2, x1) as int);
    NegSquare(y1 as int - y2 as int, Sub32(y1, y2) as int, Sub32(y2, y1) as int);
  }

  /** Two wrapped values of v and -v have squares that wrap to the same int. */
  lemma NegSquare(v: int, a: int, b: int)
    requires (a - v) % 0x1_0000_0000 == 0 && (b + v) % 0x1_0000_0000 == 0
    ensures Wrap32(a * a) == Wrap32(b * b)
  {
    var ka := (a - v) / 0x1_0000_0000;
    var kb := (b + v) / 0x1_0000_0000;
    var k := ka + kb;
    assert a + b == k * 0x1_0000_0000;
    assert b * b - a * a == ((b - a) * k) * 0x1_0000_0000 by {
      assert b * b - a * a == (b - a) * (a + b);
    }
    WrapCongruent(b * b, a * a);
  }

  /** The squared distance from a point to itself is zero. */
  lemma Dist2Self(x: int32, y: int32)
    ensures Dist2(x, y, x, y) == 0
  {
  }

  class Point {
    var x: int32
    var y: int32

    /** Java's `Point()`: the origin. */
    constructor Origin()
      ensures x == 0 && y == 0
    {
      x, y := 0, 0;
    }

    /** Java's `Point(int x, int y)`. */
    constructor (x0: int32, y0: int32)
      ensures x == x0 && y == y0
    {
      x, y := x0, y0;
    }

    function GetX(): (r: int32)
      reads this
      ensures r == x
    {
      x
    }

    function GetY(): (r: int32)
      reads this
      ensures r == y
    {
      y
    }

    method SetX(x0: int32)
      modifies this
      ensures x == x0 && y == old(y)
    {
      x := x0;
    }

    method SetY(y0: int32)
      modifies this
      ensures y == y0 && x == old(x)
    {
      y := y0;
    }

    /** Moves the point by (dx, dy), each coordinate with Java's wrapping `+=`. */
    method Translate(dx: int32, dy: int32)
      modifies this
      ensures x == Add32(old(x), dx) && y == Add32(old(y), dy)
      ensures -0x8000_0000 <= old(x) as int + dx as int < 0x8000_0000 ==> x as int == old(x) as int + dx as int
      ensures -0x8000_0000 <= old(y) as int + dy as int < 0x8000_0000 ==> y as int == old(y) as int + dy as int
    {
      x := Add32(x, dx);
      y := Add32(y, dy);
    }

    method Set(x0: int32, y0: int32)
      modifies this
      ensures x == x0 && y == y0
    {
      x, y := x0, y0;
    }

    /**
     * The midpoint of p1 and p2, each coordinate `(a + b) / 2` with Java's
     * wrapping sum and truncating division.
     */
    static method GetCenter(p1: Point, p2: Point) returns (c: Point)
      ensures fresh(c)
      ensures c.x == Mid(p1.x, p2.x) && c.y == Mid(p1.y, p2.y)
    {
      c := new Point(Mid(p1.GetX(), p2.GetX()), Mid(p1.GetY(), p2.GetY()));
    }

    /**
     * Java's `equals(Point)` as written: true exactly when the two points
     * DIFFER in some coordinate.
     */
    function Equals(compare: Point): (r: bool)
      reads this, compare
      ensures r <==> !SameAs(compare)
    {
      x != compare.x || y != compare.y
    }

    /** Equality of coordinates, which the documentation of `equals` promises. */
    function SameAs(compare: Point): (r: bool)
      reads this, compare
      ensures r <==> (GetX() == compare.GetX() && GetY() == compare.GetY())
    {
      x == compare.x && y == compare.y
    }

    /** The integer distance to other: the square root of the 32-bit squared distance. */
    method DistanceOf(other: Point) returns (r: int32)
      ensures Dist2(x, y, other.x, other.y) >= 0 ==> QRCodeUtility.IsIntSqrt(Dist2(x, y, other.x, other.y) as int, r as int)
      ensures Dist2(x, y, other.x, other.y) < 0 ==> r == 0
    {
      var x2 := other.GetX();
      var y2 := other.GetY();
      r := QRCodeUtility.Sqrt(Dist2(x, y, x2, y2));
    }
  }

  /** As written, `equals` never holds between a point and itself. */
  lemma EqualsIrreflexive(p: Point)
    ensures !p.Equals(p)
  {
  }

  /** SameAs is an equivalence: reflexive, symmetric and transitive. */
  lemma SameAsEquivalence(p: Point, q: Point, r: Point)
    ensures p.SameAs(p)
    ensures p.SameAs(q) <==> q.SameAs(p)
    ensures p.SameAs(q) && q.SameAs(r) ==> p.SameAs(r)
  {
  }

  /**
   * Distances are symmetric: any two results that `distanceOf` may give for
   * (p, q) and for (q, p) are equal.
   */
  lemma DistanceSymmetric(x1: int32, y1: int32, x2: int32, y2: int32, r1: int, r2: int)
    requires Dist2(x1, y1, x2, y2) >= 0 ==> QRCodeUtility.IsIntSqrt(Dist2(x1, y1, x2, y2) as int, r1)
    requires Dist2(x1, y1, x2, y2) < 0 ==> r1 == 0
    requires Dist2(x2, y2, x1, y1) >= 0 ==> QRCodeUtility.IsIntSqrt(Dist2(x2, y2, x1, y1) as int, r2)
    requires Dist2(x2, y2, x1, y1) < 0 ==> r2 == 0
    ensures r1 == r2
  {
    Dist2Symmetric(x1, y1, x2, y2);
    if Dist2(x1, y1, x2, y2) >= 0 {
      QRCodeUtility.IntSqrtUnique(Dist2(x1, y1, x2, y2) as int, r1, r2);
    }
  }

  /** The distance from a point to itself is 0. */
  lemma DistanceSelf(x: int32, y: int32, r: int)
    requires QRCodeUtility.IsIntSqrt(Dist2(x, y, x, y) as int, r)
    ensures r == 0
  {
    Dist2Self(x, y);
    QRCodeUtility.IntSqrtUnique(0, r, 0);
  }
}
