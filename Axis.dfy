/**
 * A skewed, scaled and rotated coordinate system laid over the image: a
 * move of (moveX, moveY) modules from the origin is scaled by the module
 * pitch and rotated by the angle (sin, cos).  The pitch and the angle are
 * fixed-point numbers with `decimalPoint` fraction bits, the image reader's
 * DECIMAL_POINT, which is a parameter here.
 */
module Axis {
  import opened JavaInt
  import opened Point

  /** One axis move scaled to pixels, `(modulePitch * move) >> dp`, and 0 for no move. */
  function Scaled(modulePitch: int32, move: int32, decimalPoint: int): (d: int32)
    ensures move == 0 ==> d == 0
  {
    if move == 0 then 0 else Shr32(Mul32(modulePitch, move), decimalPoint)
  }

  /**
   * The image point that the move (moveX, moveY) reaches from the origin
   * (ox, oy): the scaled move rotated by (sin, cos), shifted back to pixels,
   * added to a fresh (0, 0) point and then to the origin.
   */
  function Target(sin: int32, cos: int32, modulePitch: int32, ox: int32, oy: int32,
                  moveX: int32, moveY: int32, decimalPoint: int): (int32, int32)
  {
    var dx := Scaled(modulePitch, moveX, decimalPoint);
    var dy := Scaled(modulePitch, moveY, decimalPoint);
    var tx := Shr32(Sub32(Mul32(dx, cos), Mul32(dy, sin)), decimalPoint);
    var ty := Shr32(Add32(Mul32(dx, sin), Mul32(dy, cos)), decimalPoint);
    (Add32(Add32(0, tx), ox), Add32(Add32(0, ty), oy))
  }

  /** Not moving at all lands on the origin. */
  lemma TargetAtOrigin(sin: int32, cos: int32, modulePitch: int32, ox: int32, oy: int32, decimalPoint: int)
    ensures Target(sin, cos, modulePitch, ox, oy, 0, 0, decimalPoint) == (ox, oy)
  {
    ZeroMoves(sin, cos, decimalPoint);
    AddZero(ox);
    AddZero(oy);
  }

  /** With no move the rotated offsets are both 0. */
  lemma ZeroMoves(sin: int32, cos: int32, decimalPoint: int)
    ensures Shr32(Sub32(Mul32(0, cos), Mul32(0, sin)), decimalPoint) == 0
    ensures Shr32(Add32(Mul32(0, sin), Mul32(0, cos)), decimalPoint) == 0
    ensures Add32(0, 0) == 0
  {
    ShrZero(decimalPoint % 32);
  }

  lemma AddZero(a: int32)
    ensures Add32(0, a) == a
  {
  }

  lemma ShrZero(n: nat)
    ensures Shr(0, n) == 0
  {
    ScaleAway(Shr(0, n), Pow2(n));
    ScaleAway(Shr(0, n) + 1, Pow2(n));
  }

  /**
   * With the unrotated angle (sin 0, cos 1.0 in fixed point) and values small
   * enough that nothing wraps, the target is the origin plus the scaled move
   * on each axis.
   */
  lemma {:induction false} TargetUnrotated(modulePitch: int32, ox: int32, oy: int32,
                                           moveX: int32, moveY: int32, decimalPoint: int)
    requires decimalPoint % 32 <= 30
    requires -0x4000_0000 < ox as int < 0x4000_0000 && -0x4000_0000 < oy as int < 0x4000_0000
    requires -0x4000_0000 < modulePitch as int * moveX as int < 0x4000_0000
    requires -0x4000_0000 < modulePitch as int * moveY as int < 0x4000_0000
    ensures Pow2(decimalPoint % 32) < 0x8000_0000
    ensures var one := Pow2(decimalPoint % 32) as int32;
      Target(0, one, modulePitch, ox, oy, moveX, moveY, decimalPoint) ==
        (Add32(ox, Scaled(modulePitch, moveX, decimalPoint)), Add32(oy, Scaled(modulePitch, moveY, decimalPoint)))
  {
    var s := decimalPoint % 32;
    Pow2Mono30(s);
    var one := Pow2(s) as int32;
    var dx := Scaled(modulePitch, moveX, decimalPoint);
    var dy := Scaled(modulePitch, moveY, decimalPoint);
    UnitScale(modulePitch, moveX, decimalPoint);
    UnitScale(modulePitch, moveY, decimalPoint);
    assert Mul32(dy, 0) == 0 && Mul32(dx, 0) == 0;
    assert Sub32(Mul32(dx, one), 0) == Mul32(dx, one);
    assert Add32(0, Mul32(dy, one)) == Mul32(dy, one);
    assert Add32(0, dx) == dx && Add32(0, dy) == dy;
    Add32Comm(dx, ox);
    Add32Comm(dy, oy);
  }

  lemma Add32Comm(a: int32, b: int32)
    ensures Add32(a, b) == Add32(b, a)
  {
    assert a as int + b as int == b as int + a as int;
  }

  // Arithmetic helpers for the fixed-point scaling below; not properties of an axis.

  lemma Pow2Mono30(s: nat)
    requires s <= 30
    ensures Pow2(s) <= 0x4000_0000
  {
    Pow2Mono(s, 30);
    Pow2Thirty();
  }

  lemma Pow2Thirty()
    ensures Pow2(30) == 0x4000_0000
  {
    assert Pow2(5) == 32;
    assert Pow2(10) == 1024;
    assert Pow2(15) == 32768;
    assert Pow2(20) == 1048576;
    assert Pow2(25) == 33554432;
  }

  /**
   * A scaled move multiplied back by 1.0 in fixed point and shifted down is
   * unchanged, and its magnitude stays below 2^30.
   */
  lemma UnitScale(modulePitch: int32, move: int32, decimalPoint: int)
    requires decimalPoint % 32 <= 30 && Pow2(decimalPoint % 32) <= 0x4000_0000
    requires -0x4000_0000 < modulePitch as int * move as int < 0x4000_0000
    ensures var d := Scaled(modulePitch, move, decimalPoint);
      -0x4000_0000 < d as int < 0x4000_0000 &&
      Shr32(Mul32(d, Pow2(decimalPoint % 32) as int32), decimalPoint) == d
  {
    var s := decimalPoint % 32;
    var p := Pow2(s);
    var d := Scaled(modulePitch, move, decimalPoint);
    var m := modulePitch as int * move as int;
    if move == 0 {
      assert Mul32(d, p as int32) == 0;
      ShrZero(s);
    } else {
      assert Mul32(modulePitch, move) as int == m;
      ShrRange(m, s);
      assert d as int == Shr(m, s);
      assert d as int * p <= m < (d as int + 1) * p;
      assert (d as int + 1) * p == d as int * p + p;
      assert -0x8000_0000 < d as int * p < 0x8000_0000;
      assert Mul32(d, p as int32) as int == d as int * p;
      ShrCancel(d as int, s);
    }
  }

  /** Shifting d * 2^n right by n gives d back. */
  lemma ShrCancel(d: int, n: nat)
    ensures Shr(d * Pow2(n), n) == d
  {
    var p := Pow2(n);
    var r := Shr(d * p, n);
    assert r * p <= d * p < (r + 1) * p;
    ScaleAway(r - d, p);
    assert (r - d) * p == r * p - d * p;
    ScaleAway(d - r - 1, p);
    assert (d - r - 1) * p == d * p - (r + 1) * p;
  }

  class Axis {
    var sin: int32
    var cos: int32
    var modulePitch: int32
    var origin: Point

    /** The angle array holds sin then cos; the origin starts at a fresh (0, 0). */
    constructor (angle: array<int32>, modulePitch0: int32)
      requires angle.Length >= 2
      ensures sin == angle[0] && cos == angle[1] && modulePitch == modulePitch0
      ensures fresh(origin) && origin.x == 0 && origin.y == 0
    {
      sin := angle[0];
      cos := angle[1];
      modulePitch := modulePitch0;
      origin := new Point.Origin();
    }

    /** Stores the given point itself as the origin: later moves of that point move the axis. */
    method SetOrigin(o: Point)
      modifies this
      ensures origin == o
      ensures sin == old(sin) && cos == old(cos) && modulePitch == old(modulePitch)
    {
      origin := o;
    }

    method SetModulePitch(modulePitch0: int32)
      modifies this
      ensures modulePitch == modulePitch0
      ensures sin == old(sin) && cos == old(cos) && origin == old(origin)
    {
      modulePitch := modulePitch0;
    }

    /** Java's `translate(int moveX, int moveY)`: a fresh point at the target of the move. */
    method Translate(moveX: int32, moveY: int32, decimalPoint: int) returns (p: Point)
      ensures fresh(p)
      ensures (p.x, p.y) == Target(sin, cos, modulePitch, origin.x, origin.y, moveX, moveY, decimalPoint)
    {
      p := new Point.Origin();
      var dx := Scaled(modulePitch, moveX, decimalPoint);
      var dy := Scaled(modulePitch, moveY, decimalPoint);
      p.Translate(Shr32(Sub32(Mul32(dx, cos), Mul32(dy, sin)), decimalPoint),
                  Shr32(Add32(Mul32(dx, sin), Mul32(dy, cos)), decimalPoint));
      p.Translate(origin.GetX(), origin.GetY());
    }

    /** Java's `translate(Point offset)`: the move given as a point. */
    method TranslateOffset(offset: Point, decimalPoint: int) returns (p: Point)
      ensures fresh(p)
      ensures (p.x, p.y) == Target(sin, cos, modulePitch, origin.x, origin.y, offset.x, offset.y, decimalPoint)
    {
      p := Translate(offset.GetX(), offset.GetY(), decimalPoint);
    }

    /** Java's `translate(Point origin, Point offset)`: sets the origin, then moves. */
    method TranslateFrom(o: Point, offset: Point, decimalPoint: int) returns (p: Point)
      modifies this
      ensures origin == o && sin == old(sin) && cos == old(cos) && modulePitch == old(modulePitch)
      ensures fresh(p)
      ensures (p.x, p.y) == Target(sin, cos, modulePitch, o.x, o.y, offset.x, offset.y, decimalPoint)
    {
      SetOrigin(o);
      p := Translate(offset.GetX(), offset.GetY(), decimalPoint);
    }

    /** Java's `translate(Point origin, int moveX, int moveY)`. */
    method TranslateFromBy(o: Point, moveX: int32, moveY: int32, decimalPoint: int) returns (p: Point)
      modifies this
      ensures origin == o && sin == old(sin) && cos == old(cos) && modulePitch == old(modulePitch)
      ensures fresh(p)
      ensures (p.x, p.y) == Target(sin, cos, modulePitch, o.x, o.y, moveX, moveY, decimalPoint)
    {
      SetOrigin(o);
      p := Translate(moveX, moveY, decimalPoint);
    }

    /** Java's `translate(Point origin, int modulePitch, int moveX, int moveY)`: sets origin and pitch, then moves. */
    method TranslateWithPitch(o: Point, modulePitch0: int32, moveX: int32, moveY: int32, decimalPoint: int)
      returns (p: Point)
      modifies this
      ensures origin == o && modulePitch == modulePitch0 && sin == old(sin) && cos == old(cos)
      ensures fresh(p)
      ensures (p.x, p.y) == Target(sin, cos, modulePitch0, o.x, o.y, moveX, moveY, decimalPoint)
    {
      SetOrigin(o);
      modulePitch := modulePitch0;
      p := Translate(moveX, moveY, decimalPoint);
    }
  }
}
