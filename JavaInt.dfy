/**
 * Java's integer operators on `int`, written out over Dafny's unbounded
 * integers.  Java's `/` and `%` truncate toward zero, while Dafny's are
 * Euclidean; Java's `>>` is an arithmetic shift, i.e. floor division by a
 * power of two.
 */
module JavaInt {
  /** 2 to the power n. */
  function Pow2(n: nat): (r: nat)
    ensures r >= 1
  {
    if n == 0 then 1 else 2 * Pow2(n - 1)
  }

  /** Java's `a / b` for a positive divisor: the quotient rounded toward zero. */
  function Div(a: int, b: int): (q: int)
    requires b > 0
    ensures a >= 0 ==> q * b <= a < (q + 1) * b
    ensures a < 0 ==> (q - 1) * b < a <= q * b
  {
    if a >= 0 then a / b else -((-a) / b)
  }

  /** Java's `a % b` for a positive divisor: the remainder takes the sign of a. */
  function Rem(a: int, b: int): (r: int)
    requires b > 0
    ensures a == Div(a, b) * b + r
    ensures a >= 0 ==> 0 <= r < b
    ensures a < 0 ==> -b < r <= 0
  {
    if a >= 0 then a % b else -((-a) % b)
  }

  /** Java's `a >> n` on int: floor division by 2^n, for either sign of a. */
  function Shr(a: int, n: nat): (r: int)
    ensures r * Pow2(n) <= a < (r + 1) * Pow2(n)
    ensures a >= 0 ==> r >= 0
  {
    FloorDiv(a, Pow2(n));
    a / Pow2(n)
  }

  /** Dafny's division by a positive divisor rounds down. */
  lemma FloorDiv(a: int, d: int)
    requires d > 0
    ensures (a / d) * d <= a < (a / d + 1) * d
    ensures a >= 0 ==> a / d >= 0
  {
  }

  /** Java's `int`: a 32-bit two's-complement integer. */
  newtype int32 = x: int | -0x8000_0000 <= x < 0x8000_0000

  /** Java's `byte`: an 8-bit two's-complement integer. */
  newtype int8 = x: int | -0x80 <= x < 0x80

  const INT_MAX: int := 0x7FFF_FFFF

  /** The int that Java's arithmetic leaves for the exact value v: v reduced modulo 2^32 into the int range. */
  function Wrap32(v: int): (r: int32)
    ensures -0x8000_0000 <= v < 0x8000_0000 ==> r as int == v
  {
    var m := v % 0x1_0000_0000;
    if m < 0x8000_0000 then m as int32 else (m - 0x1_0000_0000) as int32
  }

  /** The wrapped value differs from v by a multiple of 2^32. */
  lemma WrapMod(v: int)
    ensures (Wrap32(v) as int - v) % 0x1_0000_0000 == 0
  {
  }

  /** Java's `a + b` on int. */
  function Add32(a: int32, b: int32): (r: int32)
    ensures -0x8000_0000 <= a as int + b as int < 0x8000_0000 ==> r as int == a as int + b as int
  {
    Wrap32(a as int + b as int)
  }

  /** Java's `a - b` on int. */
  function Sub32(a: int32, b: int32): (r: int32)
    ensures -0x8000_0000 <= a as int - b as int < 0x8000_0000 ==> r as int == a as int - b as int
  {
    Wrap32(a as int - b as int)
  }

  /** Java's `a * b` on int. */
  function Mul32(a: int32, b: int32): (r: int32)
    ensures -0x8000_0000 <= a as int * b as int < 0x8000_0000 ==> r as int == a as int * b as int
  {
    Wrap32(a as int * b as int)
  }

  /** Two values congruent modulo 2^32 wrap to the same int. */
  lemma {:induction false} WrapCongruent(u: int, v: int)
    requires (u - v) % 0x1_0000_0000 == 0
    ensures Wrap32(u) == Wrap32(v)
  {
    var k := (u - v) / 0x1_0000_0000;
    assert u == v + k * 0x1_0000_0000;
    ModShift(v, k);
  }

  lemma ModShift(v: int, k: int)
    ensures (v + k * 0x1_0000_0000) % 0x1_0000_0000 == v % 0x1_0000_0000
  {
  }

  /**
   * Java's `a >> n` for an int a and a long shift distance n: only the low
   * five bits of n count (Dafny's `%` is Euclidean, so `n % 32` is `n & 31`).
   */
  function Shr32(a: int32, n: int): (r: int32)
    ensures r as int == Shr(a as int, n % 32)
  {
    ShrRange(a as int, n % 32);
    Shr(a as int, n % 32) as int32
  }

  /** An arithmetic shift moves a value toward zero or -1, never past it. */
  lemma ShrRange(a: int, n: nat)
    ensures a >= 0 ==> 0 <= Shr(a, n) <= a
    ensures a < 0 ==> a <= Shr(a, n) < 0
  {
    var r := Shr(a, n);
    var p := Pow2(n);
    ScaleAway(r, p);
    ScaleAway(r + 1, p);
  }

  /** Multiplying by a positive factor moves a value away from zero. */
  lemma ScaleAway(r: int, p: int)
    requires p >= 1
    ensures r >= 0 ==> r * p >= r
    ensures r <= 0 ==> r * p <= r
  {
  }

  /** Powers of two grow with the exponent. */
  lemma {:induction false} Pow2Mono(i: nat, j: nat)
    requires i <= j
    ensures Pow2(i) <= Pow2(j)
  {
    if i < j {
      Pow2Mono(i, j - 1);
    }
  }
}
