/**
 * Conversions between bytes and the integers Java stores them in.  Each fact
 * is kept in its own small lemma so that the solver meets integer/bit-vector
 * conversions only where they are needed.
 */
module Bytes {
  lemma ByteInt(a: bv8, b: bv8)
    requires a as int == b as int
    ensures a == b
  {
  }

  lemma NarrowWiden(d: bv16)
    requires d < 256
    ensures (d as bv8) as int == d as int
  {
  }
}
