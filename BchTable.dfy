/**
 * The table-driven BCH(15,5) decoder for the QR format information
 * (section 7.9 of ISO/IEC 18004:2015): the 32 valid codewords are computed
 * once by a shift-register encoder, and decoding picks the first valid
 * codeword within Hamming distance 3 of the received word.
 *
 * Java ints are 32-bit vectors here; the one place the source relies on the
 * sign of an int (the termination of the bit-count loop) is a precondition.
 */
module BchTable {

  /** The generator polynomial x^10+x^8+x^5+x^4+x^2+x+1 without its x^10 term. */
  const GX: bv32 := 0x137

  /** The Java int -1, returned by the decoder when no codeword is close enough. */
  const NOT_FOUND: bv32 := 0xffff_ffff

  // ---------------------------------------------------------------------------
  // Hamming weight

  /** Bit 0 of x, as 0 or 1. */
  function Low(x: bv32): nat
  {
    if x & 1 == 1 then 1 else 0
  }

  /** The number of one bits among bits 0 to 15 of x. */
  function Weight16(x: bv32): nat
  {
    Low(x) + Low(x >> 1) + Low(x >> 2) + Low(x >> 3) + Low(x >> 4) + Low(x >> 5) + Low(x >> 6) + Low(x >> 7)
    + Low(x >> 8) + Low(x >> 9) + Low(x >> 10) + Low(x >> 11) + Low(x >> 12) + Low(x >> 13) + Low(x >> 14) + Low(x >> 15)
  }

  /** The number of one bits of x: the sum of its 32 bits, written out. */
  function BitSum(x: bv32): nat
  {
    Weight16(x) + Weight16(x >> 16)
  }

  /** Dropping bit 0 of the written-out sum. */
  lemma BitSumShift(x: bv32)
    ensures BitSum(x) == Low(x) + BitSum(x >> 1)
  {
  }

  /** Only the zero word has a zero bit sum. */
  lemma BitSumZero(x: bv32)
    ensures BitSum(x) == 0 <==> x == 0
  {
  }

  /**
   * The Hamming weight of x, counted as the decoder's loop counts it: bit 0,
   * then the rest shifted down, until nothing is left.
   */
  function Weight(x: bv32): nat
    decreases x
  {
    if x == 0 then 0 else Low(x) + Weight(x >> 1)
  }

  /** The induction step: the loop's count and the bit sum both drop bit 0 first. */
  lemma WeightStep(x: bv32)
    ensures Weight(x >> 1) == BitSum(x >> 1) ==> Weight(x) == BitSum(x)
  {
    BitSumShift(x);
  }

  /** The loop's count is the sum of the 32 bits. */
  lemma {:induction false} WeightIsBitSum(x: bv32)
    ensures Weight(x) == BitSum(x)
    decreases x
  {
    if x != 0 {
      WeightIsBitSum(x >> 1);
      WeightStep(x);
    }
  }

  /** Only the zero word has weight 0, so distance 0 means equality. */
  lemma WeightZero(x: bv32)
    ensures Weight(x) == 0 <==> x == 0
  {
    WeightIsBitSum(x);
    BitSumZero(x);
  }

  /** The Hamming distance of two words: the number of bit positions where they differ. */
  function Distance(a: bv32, b: bv32): nat
  {
    Weight(a ^ b)
  }

  /**
   * The distance is symmetric, and it is 0 exactly for equal words: what
   * the decoder's bit count promises about its two arguments.
   */
  lemma DistanceMetric(a: bv32, b: bv32)
    ensures Distance(a, b) == Distance(b, a)
    ensures Distance(a, b) == 0 <==> a == b
  {
    XorFacts(a, b);
    WeightZero(a ^ b);
  }

  lemma XorFacts(a: bv32, b: bv32)
    ensures a ^ b == b ^ a
    ensures a ^ b == 0 <==> a == b
  {
  }

  lemma BitsTri(x: bv32, y: bv32)
    ensures Low(x ^ y) <= Low(x) + Low(y)
    ensures Low((x ^ y) >> 1) <= Low(x >> 1) + Low(y >> 1)
    ensures Low((x ^ y) >> 2) <= Low(x >> 2) + Low(y >> 2)
    ensures Low((x ^ y) >> 3) <= Low(x >> 3) + Low(y >> 3)
    ensures Low((x ^ y) >> 4) <= Low(x >> 4) + Low(y >> 4)
    ensures Low((x ^ y) >> 5) <= Low(x >> 5) + Low(y >> 5)
    ensures Low((x ^ y) >> 6) <= Low(x >> 6) + Low(y >> 6)
    ensures Low((x ^ y) >> 7) <= Low(x >> 7) + Low(y >> 7)
    ensures Low((x ^ y) >> 8) <= Low(x >> 8) + Low(y >> 8)
    ensures Low((x ^ y) >> 9) <= Low(x >> 9) + Low(y >> 9)
    ensures Low((x ^ y) >> 10) <= Low(x >> 10) + Low(y >> 10)
    ensures Low((x ^ y) >> 11) <= Low(x >> 11) + Low(y >> 11)
    ensures Low((x ^ y) >> 12) <= Low(x >> 12) + Low(y >> 12)
    ensures Low((x ^ y) >> 13) <= Low(x >> 13) + Low(y >> 13)
    ensures Low((x ^ y) >> 14) <= Low(x >> 14) + Low(y >> 14)
    ensures Low((x ^ y) >> 15) <= Low(x >> 15) + Low(y >> 15)
  {
  }

  lemma TriLow(x: bv32, y: bv32)
    ensures Weight16(x ^ y) <= Weight16(x) + Weight16(y)
  {
    BitsTri(x, y);
  }

  lemma TriHigh(x: bv32, y: bv32)
    ensures Weight16((x ^ y) >> 16) <= Weight16(x >> 16) + Weight16(y >> 16)
  {
    assert (x ^ y) >> 16 == (x >> 16) ^ (y >> 16);
    TriLow(x >> 16, y >> 16);
  }

  /** The triangle inequality of the Hamming distance, in its XOR form. */
  lemma Triangle(x: bv32, y: bv32)
    ensures Weight(x ^ y) <= Weight(x) + Weight(y)
  {
    TriLow(x, y);
    TriHigh(x, y);
    WeightIsBitSum(x);
    WeightIsBitSum(y);
    WeightIsBitSum(x ^ y);
  }

  // ---------------------------------------------------------------------------
  // Encoding

  /** All ones when bit k of d is set, all zeros otherwise. */
  function Fill(d: bv32, k: bv32): (r: bv32)
    requires k < 32
    ensures r == 0 || r == 0xffff_ffff
  {
    0 - ((d >> k) & 1)
  }

  /**
   * The reference systematic encoder: the message bits d & 0x1f select rows
   * of the generator matrix, row k being x^(10+k) plus its remainder modulo
   * the generator polynomial.
   */
  function Gen(d: bv32): (r: bv32)
    ensures r >> 10 == d & 0x1f
  {
    (0x537 & Fill(d, 0)) ^ (0xa6e & Fill(d, 1)) ^ (0x11eb & Fill(d, 2)) ^ (0x23d6 & Fill(d, 3)) ^ (0x429b & Fill(d, 4))
  }

  /** The code is linear. */
  lemma GenLinear(a: bv32, b: bv32)
    ensures Gen(a ^ b) == Gen(a) ^ Gen(b)
  {
  }

  /** Every non-zero codeword has at least seven one bits. */
  lemma GenWeight(d: bv32)
    ensures d & 0x1f != 0 ==> Weight(Gen(d)) >= 7
  {
    WeightIsBitSum(Gen(d));
  }

  /** Distinct messages give codewords at Hamming distance at least 7. */
  lemma MinDistance(a: bv32, b: bv32)
    ensures a & 0x1f != b & 0x1f ==> Distance(Gen(a), Gen(b)) >= 7
  {
    if a & 0x1f != b & 0x1f {
      GenLinear(a, b);
      GenWeight(a ^ b);
    }
  }

  /** The two registers of the shift-register encoder. */
  datatype Regs = Regs(wk: bv32, data: bv32)

  /**
   * One round of the encoder loop: both registers move up one bit, and the
   * generator is added to the work register when bit 10 of their sum is set.
   */
  function Shift(wk: bv32, data: bv32): Regs
  {
    var w := wk << 1;
    var d := data << 1;
    Regs(w ^ (GX & Fill(w ^ d, 10)), d)
  }

  /** The generator is added to w exactly when bit 10 of v is set. */
  lemma AddGenerator(w: bv32, v: bv32)
    ensures v & 0x400 != 0 ==> w ^ (GX & Fill(v, 10)) == w ^ GX
    ensures v & 0x400 == 0 ==> w ^ (GX & Fill(v, 10)) == w
  {
  }

  /** The registers after i rounds on message d. */
  ghost function Run(d: bv32, i: nat): Regs
  {
    if i == 0 then Regs(0, d << 5) else var s := Run(d, i - 1); Shift(s.wk, s.data)
  }

  /** Five rounds of the shift register compute the reference encoding. */
  lemma RunGen(d: bv32)
    ensures var s := Run(d, 5); (s.data & 0x7c00) | (s.wk & 0x3ff) == Gen(d)
  {
    var s0 := Run(d, 0);
    var s1 := Run(d, 1);
    assert s1 == Shift(s0.wk, s0.data);
    var s2 := Run(d, 2);
    assert s2 == Shift(s1.wk, s1.data);
    var s3 := Run(d, 3);
    assert s3 == Shift(s2.wk, s2.data);
    var s4 := Run(d, 4);
    assert s4 == Shift(s3.wk, s3.data);
    var s5 := Run(d, 5);
    assert s5 == Shift(s4.wk, s4.data);
  }

  /** The two outcomes of the encoder's conditional, against the reference round. */
  lemma ShiftCases(wk0: bv32, data0: bv32, wk: bv32, data: bv32)
    requires data == data0 << 1
    requires ((wk0 << 1) ^ data) & 0x400 != 0 ==> wk == (wk0 << 1) ^ GX
    requires ((wk0 << 1) ^ data) & 0x400 == 0 ==> wk == wk0 << 1
    ensures Regs(wk, data) == Shift(wk0, data0)
  {
    AddGenerator(wk0 << 1, (wk0 << 1) ^ data);
  }

  /** One round of the encoder loop on the two registers. */
  method ShiftStep(wk0: bv32, data0: bv32) returns (wk: bv32, data: bv32)
    ensures Regs(wk, data) == Shift(wk0, data0)
  {
    wk := wk0 << 1;
    data := data0 << 1;
    if (wk ^ data) & 0x400 != 0 {
      wk := wk ^ GX;
    }
    ShiftCases(wk0, data0, wk, data);
  }

  /** The shift-register encoder of one message. */
  method SlowEncode(d: bv32) returns (r: bv32)
    ensures r == Gen(d)
  {
    var wk: bv32 := 0;
    var data := d << 5;
    for i := 0 to 5
      invariant Regs(wk, data) == Run(d, i)
    {
      wk, data := ShiftStep(wk, data);
    }
    RunGen(d);
    r := (data & 0x7c00) | (wk & 0x3ff);
  }

  /** The number of bits in which c1 and c2 differ; Java needs c1 ^ c2 >= 0 to stop. */
  method CalcHammingDistance(c1: bv32, c2: bv32) returns (h: int)
    requires c1 ^ c2 < 0x8000_0000
    ensures h == Distance(c1, c2)
  {
    h := 0;
    var bitDiffs := c1 ^ c2;
    while bitDiffs != 0
      invariant h + Weight(bitDiffs) == Weight(c1 ^ c2)
      decreases bitDiffs
    {
      if bitDiffs & 1 != 0 {
        h := h + 1;
      }
      bitDiffs := bitDiffs >> 1;
    }
  }

  // ---------------------------------------------------------------------------
  // Decoding

  /** Entry j of codes is farther than 3 from the received word x. */
  ghost predicate Far(codes: seq<bv32>, x: bv32, j: int)
    requires 0 <= j < |codes|
  {
    Distance(x, codes[j]) > 3
  }

  /**
   * What the decoder promises for received word x and table codes: r is the
   * first entry within distance 3 of x, or NOT_FOUND when there is none.
   */
  ghost predicate FirstWithin(codes: seq<bv32>, x: bv32, r: bv32)
  {
    (r == NOT_FOUND && forall i :: 0 <= i < |codes| ==> Far(codes, x, i)) ||
    (exists i :: 0 <= i < |codes| && r == codes[i] && !Far(codes, x, i) &&
       forall j :: 0 <= j < i ==> Far(codes, x, j))
  }

  /** The table of valid codewords, entry d holding the encoding of message d. */
  ghost predicate IsCodeTable(codes: seq<bv32>)
  {
    |codes| == 32 && forall d {:trigger Gen(d as bv32)} :: 0 <= d < 32 ==> codes[d] == Gen(d as bv32)
  }

  /** No word lies within distance 3 of two words at distance 7 or more. */
  lemma CloseToOne(x: bv32, c1: bv32, c2: bv32)
    ensures Distance(c1, c2) >= 7 ==> Distance(x, c1) > 3 || Distance(x, c2) > 3
  {
    assert (x ^ c1) ^ (x ^ c2) == c1 ^ c2;
    Triangle(x ^ c1, x ^ c2);
  }

  /** Only the five message bits of the argument matter to the encoding. */
  lemma GenMask(a: bv32, b: bv32)
    ensures a & 0x1f == b & 0x1f ==> Gen(a) == Gen(b)
  {
  }

  /** The table position of the message held in the low five bits of d. */
  lemma MessageIndex(d: bv32) returns (k: int)
    ensures 0 <= k < 32 && k as bv32 == d & 0x1f
  {
    k := (d & 0x1f) as int;
  }

  /**
   * Flipping the bits of e in a codeword moves it by the weight of e, counted
   * on the fifteen bits the decoder looks at.
   */
  lemma ErrorDistance(d: bv32, e: bv32)
    ensures Distance((Gen(d) ^ e) & 0x7fff, Gen(d)) == Weight(e & 0x7fff)
  {
    assert ((Gen(d) ^ e) & 0x7fff) ^ Gen(d) == e & 0x7fff;
  }

  /** When some entry is within distance 3, the decoder does not answer -1. */
  lemma FirstWithinFound(codes: seq<bv32>, x: bv32, r: bv32, k: int)
    requires FirstWithin(codes, x, r)
    requires 0 <= k < |codes| && !Far(codes, x, k)
    ensures exists i :: 0 <= i < |codes| && r == codes[i] && !Far(codes, x, i)
  {
  }

  /** The table holds the codeword of every message. */
  lemma EntryOf(codes: seq<bv32>, d: bv32) returns (k: int)
    requires IsCodeTable(codes)
    ensures 0 <= k < |codes| && codes[k] == Gen(d)
  {
    k := MessageIndex(d);
    GenMask(k as bv32, d);
    assert codes[k] == Gen(k as bv32);
  }

  /** Every table entry is the codeword of some message. */
  lemma MessageOf(codes: seq<bv32>, i: int) returns (m: bv32)
    requires IsCodeTable(codes) && 0 <= i < |codes|
    ensures codes[i] == Gen(m)
  {
    m := i as bv32;
    assert codes[i] == Gen(m);
  }

  /** Two entries of the table are equal or at distance at least 7. */
  lemma TableDistance(codes: seq<bv32>, i: int, k: int)
    requires IsCodeTable(codes) && 0 <= i < |codes| && 0 <= k < |codes|
    ensures codes[i] == codes[k] || Distance(codes[i], codes[k]) >= 7
  {
    var mi := MessageOf(codes, i);
    var mk := MessageOf(codes, k);
    MinDistance(mi, mk);
    GenMask(mi, mk);
  }

  /** Two table entries both within distance 3 of x are the same codeword. */
  lemma NearIsSent(codes: seq<bv32>, x: bv32, i: int, k: int)
    requires IsCodeTable(codes) && 0 <= i < |codes| && 0 <= k < |codes|
    requires !Far(codes, x, i) && !Far(codes, x, k)
    ensures codes[i] == codes[k]
  {
    if codes[i] != codes[k] {
      TableDistance(codes, i, k);
      CloseToOne(x, codes[i], codes[k]);
      assert false;
    }
  }

  /**
   * The decoder corrects up to three errors: when the fifteen-bit word x is
   * within distance 3 of the codeword of d, the first entry within distance 3
   * is that codeword.
   */
  lemma DecodeCorrects(codes: seq<bv32>, x: bv32, d: bv32, r: bv32)
    requires IsCodeTable(codes)
    requires Distance(x, Gen(d)) <= 3
    requires FirstWithin(codes, x, r)
    ensures r == Gen(d)
  {
    var k := EntryOf(codes, d);
    FirstWithinFound(codes, x, r, k);
    var i :| 0 <= i < |codes| && r == codes[i] && !Far(codes, x, i);
    NearIsSent(codes, x, i, k);
  }

  /**
   * Flipping at most three of the fifteen bits of a codeword, the decoder's
   * answer is still that codeword.
   */
  lemma CorrectsErrors(codes: seq<bv32>, d: bv32, e: bv32, r: bv32)
    requires IsCodeTable(codes)
    requires Weight(e & 0x7fff) <= 3
    requires FirstWithin(codes, (Gen(d) ^ e) & 0x7fff, r)
    ensures r == Gen(d)
  {
    ErrorDistance(d, e);
    DecodeCorrects(codes, (Gen(d) ^ e) & 0x7fff, d, r);
  }

  /**
   * A fifteen-bit word and a table entry differ in bits below 15 only, so the
   * difference is a non-negative Java int.
   */
  lemma EntryFits(codes: seq<bv32>, x: bv32, i: int)
    requires IsCodeTable(codes) && 0 <= i < |codes| && x < 0x8000
    ensures x ^ codes[i] < 0x8000_0000
  {
    assert codes[i] == Gen(i as bv32);
    XorFits(x, codes[i]);
  }

  lemma XorFits(x: bv32, c: bv32)
    ensures x < 0x8000 && c >> 10 < 32 ==> x ^ c < 0x8000_0000
  {
  }

  /** The decoder's singleton: the table of the 32 valid codewords. */
  class BchTable {
    const trueCodes: seq<bv32>

    ghost predicate Valid()
    {
      IsCodeTable(trueCodes)
    }

    constructor ()
      ensures Valid()
    {
      var codes := new bv32[32];
      MakeTrueCodes(codes);
      trueCodes := codes[..];
    }

    /** Fills the table by encoding every five-bit message. */
    static method MakeTrueCodes(codes: array<bv32>)
      requires codes.Length == 32
      modifies codes
      ensures IsCodeTable(codes[..])
    {
      for i := 0 to codes.Length
        invariant forall d :: 0 <= d < i ==> codes[d] == Gen(d as bv32)
      {
        codes[i] := SlowEncode(i as bv32);
      }
    }

    /** The codeword of the five low bits of data, by table lookup. */
    function Encode(data: bv32): (r: bv32)
      requires Valid()
      ensures r == Gen(data)
      ensures r >> 10 == data & 0x1f
    {
      var k := (data & 0x1f) as int;
      assert k as bv32 == data & 0x1f;
      assert trueCodes[k] == Gen(k as bv32);
      GenMask(k as bv32, data);
      trueCodes[k]
    }

    /** Whether table entry i is within distance 3 of the fifteen-bit word x. */
    method IsNear(x: bv32, i: int) returns (near: bool)
      requires Valid() && x < 0x8000 && 0 <= i < |trueCodes|
      ensures near <==> !Far(trueCodes, x, i)
    {
      EntryFits(trueCodes, x, i);
      var h := CalcHammingDistance(x, trueCodes[i]);
      near := h <= 3;
    }

    /** The first valid codeword within distance 3 of the low fifteen bits of data, or -1. */
    method Decode(data: bv32) returns (r: bv32)
      requires Valid()
      ensures FirstWithin(trueCodes, data & 0x7fff, r)
    {
      var x := data & 0x7fff;
      for i := 0 to |trueCodes|
        invariant forall j :: 0 <= j < i ==> Far(trueCodes, x, j)
      {
        var near := IsNear(x, i);
        if near {
          return trueCodes[i];
        }
      }
      return NOT_FOUND;
    }
  }
}
