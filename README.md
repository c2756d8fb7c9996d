# QR code decoder core, modelled in Dafny

This project models the error-correcting core of a Java QR code decoder
(`jp.sourceforge.qrcode`) and proves properties of the model. It covers:

- GF(256) arithmetic (`Galois`).
- The Reed-Solomon block decoder (`RsDecode`), made of modified
  Berlekamp-Massey, Chien search and Forney correction.
- Both BCH(15,5) decoders: the nearest-codeword table in `reedsolomon.BCH_15_5`
  and the GF(16) syndrome decoder in `ecc.BCH15_5`.
- The algebra behind `ecc.BCH15_5` (`FieldAlgebra`, `Gf16`, `BchDecoding`):
  a corrected version of its decoder repairs up to three flipped bits, and
  the decoder as written does so only under stated conditions.
- The block de-interleaving and correction in `QRCodeDecoder.correctDataBlocks`.
- The retry loop of `QRCodeDecoder.decode(QRCodeImage)`, with its adjustment
  points and its result objects.
- Helpers: the integer square root, the content converter, `Point` and `Axis`.

The Java code's form is kept:

- Objects whose fields change are classes with `modifies` clauses.
- In-place array code works on Dafny arrays.
- Every loop is a `while` or `for` loop with invariants.
- Each method is proved against a specification function and its lemmas:
  - `Gf256` and `Poly` define the field and its polynomials;
  - `Locator` defines error locators and Forney values;
  - `BlockLayout` and `DataBlocks` define the interleaving;
  - `Retry` defines the outcome of the retry loop.

Java's 32-bit integers are modelled as an `int32` newtype. `JavaInt`
spells out Java's truncating `/` and `%`, its arithmetic `>>` and its
wrap-around for `+`, `-` and `*`. Bytes and field elements are `bv8`.

Several things are modelled as the code does them:

- **RS decoder parity.** Block correction creates the RS decoder with
  `eccPerRSBlock / 2` parity symbols: half the block's error-correction
  codewords. Its contract is stated with that number.
- **Single-block symbols.** The single-block branch corrects the array in
  place and returns that same array. It does not store the failure count in
  `numLastCorrectionFailures`.
- **Inner `DecodeResult`.** `QRCodeDecoder.DecodeResult.isCorrectionSucceeded`
  reads the decoder's field, not the result's own count.
- **`Point.equals`.** It returns true when the coordinates differ.
- **Adjustments.** `getAdjustPoints` yields 8 moves: four (1,1) moves, then
  (-2,0), (-1,-1), (3,-1), (-1,-1). The retry loop makes at most 8 attempts.
  The comment at `QRCodeDecoder.java:126-127` lists seven points; the model
  follows the code's eight moves.
- **Giving up.** With no candidate, the loop gives up with the message
  "Give up decoding". If every candidate's failure count is
  `Integer.MAX_VALUE`, the minimum search leaves index -1 and the final
  `elementAt` fails. The model keeps that case as the outcome
  `IndexOutOfBounds`.

Reading the symbol from the image is not modelled. Each attempt of the retry
loop is an abstract `Attempt`: either a failure with a message, or a reading
whose blocks were corrected. For a reading, the attempt carries the failure
count that block correction stored (None for a single-block symbol) and the
bytes or the error of the conversion.

## Model

| member | source | states |
|---|---|---|
| Galois.Galois.constructor | src/jp/sourceforge/qrcode/ecc/Galois.java:18-20 | the tables are built: expTbl[i] is α^i for i < 510 and logTbl is the discrete logarithm (Valid) |
| Galois.Galois.InitGaloisTable | src/jp/sourceforge/qrcode/ecc/Galois.java:29-39 | fills expTbl[i] with α^i for every i < 510, doubling modulo x^8+x^4+x^3+x^2+1, and logTbl[a] with the logarithm of every byte a |
| Galois.Galois.ExpTableRepeats | src/jp/sourceforge/qrcode/ecc/Galois.java:31-32 | expTbl[i] == expTbl[255 + i] for i < 255 |
| Galois.Galois.LogOfExp | src/jp/sourceforge/qrcode/ecc/Galois.java:29-39 | toLog(expTbl[i]) == i for i < 255 |
| Galois.Galois.ExpTablePermutation | src/jp/sourceforge/qrcode/ecc/Galois.java:29-39 | expTbl[0..254] are pairwise distinct and take exactly the nonzero byte values |
| Gf256.ExpOrder | src/jp/sourceforge/qrcode/ecc/Galois.java:13 | α has order 255 under the polynomial 0x11d: α^k != 1 for 0 < k < 255 |
| Gf256.ExpInjective | src/jp/sourceforge/qrcode/ecc/Galois.java:29-39 | α^i == α^j with i, j < 255 forces i == j |
| Gf256.ExpSurjective | src/jp/sourceforge/qrcode/ecc/Galois.java:29-39 | every nonzero byte is some α^i with i < 255 |
| Gf256.FMulAssoc | src/jp/sourceforge/qrcode/ecc/Galois.java:81-83 | the table product is associative |
| Gf256.FMulDist | src/jp/sourceforge/qrcode/ecc/Galois.java:81-83 | the table product distributes over XOR |
| Galois.Galois.ToExp | src/jp/sourceforge/qrcode/ecc/Galois.java:46-48 | α^a, the same as α^(a mod 255) |
| Galois.Galois.ToLog | src/jp/sourceforge/qrcode/ecc/Galois.java:56-58 | the logarithm in [0,255): α^r == a for nonzero a, and 0 for 0 |
| Galois.Galois.ToPos | src/jp/sourceforge/qrcode/ecc/Galois.java:70-72 | a position in [length-255, length-1] with α^(length-1-r) == a for nonzero a |
| Galois.Galois.Mul | src/jp/sourceforge/qrcode/ecc/Galois.java:81-83 | the field product of a and b |
| Galois.Galois.MulZeroComm | src/jp/sourceforge/qrcode/ecc/Galois.java:81-83 | mul(a,b) is 0 exactly when a or b is 0, and mul is commutative |
| Galois.Galois.MulExp | src/jp/sourceforge/qrcode/ecc/Galois.java:93-95 | 0 exactly for a == 0; otherwise its logarithm is log(a)+b mod 255; for b ≥ 0 it is a·α^b |
| Galois.Galois.Div | src/jp/sourceforge/qrcode/ecc/Galois.java:104-106 | 0 exactly for a == 0; a when b == 0; otherwise r·b == a |
| Galois.Galois.DivExp | src/jp/sourceforge/qrcode/ecc/Galois.java:116-118 | 0 exactly for a == 0; otherwise log(r)+b ≡ log(a); for b ≥ 0, r·α^b == a |
| Galois.Galois.Inv | src/jp/sourceforge/qrcode/ecc/Galois.java:127-129 | a·inv(a) == 1 for nonzero a; inv(0) == 1 |
| Galois.Galois.DivMul | src/jp/sourceforge/qrcode/ecc/Galois.java:98-129 | div(mul(a,b),b) == a for nonzero b, and mul(a, inv(a)) == 1 for nonzero a |
| Galois.Galois.MulExpDivExp | src/jp/sourceforge/qrcode/ecc/Galois.java:93-118 | mulExp(a,e) == mul(a, toExp(e)) and divExp(mulExp(a,e), e) == a |
| Galois.Galois.MulPoly | src/jp/sourceforge/qrcode/ecc/Galois.java:139-152 | each seki[k] becomes the XOR over ia+ib == k of a[ia]·b[ib]; terms beyond seki's length are dropped |
| Galois.Galois.CalcSyndrome | src/jp/sourceforge/qrcode/ecc/Galois.java:166-177 | syn[i] is the Horner value of data[0..length) at α^i; the result is true exactly when every syn[i] is 0 |
| RsDecode.RsDecode.constructor | src/jp/sourceforge/qrcode/ecc/RsDecode.java:15-17 | a decoder with the given npar sharing the field tables |
| RsDecode.RsDecode.Discrepancy | src/jp/sourceforge/qrcode/ecc/RsDecode.java:46-49 | the discrepancy is coefficient n of sg1(z)·S(z) |
| RsDecode.RsDecode.AddScaled | src/jp/sourceforge/qrcode/ecc/RsDecode.java:52-55 | wk[j] = sg1[j] + d·sg0[j] for j ≤ n and 0 above |
| RsDecode.RsDecode.DivideInto | src/jp/sourceforge/qrcode/ecc/RsDecode.java:63-65 | sg0[j] becomes sg1[j]/d for j ≤ jisu0 and keeps its value above |
| RsDecode.RsDecode.MbmStep | src/jp/sourceforge/qrcode/ecc/RsDecode.java:44-73 | one Berlekamp-Massey step keeps the invariant that sg1 annihilates the syndromes so far with sg1[0] == 1 and bounded degree; it fails only when the syndromes are not all 0 |
| RsDecode.RsDecode.CalcSigmaMBM | src/jp/sourceforge/qrcode/ecc/RsDecode.java:35-77 | result -1 or a degree in [0, npar/2]; 0 exactly for an all-zero syndrome; σ[0] == 1, σ annihilates the syndromes, ω = σ·S truncated; on -1 sigma and omega are untouched |
| RsDecode.BMFinish | src/jp/sourceforge/qrcode/ecc/RsDecode.java:74-76 | copying sg1 into sigma keeps the annihilation property and the product ω |
| RsDecode.RsDecode.LocatorValue | src/jp/sourceforge/qrcode/ecc/RsDecode.java:125-129 | wk is σ evaluated at α^-i |
| RsDecode.RsDecode.ChienSearch | src/jp/sourceforge/qrcode/ecc/RsDecode.java:97-146 | 0 or RS_CORRECT_ERROR; 0 exactly when jisu-1 roots are found below n and the last locator's logarithm is below n; then pos holds those roots and the last locator; pos is unchanged from jisu on |
| RsDecode.RsDecode.ChienStep | src/jp/sourceforge/qrcode/ecc/RsDecode.java:125-142 | one candidate keeps the scan invariant: roots found so far stored from the top, last = σ1 minus them |
| RsDecode.RsDecode.ChienLast | src/jp/sourceforge/qrcode/ecc/RsDecode.java:134-145 | the end of the scan decides the result as ChienSearch states |
| RsDecode.RootFound | src/jp/sourceforge/qrcode/ecc/RsDecode.java:130-133 | a zero of σ at α^-i extends the root list by i and removes α^i from last |
| Locator.RootsSpec | src/jp/sourceforge/qrcode/ecc/RsDecode.java:117-143 | the roots listed are zeros of σ, increasing, and include every zero below n |
| Locator.LastFound | src/jp/sourceforge/qrcode/ecc/RsDecode.java:103-105 | after jisu-1 roots, the last locator is σ1 XOR all roots found |
| Locator.SigmaAtInverse | src/jp/sourceforge/qrcode/ecc/RsDecode.java:125-129 | the Java sum with exponents (255-i)·j is σ evaluated at α^(255-i), the inverse of α^i |
| Locator.LocatorsInRange | src/jp/sourceforge/qrcode/ecc/RsDecode.java:105-145 | after a successful search every locator's position toPos(length, ps) lies in [0, length) |
| RsDecode.RsDecode.OmegaValue | src/jp/sourceforge/qrcode/ecc/RsDecode.java:180-183 | ov is ω(z) summed over its first jisu coefficients |
| RsDecode.RsDecode.DerivValue | src/jp/sourceforge/qrcode/ecc/RsDecode.java:186-189 | dv is the formal derivative σ'(z), whose even-degree terms vanish in characteristic 2 |
| Locator.TimesParity | src/jp/sourceforge/qrcode/ecc/RsDecode.java:186-189 | an n-fold sum of x is x for odd n and 0 for even n |
| RsDecode.RsDecode.ForneyValue | src/jp/sourceforge/qrcode/ecc/RsDecode.java:196 | the error value ps·ω(z)/σ'(z) |
| Locator.Forney | src/jp/sourceforge/qrcode/ecc/RsDecode.java:177-196 | the error value is the locator times ω over σ' at the inverse locator |
| RsDecode.RsDecode.DoForney | src/jp/sourceforge/qrcode/ecc/RsDecode.java:174-198 | data becomes Corrected(old data): the error value XORed in at each toPos(length, pos[i]) |
| Locator.CorrectedElsewhere | src/jp/sourceforge/qrcode/ecc/RsDecode.java:174-197 | an index that is no locator's position keeps its value |
| Locator.CorrectedPattern | src/jp/sourceforge/qrcode/ecc/RsDecode.java:174-197 | each index changes by the XOR of the error values aimed at it |
| Locator.CorrectedTwice | src/jp/sourceforge/qrcode/ecc/RsDecode.java:196 | applying the same correction twice restores the data |
| RsDecode.RsDecode.Decode | src/jp/sourceforge/qrcode/ecc/RsDecode.java:214-241 | RS_PERM_ERROR exactly for length < npar or > 255; 0 exactly for an all-zero syndrome; else RS_CORRECT_ERROR or 1..npar/2; data unchanged unless a positive result with correction; then σ, ω, pos locate the errors and data is corrected at their positions |
| RsDecode.RsDecode.Correct | src/jp/sourceforge/qrcode/ecc/RsDecode.java:223-240 | for a nonzero syndrome: RS_CORRECT_ERROR with data unchanged, or a degree in 1..npar/2 with located errors and corrected data |
| RsDecode.RsDecode.DecodeCorrect | src/jp/sourceforge/qrcode/ecc/RsDecode.java:243-245 | decode with correction: the result range, RS_PERM_ERROR exactly for a length outside [npar, 255], 0 exactly for zero syndromes, data unchanged unless positive, and for a positive result the located σ, ω and error locators and the data corrected by their Forney values |
| RsDecode.RsDecode.DecodeAll | src/jp/sourceforge/qrcode/ecc/RsDecode.java:247-249 | decode of the whole array: the result range, RS_PERM_ERROR exactly for a length outside [npar, 255], 0 exactly for a clean block, data unchanged unless positive, and for a positive result the located σ, ω and error locators and the array corrected by their Forney values |
| BchTable.BchTable.constructor | src/jp/sourceforge/reedsolomon/BCH_15_5.java:11-13 | trueCodes is the table of all 32 codewords |
| BchTable.BchTable.MakeTrueCodes | src/jp/sourceforge/reedsolomon/BCH_15_5.java:22-26 | trueCodes[i] == slowEncode(i) for all 32 entries |
| BchTable.SlowEncode | src/jp/sourceforge/reedsolomon/BCH_15_5.java:28-39 | the shift-register encoder computes Gen(d): systematic, bits 10..14 are d & 0x1f, the rest is the remainder by 0x137 |
| BchTable.RunGen | src/jp/sourceforge/reedsolomon/BCH_15_5.java:30-38 | five register steps give Gen(d) |
| BchTable.GenLinear | src/jp/sourceforge/reedsolomon/BCH_15_5.java:28-39 | the encoding is linear over XOR |
| BchTable.GenWeight | src/jp/sourceforge/reedsolomon/BCH_15_5.java:28-39 | every nonzero message's codeword has at least 7 bits set |
| BchTable.MinDistance | src/jp/sourceforge/reedsolomon/BCH_15_5.java:79-85 | codewords of different messages are at Hamming distance ≥ 7 |
| BchTable.BchTable.Encode | src/jp/sourceforge/reedsolomon/BCH_15_5.java:41-43 | trueCodes[d & 0x1f], equal to Gen(d), depending only on d & 0x1f |
| BchTable.CalcHammingDistance | src/jp/sourceforge/reedsolomon/BCH_15_5.java:53-65 | the number of differing bits of c1 and c2 |
| BchTable.WeightIsBitSum | src/jp/sourceforge/reedsolomon/BCH_15_5.java:57-63 | the loop's count equals the bit sum of c1 ^ c2 |
| BchTable.DistanceMetric | src/jp/sourceforge/reedsolomon/BCH_15_5.java:53-65 | the distance is symmetric and 0 exactly for equal words |
| BchTable.Triangle | src/jp/sourceforge/reedsolomon/BCH_15_5.java:53-65 | weight(x ^ y) ≤ weight(x) + weight(y) |
| BchTable.BchTable.Decode | src/jp/sourceforge/reedsolomon/BCH_15_5.java:76-93 | the first table entry within distance 3 of data & 0x7fff, or -1 when none is |
| BchTable.CloseToOne | src/jp/sourceforge/reedsolomon/BCH_15_5.java:79-85 | no word is within 3 of two codewords 7 apart |
| BchTable.NearIsSent | src/jp/sourceforge/reedsolomon/BCH_15_5.java:79-92 | two table entries within 3 of the same word are equal |
| BchTable.DecodeCorrects | src/jp/sourceforge/reedsolomon/BCH_15_5.java:76-93 | a word within 3 of encode(d) decodes to encode(d) |
| BchTable.CorrectsErrors | src/jp/sourceforge/reedsolomon/BCH_15_5.java:76-93 | encode(d) with up to 3 of its 15 bits flipped decodes to encode(d) |
| BchGf16.Bch15_5.constructor | src/jp/sourceforge/qrcode/ecc/BCH15_5.java:8-12 | builds gf16 and keeps the received array itself |
| BchGf16.Bch15_5.CreateGF16 | src/jp/sourceforge/qrcode/ecc/BCH15_5.java:21-35 | a 16×4 table whose row k is α^k in GF(16) as a bit vector |
| BchGf16.RowValues | src/jp/sourceforge/qrcode/ecc/BCH15_5.java:21-35 | the rows: unit vectors, the seed {1,1,0,0}, each next row shifted and reduced, row 15 equal to row 0 |
| BchGf16.FindSpec | src/jp/sourceforge/qrcode/ecc/BCH15_5.java:37-47 | the index of the row equal to v, or 15 exactly when no row of 0..14 is |
| BchGf16.Bch15_5.SearchElement | src/jp/sourceforge/qrcode/ecc/BCH15_5.java:37-47 | the first k < 15 with gf16[k] == x, else 15 |
| BchGf16.SearchFound | src/jp/sourceforge/qrcode/ecc/BCH15_5.java:37-47 | the search over the array table returns Find(v) |
| BchGf16.Bch15_5.AddGF | src/jp/sourceforge/qrcode/ecc/BCH15_5.java:82-90 | the index of the sum of two field elements, an index outside 0..14 reading as zero |
| BchGf16.AddLaws | src/jp/sourceforge/qrcode/ecc/BCH15_5.java:82-90 | addGF is symmetric, 15 exactly for equal summands, and otherwise the row of the vector sum |
| BchGf16.AddOutOfRange | src/jp/sourceforge/qrcode/ecc/BCH15_5.java:85-86 | an out-of-range second argument acts as zero |
| BchGf16.Bch15_5.GetCode | src/jp/sourceforge/qrcode/ecc/BCH15_5.java:49-77 | a 15-entry code whose f[8..14] are bits 0..6 of the input; all bits for a non-negative input |
| BchGf16.Bch15_5.SyndromeAt | src/jp/sourceforge/qrcode/ecc/BCH15_5.java:97-102 | the logarithm of the sum of gf16[k·mult] over the set bits k, or -1 for zero |
| BchGf16.Bch15_5.CalcSyndrome | src/jp/sourceforge/qrcode/ecc/BCH15_5.java:93-127 | the five syndromes, with s[1] == 2·s[0] mod 15 and s[3] == 2·s[1] mod 15, -1 propagated |
| BchGf16.Bch15_5.CalcErrorPositionVariable | src/jp/sourceforge/qrcode/ecc/BCH15_5.java:130-156 | σ1 = s[0], σ2 and σ3 as the code computes them through addGF |
| BchGf16.Bch15_5.CalcSigma2 | src/jp/sourceforge/qrcode/ecc/BCH15_5.java:137-144 | σ2 from mother and child, -1 when both are zero |
| BchGf16.Bch15_5.CalcSigma3 | src/jp/sourceforge/qrcode/ecc/BCH15_5.java:149-152 | σ3 as two addGF steps |
| BchGf16.Bch15_5.EvalLocator | src/jp/sourceforge/qrcode/ecc/BCH15_5.java:175-187 | the index of x^3 + σ1x^2 + σ2x + σ3 at x = α^i |
| BchGf16.Bch15_5.DetectErrorBitPosition | src/jp/sourceforge/qrcode/ecc/BCH15_5.java:158-196 | no errors when σ1 is -1; one error at σ1 when σ2 is -1; otherwise the roots of the cubic in increasing order, None for a fourth root |
| BchGf16.Bch15_5.ScanRoots | src/jp/sourceforge/qrcode/ecc/BCH15_5.java:173-193 | the scan over i < 15 records the roots as the code does |
| BchGf16.HitsExact | src/jp/sourceforge/qrcode/ecc/BCH15_5.java:173-193 | i is listed exactly when it is a root |
| BchGf16.PositionsValid | src/jp/sourceforge/qrcode/ecc/BCH15_5.java:158-196 | a result holds at most 3 positions, each below 15 and increasing |
| BchGf16.Bch15_5.CorrectErrorBit | src/jp/sourceforge/qrcode/ecc/BCH15_5.java:198-206 | flips exactly the listed bits y[errorPos[1..errorPos[0]]], returns y itself and sets numCorrectedError = errorPos[0] |
| BchGf16.FlipExactly | src/jp/sourceforge/qrcode/ecc/BCH15_5.java:200-201 | bit i changes exactly when i is listed |
| BchGf16.Bch15_5.Correct | src/jp/sourceforge/qrcode/ecc/BCH15_5.java:14-19 | the received array is repaired in place as Repaired states, or None (with nothing changed) when the locator has a fourth root |
| BchGf16.CodewordClean | src/jp/sourceforge/qrcode/ecc/BCH15_5.java:14-19 | a codeword is reported clean and left as it is |
| BchGf16.SingleSyndromes | src/jp/sourceforge/qrcode/ecc/BCH15_5.java:93-127 | one flipped bit j of a codeword gives syndromes j, 2j, 3j, 4j, 5j mod 15 |
| BchGf16.CorrectsSingleError | src/jp/sourceforge/qrcode/ecc/BCH15_5.java:14-19 | a codeword with one flipped bit j yields one error at j and is restored |
| Gf16.ExpValues | src/jp/sourceforge/qrcode/ecc/BCH15_5.java:21-35 | the codes of α^0 .. α^15 under α⁴ = α + 1, the rows the table holds, with α^15 = α^0 |
| Gf16.GfIsField | src/jp/sourceforge/qrcode/ecc/BCH15_5.java:21-35 | the 4-bit codes with XOR and the shift-and-reduce product form a field without zero divisors |
| BchDecoding.ExIsExpMap | src/jp/sourceforge/qrcode/ecc/BCH15_5.java:82-90 | reading exponent k as α^k (−1 and 15 as zero) turns addGF into field addition and adding exponents mod 15 into multiplication |
| BchDecoding.FlipSyndromes | src/jp/sourceforge/qrcode/ecc/BCH15_5.java:93-127 | the syndromes of a codeword with the bits ps flipped: s[0], s[2], s[4] are the logarithms of the sums of α^(k·p) over the flipped p, and s[1] is s[0] doubled |
| BchDecoding.SyndromeValues | src/jp/sourceforge/qrcode/ecc/BCH15_5.java:93-127 | as field elements, the syndromes of a codeword with errors at x, y, z are S1 = x + y + z, S3 = x³ + y³ + z³ and S5 = x⁵ + y⁵ + z⁵ |
| FieldAlgebra.Denominator | src/jp/sourceforge/qrcode/ecc/BCH15_5.java:137-139 | the denominator S3 + S1³ of σ2 equals σ2·σ1 + σ3 and (y + z)(x + z)(x + y), non-zero for distinct errors |
| FieldAlgebra.Numerator | src/jp/sourceforge/qrcode/ecc/BCH15_5.java:141-144 | the numerator S5 + S3·S1² of σ2 is σ2 times the denominator |
| FieldAlgebra.ThirdCoefficient | src/jp/sourceforge/qrcode/ecc/BCH15_5.java:149-152 | the σ3 formula (S3 + S1²·S1) + S1·σ2 gives xyz |
| FieldAlgebra.LocatorZero | src/jp/sourceforge/qrcode/ecc/BCH15_5.java:173-193 | x³ + σ1x² + σ2x + σ3 built from x, y, z vanishes exactly at x, y and z |
| BchDecoding.FixedPositionsValid | src/jp/sourceforge/qrcode/ecc/BCH15_5.java:158-196 | every position the corrected decoder reports is a bit index below 15 |
| BchDecoding.Decodes | src/jp/sourceforge/qrcode/ecc/BCH15_5.java:130-196 | over any field with an exponent map, the corrected decoder reports exactly the error positions of a codeword with up to three distinct errors |
| BchDecoding.FixedCorrects | src/jp/sourceforge/qrcode/ecc/BCH15_5.java:14-19 | the corrected decoder reports exactly the flipped positions of a codeword with up to three flipped bits and restores the codeword |
| BchDecoding.WrittenSigma | src/jp/sourceforge/qrcode/ecc/BCH15_5.java:137-152 | σ2 and σ3 as written equal the corrected ones when S1, S1², S3, the numerator and the denominator are all non-zero |
| BchDecoding.WrittenMask | src/jp/sourceforge/qrcode/ecc/BCH15_5.java:173-193 | with σ1 and σ2 non-zero the scan as written finds the roots the corrected locator has |
| BchDecoding.WrittenAgrees | src/jp/sourceforge/qrcode/ecc/BCH15_5.java:130-196 | with S1 and S3 non-zero and the numerator and denominator both non-zero or both zero, the decoder as written reports what the corrected one reports |
| BchDecoding.WrittenCorrects | src/jp/sourceforge/qrcode/ecc/BCH15_5.java:14-19 | the decoder as written restores a codeword with no error, one error, or two or three errors whose S1, S3 and numerator S5 + S3·S1² are non-zero |
| BchDecoding.TwoErrorsSigma | src/jp/sourceforge/qrcode/ecc/BCH15_5.java:137-152 | for the syndromes 10, 5, −1, 10, 5 σ2 as written is α^8 where the corrected value is α^5 |
| BchDecoding.TwoErrorsMissed | src/jp/sourceforge/qrcode/ecc/BCH15_5.java:141-144 | a codeword with bits 0 and 5 flipped is not restored by the decoder as written |
| BchDecoding.ThreeErrorsUnnoticed | src/jp/sourceforge/qrcode/ecc/BCH15_5.java:162-164 | a codeword with bits 0, 1 and 4 flipped is reported clean and left as received |
| BchDecoding.ZeroSigma2Sigma | src/jp/sourceforge/qrcode/ecc/BCH15_5.java:141-152 | for the syndromes 6, 12, 8, 9, 5 the numerator is zero, and σ2 as written is α^1 where the corrected value is zero |
| BchDecoding.ZeroSigma2Missed | src/jp/sourceforge/qrcode/ecc/BCH15_5.java:144 | a codeword with bits 0, 1 and 12 flipped is not restored by the decoder as written |
| BlockLayout.Layout.Received | src/jp/sourceforge/qrcode/QRCodeDecoder.java:245-264 | block i element j is blocks[ReadIndex(i,j)], always inside the data capacity |
| BlockLayout.EqualBlocks | src/jp/sourceforge/qrcode/QRCodeDecoder.java:218-224 | with equal block lengths block i element j is blocks[j·numRSBlocks + i] |
| BlockLayout.ReadInjective | src/jp/sourceforge/qrcode/QRCodeDecoder.java:240-273 | no stream index is read for two different block elements |
| BlockLayout.Locate | src/jp/sourceforge/qrcode/QRCodeDecoder.java:240-273 | every index of [0, dataCapacity) is read for some block element |
| BlockLayout.LocateInverse | src/jp/sourceforge/qrcode/QRCodeDecoder.java:240-273 | Locate undoes ReadIndex: de-interleaving is a bijection onto the stream |
| BlockLayout.DataFirst | src/jp/sourceforge/qrcode/QRCodeDecoder.java:249-250 | a block element is read from the data area exactly when it is a data codeword |
| BlockLayout.ReadRegion | src/jp/sourceforge/qrcode/QRCodeDecoder.java:246-264 | each read index lies in the data rows, the extra column or the ECC rows, as the mod shift arranges |
| BlockLayout.Capacity | src/jp/sourceforge/qrcode/QRCodeDecoder.java:216-242 | dataCapacity is the total data plus eccPerRSBlock per block |
| BlockLayout.DataBeforeAll | src/jp/sourceforge/qrcode/QRCodeDecoder.java:274-285 | the data of all blocks fills dataCapacity - numRSBlocks·eccPerRSBlock codewords |
| DataBlocks.CountFailures | src/jp/sourceforge/qrcode/QRCodeDecoder.java:228-231 | the count is between 0 and the number of blocks; 0 exactly when no block failed |
| DataBlocks.DataOfIndex | src/jp/sourceforge/qrcode/QRCodeDecoder.java:274-285 | data codeword d of block i lands at DataBefore(i) + d of the output |
| DataBlocks.DataFromStream | src/jp/sourceforge/qrcode/QRCodeDecoder.java:245-285 | an unchanged block's data codewords reach the output exactly as they stood in the stream |
| DataBlocks.RepairedOnlyAtLocators | src/jp/sourceforge/qrcode/ecc/RsDecode.java:174-197 | a block repaired by the RS decoder differs from the received block only at the indices its error locators name |
| DataBlocks.DataUnlessLocated | src/jp/sourceforge/qrcode/QRCodeDecoder.java:245-285 | a data codeword reaches the output as it stood in the stream unless an error locator of its block names its index |
| QRCodeDecoder.QRCodeDecoder.constructor | src/jp/sourceforge/qrcode/QRCodeDecoder.java:69-73 | no tries and no failures recorded |
| QRCodeDecoder.ReadBlock | src/jp/sourceforge/qrcode/QRCodeDecoder.java:245-264 | a fresh array holding block i as Received defines it |
| QRCodeDecoder.QRCodeDecoder.CorrectBlock | src/jp/sourceforge/qrcode/QRCodeDecoder.java:245-271 | block i read and corrected by an RS decoder with eccPerRSBlock/2 parity symbols: the result code's cases, the block untouched unless positive, and for a positive result the block repaired at its located indices (BlockCorrected, Repaired) |
| QRCodeDecoder.QRCodeDecoder.CorrectAll | src/jp/sourceforge/qrcode/QRCodeDecoder.java:245-273 | every block corrected on its own, each with the RS decoder's promise including the repaired content; the failure count is the number of negative results |
| QRCodeDecoder.Gather | src/jp/sourceforge/qrcode/QRCodeDecoder.java:274-285 | the output starts with each block's data codewords in block order; the rest is untouched |
| QRCodeDecoder.CollectData | src/jp/sourceforge/qrcode/QRCodeDecoder.java:274-285 | a fresh dataCapacity array: the data codewords of all blocks, then zeros |
| QRCodeDecoder.QRCodeDecoder.CorrectInterleaved | src/jp/sourceforge/qrcode/QRCodeDecoder.java:215-292 | the multi-block branch: the data parts of all blocks, each block repaired as the RS decoder promises, gathered in block order and zero padded; the failure count |
| QRCodeDecoder.QRCodeDecoder.CorrectDataBlocks | src/jp/sourceforge/qrcode/QRCodeDecoder.java:199-294 | one block: corrected in place, the same array returned, the field left as it was; more blocks: input untouched, fresh gathered data, the field set to the failure count |
| QRCodeDecoder.QRCodeDecoder.CorrectDataBlocksRecorded | src/jp/sourceforge/qrcode/QRCodeDecoder.java:207-214 | the field holds the failure count for every symbol, and is 0 exactly when no block failed |
| QRCodeDecoder.AdjustValues | src/jp/sourceforge/qrcode/QRCodeDecoder.java:125-148 | the grid sites are (-2,0), (-3,-1), (0,-2), (-1,-3) and the moves are four (1,1) then (-2,0), (-1,-1), (3,-1), (-1,-1) |
| QRCodeDecoder.StepsReach | src/jp/sourceforge/qrcode/QRCodeDecoder.java:134-142 | adding up the deltas reaches each site in turn |
| QRCodeDecoder.AdjustRow | src/jp/sourceforge/qrcode/QRCodeDecoder.java:135-141 | one row of the inner loop appends the delta to each qualifying site and tracks lastX/lastY |
| QRCodeDecoder.VisitGrid | src/jp/sourceforge/qrcode/QRCodeDecoder.java:133-142 | the second loop leaves the list of AdjustMoves |
| QRCodeDecoder.QRCodeDecoder.GetAdjustPoints | src/jp/sourceforge/qrcode/QRCodeDecoder.java:125-148 | the array of points holds exactly AdjustMoves |
| QRCodeDecoder.SelectMin | src/jp/sourceforge/qrcode/QRCodeDecoder.java:109-117 | the minimum scan over the kept results' failure counts |
| QRCodeDecoder.Finish | src/jp/sourceforge/qrcode/QRCodeDecoder.java:105-122 | give up when nothing was kept, else the bytes at the minimum index |
| QRCodeDecoder.QRCodeDecoder.Decode | src/jp/sourceforge/qrcode/QRCodeDecoder.java:82-123 | the outcome is Retry.Expected of the attempts; numTryDecode counts the attempts up to the stopping one; the field is what the last attempt stored |
| Retry.FirstStop | src/jp/sourceforge/qrcode/QRCodeDecoder.java:86-102 | the first attempt that ends the loop, no attempt before it ending it |
| Retry.MinScanSpec | src/jp/sourceforge/qrcode/QRCodeDecoder.java:109-117 | the scan finds the earliest smallest count, and index -1 exactly when every count is Integer.MAX_VALUE |
| Retry.GiveUpExactly | src/jp/sourceforge/qrcode/QRCodeDecoder.java:105-107 | "Give up decoding" exactly when no attempt stops the loop and none produced bytes |
| Retry.GiveUpNotFinder | src/jp/sourceforge/qrcode/QRCodeDecoder.java:96-107 | the give-up message does not contain "Finder Pattern" |
| Retry.FewestFailuresChosen | src/jp/sourceforge/qrcode/QRCodeDecoder.java:109-122 | after running out, the bytes returned are a kept result with the fewest failures, the earliest among equals |
| Retry.ReturnedEarlyMeansZero | src/jp/sourceforge/qrcode/QRCodeDecoder.java:88-90 | a result returned at once is one after which the decoder's field is 0 |
| Retry.KeptEmpty | src/jp/sourceforge/qrcode/QRCodeDecoder.java:88-98 | nothing is kept exactly when no attempt produced bytes |
| Retry.StaleSuccess | src/jp/sourceforge/qrcode/QRCodeDecoder.java:207-214 | a single-block attempt is returned at once whenever the field still holds 0, however its correction went |
| Retry.RecordedSuccess | src/jp/sourceforge/qrcode/QRCodeDecoder.java:56-58 | when every attempt stores its count, an early result had no failures of its own |
| QRCodeDecoder.DecodeResult.constructor | src/jp/sourceforge/qrcode/QRCodeDecoder.java:39-42 | holds the bytes and count given, and the decoder it belongs to |
| QRCodeDecoder.DecodeResult.GetDecodedBytes | src/jp/sourceforge/qrcode/QRCodeDecoder.java:48-50 | the stored array itself |
| QRCodeDecoder.DecodeResult.GetNumCorrectionFailures | src/jp/sourceforge/qrcode/QRCodeDecoder.java:52-54 | the stored count |
| QRCodeDecoder.DecodeResult.IsCorrectionSucceeded | src/jp/sourceforge/qrcode/QRCodeDecoder.java:56-58 | true exactly when the decoder's numLastCorrectionFailures is 0 now |
| DecodeResult.DecodeResult.constructor | src/jp/sourceforge/qrcode/DecodeResult.java:9-12 | the getters return exactly the arguments; both fields are constants |
| DecodeResult.DecodeResult.GetDecodedBytes | src/jp/sourceforge/qrcode/DecodeResult.java:14-16 | the stored array reference, not a copy |
| DecodeResult.DecodeResult.GetNumCorrectionFailures | src/jp/sourceforge/qrcode/DecodeResult.java:18-20 | the stored count |
| DecodeResult.DecodeResult.IsCorrectionSucceeded | src/jp/sourceforge/qrcode/DecodeResult.java:26-28 | true exactly when the count is 0 |
| QRCodeUtility.Sqrt | src/jp/sourceforge/qrcode/util/QRCodeUtility.java:10-22 | for val ≥ 0 the integer square root: g·g ≤ val < (g+1)·(g+1); 0 for negative val; at most 46340 |
| QRCodeUtility.TryBit | src/jp/sourceforge/qrcode/util/QRCodeUtility.java:15-18 | one trial keeps val - g·g as the running remainder, with no 32-bit overflow in temp |
| QRCodeUtility.IntSqrtUnique | src/jp/sourceforge/qrcode/util/QRCodeUtility.java:10-22 | the integer square root is unique |
| Point.Point.Origin | src/jp/sourceforge/qrcode/geom/Point.java:21-24 | the point (0,0) |
| Point.Point.constructor | src/jp/sourceforge/qrcode/geom/Point.java:26-29 | the point (x, y) |
| Point.Point.GetX | src/jp/sourceforge/qrcode/geom/Point.java:31-33 | x |
| Point.Point.GetY | src/jp/sourceforge/qrcode/geom/Point.java:35-37 | y |
| Point.Point.SetX | src/jp/sourceforge/qrcode/geom/Point.java:39-41 | x overwritten, y kept |
| Point.Point.SetY | src/jp/sourceforge/qrcode/geom/Point.java:43-45 | y overwritten, x kept |
| Point.Point.Translate | src/jp/sourceforge/qrcode/geom/Point.java:52-55 | x += dx and y += dy with 32-bit wrap-around, exact when no overflow |
| Point.Point.Set | src/jp/sourceforge/qrcode/geom/Point.java:57-60 | both coordinates overwritten |
| Point.Point.GetCenter | src/jp/sourceforge/qrcode/geom/Point.java:84-86 | a fresh point at the truncating halves of the coordinate sums |
| Point.Mid | src/jp/sourceforge/qrcode/geom/Point.java:85 | without overflow, (a+b)/2 rounded toward zero |
| Point.Point.Equals | src/jp/sourceforge/qrcode/geom/Point.java:93-95 | true exactly when the coordinates differ |
| Point.EqualsIrreflexive | src/jp/sourceforge/qrcode/geom/Point.java:93-95 | no point equals itself |
| Point.Point.SameAs | src/jp/sourceforge/qrcode/geom/Point.java:88-92 | true exactly when both coordinates agree |
| Point.SameAsEquivalence | src/jp/sourceforge/qrcode/geom/Point.java:88-92 | SameAs is reflexive, symmetric and transitive |
| Point.Point.DistanceOf | src/jp/sourceforge/qrcode/geom/Point.java:102-106 | the integer square root of the wrapped dx²+dy², 0 when that sum wraps negative |
| Point.Dist2Exact | src/jp/sourceforge/qrcode/geom/Point.java:105 | for coordinate differences below 2^15 the sum of squares is exact |
| Point.DistanceSymmetric | src/jp/sourceforge/qrcode/geom/Point.java:102-106 | p.distanceOf(q) == q.distanceOf(p) |
| Point.DistanceSelf | src/jp/sourceforge/qrcode/geom/Point.java:102-106 | a point is at distance 0 from itself |
| Axis.Axis.constructor | src/jp/sourceforge/qrcode/geom/Axis.java:22-27 | sin and cos from angle[0] and angle[1], the pitch given, a fresh origin (0,0) |
| Axis.Axis.SetOrigin | src/jp/sourceforge/qrcode/geom/Axis.java:34-36 | the origin field is the given point itself; the other fields kept |
| Axis.Axis.SetModulePitch | src/jp/sourceforge/qrcode/geom/Axis.java:43-45 | the pitch overwritten, the other fields kept |
| Axis.Axis.Translate | src/jp/sourceforge/qrcode/geom/Axis.java:105-115 | a fresh point at origin + ((dx·cos − dy·sin) >> dp, (dx·sin + dy·cos) >> dp), dx, dy = (pitch·move) >> dp or 0 for a zero move; no field changes |
| Axis.Scaled | src/jp/sourceforge/qrcode/geom/Axis.java:108-109 | a zero move scales to 0 |
| Axis.TargetAtOrigin | src/jp/sourceforge/qrcode/geom/Axis.java:108-111 | translate(0,0) lands on the origin |
| Axis.UnitScale | src/jp/sourceforge/qrcode/geom/Axis.java:108-109 | a pitch of one unit (2^dp) scales a move to itself |
| Axis.TargetUnrotated | src/jp/sourceforge/qrcode/geom/Axis.java:105-111 | with sin 0 and cos 2^dp the target is origin + (pitch·move) >> dp |
| Axis.Axis.TranslateOffset | src/jp/sourceforge/qrcode/geom/Axis.java:52-56 | the same point as translate(offset.x, offset.y) |
| Axis.Axis.TranslateFrom | src/jp/sourceforge/qrcode/geom/Axis.java:64-69 | stores the origin, then translates by the offset from it |
| Axis.Axis.TranslateFromBy | src/jp/sourceforge/qrcode/geom/Axis.java:78-81 | stores the origin, then translates by (moveX, moveY) from it |
| Axis.Axis.TranslateWithPitch | src/jp/sourceforge/qrcode/geom/Axis.java:91-95 | stores the origin and the pitch, then translates with them |
| ContentConverter.IndexOf | src/jp/sourceforge/qrcode/util/ContentConverter.java:53 | -1 or the first occurrence of sub at or after from, with none before it |
| ContentConverter.ReplaceString | src/jp/sourceforge/qrcode/util/ContentConverter.java:51-57 | left-to-right replacement of every occurrence, never rescanning inserted text; length |s| + k·(|s2|−|s1|) for k occurrences |
| ContentConverter.FirstOccurrence | src/jp/sourceforge/qrcode/util/ContentConverter.java:53-54 | the result is the text before the first occurrence, s2, then the rest replaced |
| ContentConverter.ReplaceLength | src/jp/sourceforge/qrcode/util/ContentConverter.java:53-56 | length |s| + k·(|s2|−|s1|) where k counts the replacements |
| ContentConverter.ReplaceAbsent | src/jp/sourceforge/qrcode/util/ContentConverter.java:51-57 | with no occurrence of s1 the text comes back unchanged |
| ContentConverter.NoCountUnchanged | src/jp/sourceforge/qrcode/util/ContentConverter.java:51-57 | zero replacements leave the text unchanged |
| ContentConverter.ReplaceChars | src/jp/sourceforge/qrcode/util/ContentConverter.java:54 | every character of the result comes from s or s2 |
| ContentConverter.ReplaceRemovesChar | src/jp/sourceforge/qrcode/util/ContentConverter.java:54 | replacing a single character removes it, when s2 does not contain it |
| ContentConverter.RemoveString | src/jp/sourceforge/qrcode/util/ContentConverter.java:59-61 | replaceString with "", never longer than s |
| ContentConverter.ConvertPlain | src/jp/sourceforge/qrcode/util/ContentConverter.java:5-17 | null stays null; text with none of the markers is returned unchanged |
| ContentConverter.Convert | src/jp/sourceforge/qrcode/util/ContentConverter.java:5-17 | null in gives null out, and a non-null text gives a non-null result |
| ContentConverter.ConvertBookmark | src/jp/sourceforge/qrcode/util/ContentConverter.java:19-25 | the converted bookmark holds no ';' |
| ContentConverter.ConvertAddressBook | src/jp/sourceforge/qrcode/util/ContentConverter.java:27-37 | the converted address book holds no ';' and ends with "\n" |
| ContentConverter.ConvertMailto | src/jp/sourceforge/qrcode/util/ContentConverter.java:39-49 | the converted mail holds no ';' and ends with "\n" |
| JavaInt.Div | src/jp/sourceforge/qrcode/geom/Point.java:85 | Java's `/`: rounds toward zero |
| JavaInt.Rem | src/jp/sourceforge/qrcode/ecc/BCH15_5.java:60-61 | Java's `%`: a == (a/b)·b + r, with r taking a's sign |
| JavaInt.Shr | src/jp/sourceforge/qrcode/geom/Axis.java:108-110 | arithmetic `>>` as floor division by 2^n |
| JavaInt.Add32 | src/jp/sourceforge/qrcode/geom/Point.java:53-54 | 32-bit addition, exact when no overflow |
| JavaInt.Mul32 | src/jp/sourceforge/qrcode/geom/Axis.java:108-110 | 32-bit multiplication, exact when no overflow |
| JavaInt.WrapCongruent | src/jp/sourceforge/qrcode/geom/Point.java:105 | values congruent mod 2^32 wrap to the same int |

## Left out

- The image side of decoding is not part of this model:
  - `decode(QRCodeImage, Point)`, `imageToIntArray` and `getDecodedByteArray`;
  - the image reader, the symbol and the data-block reader.
  Each attempt is an abstract `Attempt` value instead. Data capacity, block
  count and error-correction count are inputs.
- The debug canvas, its `println` calls and the static `canvas` field are
  left out. They have no effect on results.
- `Point.toString` and `DecodeResult.getDecodedText` are left out. The second
  depends on the platform charset.
- The commented-out old `Axis.translate` and `Point.getBarycenter` are left out.
- `numSucceededCorrections` is left out. It only feeds debug output.
- The `results` field of `QRCodeDecoder` is left out; only the local list of
  the retry loop is modelled. The per-call fields `qrCodeSymbol` and
  `imageReader` are left out with the image side.
- Singletons: `Galois.getInstance` and `BCH_15_5.getInstance` become
  constructed objects passed to whoever uses them.
- `QRCodeImageReader.DECIMAL_POINT` is a parameter of the `Axis` methods.
  It is not part of this model.
- Byte arrays: the Java `int[]` codeword arrays are `array<bv8>`, since every
  value is a byte. The final `byte[]` is `array<int8>`.
- RsDecode.RsDecode.Decode does not prove that any pattern of up to npar/2
  errors is corrected and restores the sent block. It also does not prove
  that the Berlekamp-Massey locator has minimal degree. It proves the
  located-errors invariant (σ annihilates the syndromes, ω = σ·S) and the
  exact correction applied.
- RsDecode.RsDecode.Decode requires npar ≥ 2. Block correction always has at
  least 7 error-correction codewords per block, so npar is at least 3.
- QRCodeDecoder.QRCodeDecoder.CorrectDataBlocks requires
  `eccPerRSBlock / 2 ≥ 2`. For several blocks it also requires a layout whose
  blocks are at least eccPerRSBlock long, with the stream at least dataCapacity
  long. The Java code indexes out of bounds on other layouts.
- QRCodeDecoder.QRCodeDecoder.CorrectDataBlocks keeps the corrected blocks as
  a sequence of values. It does not keep the 2-D arrays `shorterRSBlocks` and
  `longerRSBlocks` of the Java code, which nothing else sees.
- QRCodeDecoder.QRCodeDecoder.Decode takes exactly 8 attempts, the length of
  the `getAdjustPoints` array.
- BchGf16.Bch15_5.DetectErrorBitPosition returns None for a fourth root of the
  cubic. There the Java code writes `errorPos[4]` and throws.
  BchGf16.Bch15_5.Correct passes that None on.
- BchGf16.Bch15_5.Correct models `correct` as written. As written it restores
  a codeword with two or three flipped bits only when S1, S3 and the
  numerator S5 + S3·S1² of σ2 are non-zero (BchDecoding.WrittenCorrects).
  The three inputs under Findings break these conditions one at a time.
  BchDecoding.FixedCorrects proves that the corrected decoder restores every
  pattern of up to three flipped bits. The corrected decoder is stated as
  functions on values, not as a second class.
- BchGf16.Bch15_5.GetCode states the systematic bits f[8..14] and that every
  entry is a bit. It does not state the parity bits f[0..7]. The register
  steps are proved one clock at a time (`Clock`, `Feed`).
- `BCH15_5.getNumCorrectedError` is a plain getter of the `numCorrectedError`
  field. The contracts of CorrectErrorBit and Correct state that field.
- QRCodeUtility.Sqrt writes the do-while loop as a while loop with the same
  16 iterations. Its contract does not state the iteration count.
- ContentConverter.ReplaceString requires a non-empty s1. With an empty s1 the
  Java loop never ends. Every caller in the converter passes a non-empty
  marker.
- BchTable.CalcHammingDistance requires c1 ^ c2 to be non-negative as a Java
  int. Otherwise the arithmetic `>>=` never reaches 0 and the Java loop does
  not end. Decode only passes 15-bit words and table entries.
- Axis.Axis.constructor requires an angle array of at least two entries. The
  Java code throws on a shorter one.
- BchGf16.Bch15_5.Correct requires a received array of at least 15 bits; the
  Java code throws on a shorter one, because `calcSyndrome` reads `y[k]` for
  every k < 15. The same bound is required by BchGf16.Bch15_5.CalcSyndrome and
  BchGf16.Bch15_5.SyndromeAt. No caller of `BCH15_5` is part of this model, so
  the exception path is left out rather than shown unreachable.
- RsDecode.RsDecode.Decode requires length ≤ data.Length; the Java code throws
  on a longer length, because `calcSyndrome` reads `data[idx]` for every
  idx < length. RsDecode.RsDecode.Correct, RsDecode.RsDecode.DecodeCorrect and
  Galois.Galois.CalcSyndrome require the same bound. Galois.Galois.CalcSyndrome
  also requires syn.Length ≤ 256, which holds because npar ≤ 255. Every caller
  in the decoder goes through `decode(int[])`, which passes data.length.

## Findings

| source | as written | input that shows it | evidently intended | confidence | as-written member | corrected member |
|---|---|---|---|---|---|---|
| src/jp/sourceforge/qrcode/geom/Point.java:93-95 | `equals` returns true when x or y differ | any point p: p.equals(p) is false | true exactly when both coordinates agree, as its doc comment says | not executed | Point.EqualsIrreflexive | Point.SameAsEquivalence |
| src/jp/sourceforge/qrcode/QRCodeDecoder.java:207-214 | the single-block branch never stores its failure count, and `isCorrectionSucceeded` reads the decoder's field | a single-block symbol whose block is uncorrectable, decoded first by a fresh decoder: the field still holds 0, so the attempt is returned at once as a success | store the failure count in both branches, so that success means this attempt's blocks were all corrected | not executed | Retry.StaleSuccess | Retry.RecordedSuccess |
| src/jp/sourceforge/qrcode/ecc/BCH15_5.java:141-144 | σ2's numerator multiplies by S3 as `(s[2] + s[1]) % 15`, so an S3 of zero (−1) is read as the exponent −1 | a codeword with bits 0 and 5 flipped: syndromes 10, 5, −1, 10, 5; σ2 comes out as α^8 instead of α^5 and position 0 is never reported | a zero factor gives a zero product, as addGF already treats −1 as zero | not executed | BchDecoding.TwoErrorsMissed | BchDecoding.FixedCorrects |
| src/jp/sourceforge/qrcode/ecc/BCH15_5.java:162-164 | S1 = 0 (`e[0] == -1`) is taken to mean no errors | a codeword with bits 0, 1 and 4 flipped: α^0 + α^1 + α^4 = 0, so the word is reported clean and left with three errors | no errors only when S1 and S3 are both zero | not executed | BchDecoding.ThreeErrorsUnnoticed | BchDecoding.FixedCorrects |
| src/jp/sourceforge/qrcode/ecc/BCH15_5.java:144 | a zero numerator (`child < 0`) with a non-zero denominator gives σ2 the exponent `(child - mother + 15) % 15`, which is not zero | a codeword with bits 0, 1 and 12 flipped: syndromes 6, 12, 8, 9, 5; the numerator is zero, σ2 comes out as α^1 and position 0 is never reported | σ2 is zero whenever the numerator is zero | not executed | BchDecoding.ZeroSigma2Missed | BchDecoding.FixedCorrects |
