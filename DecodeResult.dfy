/**
 * The public result of a decoding: the decoded bytes together with the
 * number of Reed-Solomon blocks whose correction failed.  Both are fixed when
 * the result is built.
 */
module DecodeResult {
  import opened JavaInt

  class DecodeResult {
    const numCorrectionFailures: int32
    const decodedBytes: array<int8>

    constructor (decodedBytes0: array<int8>, numCorrectionFailures0: int32)
      ensures decodedBytes == decodedBytes0 && numCorrectionFailures == numCorrectionFailures0
    {
      decodedBytes := decodedBytes0;
      numCorrectionFailures := numCorrectionFailures0;
    }

    /** The stored array itself, not a copy: writes through it are visible to every holder. */
    function GetDecodedBytes(): (r: array<int8>)
      ensures r == decodedBytes
    {
      decodedBytes
    }

    function GetNumCorrectionFailures(): (r: int32)
      ensures r == numCorrectionFailures
    {
      numCorrectionFailures
    }

    /** Correction succeeded exactly when no block failed. */
    function IsCorrectionSucceeded(): (r: bool)
      ensures r <==> GetNumCorrectionFailures() == 0
    {
      numCorrectionFailures == 0
    }
  }
}
