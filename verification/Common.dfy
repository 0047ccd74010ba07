/** Byte values, the width of the frequency counters, and the outcome of an operation that may throw. */
module Common {
  /** A `uint8_t`: an input byte, a symbol or one byte of an archive. */
  type Byte = x: int | 0 <= x < 256

  /** A sequence of bits, the abstract content of a bit array. */
  type Bits = seq<bool>

  /** The number of symbols, hence of rows of a symbol table. */
  const SYMBOLS: nat := 256

  /** One row of bits per symbol; a symbol without a code has an empty row. */
  type Table = t: seq<Bits> | |t| == SYMBOLS witness seq(SYMBOLS, i => [])

  /** The bits a Huffman code has room for when it is created, and the decoder's asserted bound. */
  const MAX_LENGTH: nat := 255

  const UINT32_MAX: nat := 0xFFFF_FFFF
  const UINT32_MODULUS: nat := 0x1_0000_0000
  const UINT64_MAX: nat := 0xFFFF_FFFF_FFFF_FFFF

  datatype Option<+T> = None | Some(value: T)

  datatype Error =
    | FrequencyOverflow
    | InvalidLength
    | InvalidAccess
    | ZeroCapacity
    | BadMagic
    | MissingReserved
    | MissingTableLength
    | ShortTableEntry
    | EmptyTableEntry
    | MissingBitLength
    | ShortBitstream

  datatype Result<+T> = Success(value: T) | Failure(error: Error) {
    predicate IsFailure() {
      Failure?
    }

    function PropagateFailure<U>(): Result<U>
      requires Failure?
    {
      Failure(error)
    }

    function Extract(): T
      requires Success?
    {
      value
    }
  }
}
