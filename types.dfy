/**
 * Scalar types and the error model shared by the compressor.
 *
 * The dense containers hold `float`s that the compressor only compares with
 * zero and copies, so a value is modelled by its IEEE-754 binary32 bit
 * pattern; the integer streams are `uint32_t` and the compressed streams are
 * byte vectors.
 */
module Types {

  /** One byte of a compressed stream (`uint8_t`). */
  type byte = x: int | 0 <= x < 0x100

  /** `uint32_t`, the element type of the index stream. */
  type uint32 = x: int | 0 <= x < 0x1_0000_0000

  const Uint32Modulus: nat := 0x1_0000_0000

  /** `static_cast<uint32_t>` of a non-negative integer: reduction modulo 2^32. */
  function ToUint32(x: nat): (r: uint32)
    ensures x < Uint32Modulus ==> r == x
    ensures r < Uint32Modulus && (x - r) % Uint32Modulus == 0
  {
    x % Uint32Modulus
  }

  /** The bit pattern of an IEEE-754 binary32 `float`. */
  type Float = bv32

  const PositiveZero: Float := 0
  const NegativeZero: Float := 0x8000_0000

  /**
   * `f == 0` in IEEE arithmetic: it holds of both zeros and of no other bit
   * pattern (every NaN compares unequal to zero, so a NaN counts as nonzero).
   */
  predicate IsZero(f: Float)
  {
    f == PositiveZero || f == NegativeZero
  }

  /** What a zero-filled container holds where nothing was written back: both zeros become +0.0. */
  function Canonical(f: Float): (r: Float)
  {
    if IsZero(f) then PositiveZero else f
  }

  /**
   * The exceptions the compressor raises: `std::invalid_argument` with its
   * message, and the `std::runtime_error` raised when the value codec reports
   * a failure (its text comes from the codec and is not modelled).
   */
  datatype Error = InvalidArgument(message: string) | CodecError

  /** A value or the exception that replaced it. */
  datatype Result<+T> = Ok(value: T) | Err(error: Error)
  {
    predicate IsFailure()
    {
      Err?
    }

    function PropagateFailure<U>(): Result<U>
      requires Err?
    {
      Err(error)
    }

    function Extract(): T
      requires Ok?
    {
      value
    }
  }

  /** Completion, or the exception that ended a call that returns nothing of interest. */
  datatype Outcome = Pass | Fail(error: Error)
}
