/**
 * The fixed-width unsigned integer used throughout the engine, and the object
 * id type built on it.
 */
module Integers {
  const U32Modulus: int := 0x1_0000_0000

  /** A value of C++'s `uint32_t`. */
  newtype U32 = x: int | 0 <= x < U32Modulus

  /** Object ids are `uint32_t`. */
  type ObjectId = U32
}
