/** Fixed-width integers used on the wire and in the sample stream. */
module Bytes {

  /** One byte of a `Data` buffer (Swift `UInt8`). */
  type uint8 = b: int | 0 <= b < 0x100

  /** One PCM sample (Swift `Int16`), two's complement range. */
  type int16 = x: int | -0x8000 <= x < 0x8000
}
