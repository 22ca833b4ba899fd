/** The unit of every stream and pixel buffer: an unsigned 8-bit value. */
module Bytes {
  newtype byte = x: int | 0 <= x < 256
}
