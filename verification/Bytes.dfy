/** The C char, as an unsigned value. */
module Bytes {
  type byte = x: int | 0 <= x < 256
}
