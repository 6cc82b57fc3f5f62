/** Go's `byte`: the unit of the byte strings the codecs read and write. */
module Bytes {
  type byte = x: int | 0 <= x < 256
}
