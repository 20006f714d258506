/** Bytes as numbers, where only their values matter. */
module Bytes {
  type Byte = b: int | 0 <= b < 256
}
