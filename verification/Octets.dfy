/** Bytes, as the byte-level modules use them. */
module Octets {
  type Byte = x: int | 0 <= x < 0x100
}
