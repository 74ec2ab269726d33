/**
  The bytes that binary data are made of.
 */
module Octets {
  type Byte = x: int | 0 <= x < 256
}
