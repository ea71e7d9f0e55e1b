/** An unsigned char. */
module Octets {
  type byte = b: int | 0 <= b < 256
}
