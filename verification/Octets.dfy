/** Eight-bit bytes. */
module Octets {
  /** unsigned char */
  type Byte = x: nat | x < 256
}
