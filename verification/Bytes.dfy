// Bytes, and the widths of the machine's integers.

module Bytes {

  type Byte = b: nat | b < 256

  const TWO_32: int := 0x1_0000_0000
  const TWO_63: int := 0x8000_0000_0000_0000
  const TWO_64: int := 0x1_0000_0000_0000_0000
}
