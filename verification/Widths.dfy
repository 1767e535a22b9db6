/** The ranges of the C integer types that the model writes out. */
module Widths {
  const TWO_31: nat := 0x8000_0000
  const TWO_32: nat := 0x1_0000_0000
  const TWO_64: nat := 0x1_0000_0000_0000_0000
  const MAX_COUNT: nat := 0xFFFF_FFFF_FFFF_FFFF
}
