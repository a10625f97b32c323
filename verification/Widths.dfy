/** How many values C's unsigned types of 32 and 64 bits have. */
module Widths {
  const TWO32: nat := 0x1_0000_0000
  const TWO64: nat := 0x1_0000_0000_0000_0000
}
