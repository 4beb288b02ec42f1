/** The integer widths of the program's stored numbers. */
module Integers {
  const U64_MAX := 0xFFFF_FFFF_FFFF_FFFF

  type U8 = x: int | 0 <= x < 256
  type U64 = x: int | 0 <= x <= U64_MAX
  type I64 = x: int | -0x8000_0000_0000_0000 <= x <= 0x7FFF_FFFF_FFFF_FFFF
}
