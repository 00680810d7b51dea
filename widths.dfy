/** Fixed-width integer types of the wallet, as ranges of mathematical integers.
    Arithmetic that would leave these ranges is excluded by preconditions
    instead of being wrapped. */
module Widths {
  const INT32_MAX: int := 0x7fff_ffff
  const INT64_MAX: int := 0x7fff_ffff_ffff_ffff
  const UINT32_MAX: int := 0xffff_ffff
  const UINT64_MAX: int := 0xffff_ffff_ffff_ffff

  type uint32 = x: int | 0 <= x <= UINT32_MAX
  type uint64 = x: int | 0 <= x <= UINT64_MAX
  type int32 = x: int | -INT32_MAX - 1 <= x <= INT32_MAX
  type int64 = x: int | -INT64_MAX - 1 <= x <= INT64_MAX
}
