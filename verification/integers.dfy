/** The fixed-width integer types the headers use. */
module Integers {

  const INT64_MIN: int := -0x8000_0000_0000_0000
  const INT64_MAX: int := 0x7fff_ffff_ffff_ffff

  /** int64_t */
  newtype int64 = x: int | -0x8000_0000_0000_0000 <= x <= 0x7fff_ffff_ffff_ffff

  /** uint64_t */
  newtype uint64 = x: int | 0 <= x <= 0xffff_ffff_ffff_ffff

  /** True when an int64_t operation whose exact result is x does not overflow.
      Signed overflow is undefined behaviour in C++, so callers must ensure this. */
  predicate FitsInt64(x: int) {
    INT64_MIN <= x <= INT64_MAX
  }
}
