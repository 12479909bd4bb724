/** Rust's fixed-width integer ranges, used where the source's arithmetic can overflow. */
module Ints {
  const I32_MIN: int := -0x8000_0000
  const I32_MAX: int := 0x7FFF_FFFF
  const U32_MAX: int := 0xFFFF_FFFF

  /** A value representable as an `i32`. */
  predicate IsI32(x: int) { I32_MIN <= x <= I32_MAX }

  /** `i32` arithmetic shift right by one: the floor of half the value. */
  function Half(x: int): (r: int)
    ensures 2 * r <= x <= 2 * r + 1
  {
    x / 2
  }

  lemma HalfOfI32(x: int)
    requires IsI32(x)
    ensures IsI32(Half(x))
  {
  }
}
