/** Fixed-width integers of the source, written out over Dafny's unbounded integers.
    The target is wasm32, so `usize` is 32 bits wide like `u32`. */
module MachineInts {

  const U32_MODULUS: int := 0x1_0000_0000
  const U32_MAX: int := 0xFFFF_FFFF
  const I32_MIN: int := -0x8000_0000
  const I32_MAX: int := 0x7FFF_FFFF
  const I16_MIN: int := -0x8000
  const I16_MAX: int := 0x7FFF

  type i32 = x: int | I32_MIN <= x <= I32_MAX
  type u32 = x: int | 0 <= x <= U32_MAX
  type i16 = x: int | I16_MIN <= x <= I16_MAX

  /** `v as u32` for any integer value, and the wrap-around of u32 `+` and `*`
      in a release build: the value modulo 2^32. */
  function AsU32(v: int): (r: u32)
    ensures 0 <= v <= U32_MAX ==> r == v
    ensures -U32_MODULUS <= v < 0 ==> r == v + U32_MODULUS
  {
    v % U32_MODULUS
  }
}
