/** Unsigned 32-bit arithmetic as the Cortex-M4 compiler implements it: every sum, difference and
    product wraps at 2^32. Operands and results are mathematical integers in range. */
module Arithmetic32 {
  const MODULUS: nat := 0x1_0000_0000

  type u32 = x: int | 0 <= x < MODULUS

  function Add(a: u32, b: u32): u32 {
    if a + b < MODULUS then a + b else a + b - MODULUS
  }

  /** `Sub(j, a)` is also the distance from address `a` up to address `j`, going round the end of the
      address space when `j` lies below `a`. */
  function Sub(a: u32, b: u32): u32 {
    if b <= a then a - b else a - b + MODULUS
  }

  function Mul(a: u32, b: u32): u32 {
    a * b % MODULUS
  }

  /** A `size_t` returned through an `int` result. */
  function ToInt(x: u32): int {
    if x < 0x8000_0000 then x else x - MODULUS
  }
}
