/** The machine integers the wire formats and counters are declared with. `usize` is 64 bits wide. */
module MachineInts {
  const U8_MAX := 0xFF
  const U16_MAX := 0xFFFF
  const U32_MAX := 0xFFFF_FFFF
  const U64_MAX := 0xFFFF_FFFF_FFFF_FFFF
  const U32_SPAN := 0x1_0000_0000
  const I32_MAX := 0x7FFF_FFFF

  type u8 = x: int | 0 <= x <= 0xFF
  type u16 = x: int | 0 <= x <= 0xFFFF
  type u32 = x: int | 0 <= x <= 0xFFFF_FFFF
  type u64 = x: int | 0 <= x <= 0xFFFF_FFFF_FFFF_FFFF

  function Min(a: int, b: int): int {
    if a <= b then a else b
  }

  function Max(a: int, b: int): int {
    if a >= b then a else b
  }

  /** `u64::saturating_add`, also used for `usize`. */
  function SatAdd(a: nat, b: nat): u64 {
    if a + b <= U64_MAX then a + b else U64_MAX
  }

  /** `u64::saturating_mul`, also used for `usize`. */
  function SatMul(a: nat, b: nat): u64 {
    if a * b <= U64_MAX then a * b else U64_MAX
  }

  /** `u64::saturating_sub` */
  function SatSub(a: nat, b: nat): nat {
    if a >= b then a - b else 0
  }

  /** `u32::wrapping_add` */
  function WrapAdd32(a: u32, b: u32): u32 {
    (a + b) % U32_SPAN
  }

  /** `u32::wrapping_sub` */
  function WrapSub32(a: u32, b: u32): u32 {
    (a - b) % U32_SPAN
  }

  /** A wrapping 32-bit counter after `steps` increments. */
  function Advance32(start: u32, steps: nat): u32 {
    (start + steps) % U32_SPAN
  }

  lemma Advance32Steps(start: u32, a: nat, b: nat)
    ensures Advance32(start, 0) == start
    ensures Advance32(Advance32(start, a), b) == Advance32(start, a + b)
    ensures WrapAdd32(Advance32(start, a), 1) == Advance32(start, a + 1)
  {
  }
}
