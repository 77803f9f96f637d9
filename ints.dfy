/** Fixed-width integers of the AVR/ESP targets and a small Option type. */
module Ints {

  /** `uint8_t`: every byte on the wire and every text-metric field. */
  type uint8 = x: int | 0 <= x < 256

  /** `unsigned long` / `uint32_t` on the 32-bit targets: clocks and durations. */
  type uint32 = x: int | 0 <= x < 0x1_0000_0000

  const TWO_32: int := 0x1_0000_0000

  /** Conversion of any integer to `uint8_t` (keeps the low 8 bits). */
  function Wrap8(x: int): uint8 { x % 256 }

  /** Conversion of any integer to `unsigned long` (keeps the low 32 bits). */
  function Wrap32(x: int): uint32 { x % TWO_32 }

  /** The cast `(long)x` of a 32-bit unsigned value: two's-complement reading. */
  function Signed32(x: uint32): int { if x < 0x8000_0000 then x else x - TWO_32 }

  function Min(a: int, b: int): int { if a <= b then a else b }

  datatype Option<T> = None | Some(value: T)

  // ASCII codes used by the driver.
  const TAB: uint8 := 9
  const LF: uint8 := 10
  const FF: uint8 := 12
  const CR: uint8 := 13
  const DC2: uint8 := 18
  const ESC: uint8 := 27
  const FS: uint8 := 28
  const GS: uint8 := 29
}
