/** Shared vocabulary: bytes, sizes, optional values. */
module Bytes {
  type byte = b: int | 0 <= b < 256

  const KB64 := 65536
  const GB := 0x4000_0000
  const TWO31 := 0x8000_0000
  const TWO32 := 0x1_0000_0000
  const TWO64 := 0x1_0000_0000_0000_0000

  datatype Option<+T> = None | Some(value: T)

  function Min(a: int, b: int): int {
    if a < b then a else b
  }
}
