/** The machine integers, bytes and optional values that the other modules share. */
module Basics {

  const INT32_MIN := -0x8000_0000
  const INT32_MAX := 0x7fff_ffff
  const UINT32 := 0x1_0000_0000

  type int32 = v: int | -0x8000_0000 <= v <= 0x7fff_ffff

  type uint32 = v: int | 0 <= v < 0x1_0000_0000

  type Byte = b: int | 0 <= b < 256

  type Bytes = seq<Byte>

  datatype Option<T> = None | Some(value: T)

  function Min(a: int, b: int): int { if a < b then a else b }

  function Max(a: int, b: int): int { if a < b then b else a }
}
