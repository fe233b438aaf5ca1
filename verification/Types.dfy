/** Fixed-width integers and the two result shapes shared by every module. */
module Types {

  datatype Option<+T> = None | Some(value: T)

  datatype Result<+T, +E> = Ok(value: T) | Err(error: E)

  type u8 = x: int | 0 <= x < 0x100
  type u16 = x: int | 0 <= x < 0x1_0000
  type u32 = x: int | 0 <= x < 0x1_0000_0000
  type u64 = x: int | 0 <= x < 0x1_0000_0000_0000_0000
  type i32 = x: int | -0x8000_0000 <= x < 0x8000_0000

  type Uuid = s: seq<u8> | |s| == 16 witness seq(16, _ => 0)

  const TWO_32: int := 0x1_0000_0000
  const TWO_64: int := 0x1_0000_0000_0000_0000

  /** Conversion of a wider integer to `uint8`: the low eight bits. */
  function ToU8(x: int): (r: u8) { x % 0x100 }

  /** Conversion to `uint16`: the low sixteen bits. */
  function ToU16(x: int): (r: u16) { x % 0x1_0000 }

  /** Conversion of an `int` to `int32`: two's complement wrap-around. */
  function ToI32(x: int): (r: i32) { (x + 0x8000_0000) % TWO_32 - 0x8000_0000 }
}
