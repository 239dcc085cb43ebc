/**
 Machine integers, written out over Dafny's unbounded integers: the signed and unsigned widths the codecs use,
 two's-complement wrap-around, and the option type shared by the other modules.
 */
module Widths {
  type byte = x: int | 0 <= x < 0x100
  type uint32 = x: int | 0 <= x < 0x1_0000_0000
  type uint64 = x: int | 0 <= x < 0x1_0000_0000_0000_0000
  type int8 = x: int | -0x80 <= x < 0x80
  type int16 = x: int | -0x8000 <= x < 0x8000
  type int32 = x: int | -0x8000_0000 <= x < 0x8000_0000
  type int64 = x: int | -0x8000_0000_0000_0000 <= x < 0x8000_0000_0000_0000

  datatype Option<+T> = None | Some(value: T)

  /** Two's complement: the conversions between a signed and an unsigned word of the same width. */
  function Signed8(u: byte): (r: int8) { if u < 0x80 then u else u - 0x100 }

  function Unsigned8(n: int8): (r: byte) { if n < 0 then n + 0x100 else n }

  function Signed32(u: uint32): (r: int32) { if u < 0x8000_0000 then u else u - 0x1_0000_0000 }

  function Unsigned32(n: int32): (r: uint32) { if n < 0 then n + 0x1_0000_0000 else n }

  function Signed64(u: uint64): (r: int64)
  {
    if u < 0x8000_0000_0000_0000 then u else u - 0x1_0000_0000_0000_0000
  }

  function Unsigned64(n: int64): (r: uint64)
  {
    if n < 0 then n + 0x1_0000_0000_0000_0000 else n
  }

  /** The low bits of a wider word, read as signed: int16(x) and int32(x). */
  function Truncate16(x: int): (r: int16)
  {
    var m := x % 0x1_0000; if m < 0x8000 then m else m - 0x1_0000
  }

  function Truncate32(x: int): (r: int32) { Signed32(x % 0x1_0000_0000) }
}
