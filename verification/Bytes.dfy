/** Fixed-width integers, byte strings and the bounds check that every parser of the repository
    goes through. The widths are subset types of `int`, so wrap-around and truncation are written
    out (see `ToU32`) and can never happen silently. */
module Bytes {
  type byte = x: int | 0 <= x < 0x100
  type u16 = x: int | 0 <= x < 0x1_0000
  type u32 = x: int | 0 <= x < 0x1_0000_0000

  datatype Option<+T> = None | Some(value: T)

  /** True if `count` bytes can be read at `offset`. */
  predicate HasBytes(bytes: seq<byte>, offset: nat, count: nat) {
    offset <= |bytes| && count <= |bytes| - offset
  }

  function ReadBe16(bytes: seq<byte>, offset: nat): u16
    requires HasBytes(bytes, offset, 2)
  {
    var high: int, low: int := bytes[offset], bytes[offset + 1];
    high * 0x100 + low
  }

  function ReadBe32(bytes: seq<byte>, offset: nat): u32
    requires HasBytes(bytes, offset, 4)
  {
    var high: int, low: int := ReadBe16(bytes, offset), ReadBe16(bytes, offset + 2);
    high * 0x1_0000 + low
  }

  function ReadLe16(bytes: seq<byte>, offset: nat): u16
    requires HasBytes(bytes, offset, 2)
  {
    ReadBe16([bytes[offset + 1], bytes[offset]], 0)
  }

  function ReadLe32(bytes: seq<byte>, offset: nat): u32
    requires HasBytes(bytes, offset, 4)
  {
    ReadBe32([bytes[offset + 3], bytes[offset + 2], bytes[offset + 1], bytes[offset]], 0)
  }

  /** The cast of an unsigned value to `uint32_t`. */
  function ToU32(n: nat): u32 {
    n % 0x1_0000_0000
  }

  /** True if bit 2^k is set, for `bit` == 2^k. */
  predicate BitSet(value: nat, bit: nat)
    requires bit > 0
  {
    (value / bit) % 2 == 1
  }

  function Min(a: int, b: int): int {
    if a <= b then a else b
  }

  function Max(a: int, b: int): int {
    if a >= b then a else b
  }
}
