/** Octets and fixed-width unsigned integers as bounded integers. */
module Bytes {
  type byte = x: int | 0 <= x < 0x100
  type u16 = x: int | 0 <= x < 0x1_0000
  type u32 = x: int | 0 <= x < 0x1_0000_0000
  type u64 = x: int | 0 <= x < 0x1_0000_0000_0000_0000

  type bytes = seq<byte>

  /** n zero bytes. */
  function Zeros(n: nat): (r: bytes)
    ensures |r| == n
  {
    seq(n, _ => 0)
  }
}
