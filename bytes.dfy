/**
 * Byte-level vocabulary shared by every part of the driver core: the
 * unsigned 8-bit value, 32-bit truncation, big-endian 16-bit fields and
 * an Option type for reads that have no defined C behaviour.
 */
module Bytes {

  /** An unsigned 8-bit value (UInt8). */
  type byte = x: int | 0 <= x < 256

  const TwoTo32: int := 0x1_0000_0000

  datatype Option<T> = None | Some(value: T)

  /** The low 32 bits of `x`, i.e. the value C's UInt32 arithmetic keeps. */
  function U32(x: int): (r: nat)
    ensures r < TwoTo32
    ensures 0 <= x < TwoTo32 ==> r == x
    ensures (r - x) % TwoTo32 == 0
  {
    x % TwoTo32
  }

  /** The 16-bit big-endian field `(d[i] << 8) | d[i+1]`. */
  function Be16(d: seq<byte>, i: nat): (r: nat)
    requires i + 1 < |d|
    ensures r < 0x10000
    ensures r / 256 == d[i] && r % 256 == d[i + 1]
  {
    d[i] as int * 256 + d[i + 1] as int
  }
}
