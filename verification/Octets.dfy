/** Bytes and little-endian integers. */
module Octets {
  type Byte = b: nat | b < 256
  type Bytes = seq<Byte>

  /** The `k` low bytes of a two's complement integer, lowest first. */
  function LittleEndian(n: int, k: nat): (s: Bytes)
    ensures |s| == k
    decreases k
  {
    if k == 0 then [] else [n % 256] + LittleEndian(n / 256, k - 1)
  }
}
