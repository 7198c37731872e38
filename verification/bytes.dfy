/** Bytes as they arrive on the I2C bus, and the big-endian reading of a run of them. */
module Bytes {

  type Byte = x: int | 0 <= x < 256

  /** 256 to the power k: the number of values k bytes can carry. */
  function Pow256(k: nat): (p: nat)
    ensures p >= 1
  {
    if k == 0 then 1 else 256 * Pow256(k - 1)
  }

  /** The bytes read most significant first, the order the LM75 sends register words. */
  function BigEndian(bs: seq<Byte>): (n: nat)
    ensures n < Pow256(|bs|)
  {
    if |bs| == 0 then 0 else BigEndian(bs[..|bs| - 1]) * 256 + bs[|bs| - 1]
  }
}
