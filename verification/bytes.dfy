/** Byte-level vocabulary shared by the transfer buffer, the channel and the block cache. */
module Bytes {

  /** An unsigned 8-bit value, the element type of every transfer (Rust `u8`). */
  type u8 = x: int | 0 <= x < 0x100

  /** `n` zero bytes: the content of a vector after `resize(n, 0)`. */
  function Zeros(n: nat): (r: seq<u8>)
    ensures |r| == n
    ensures forall i | 0 <= i < n :: r[i] == 0
  {
    seq(n, _ => 0)
  }
}
