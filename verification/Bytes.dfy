/** Bytes and the 32-bit quantities made of them. */
module Bytes {

  newtype byte = b: int | 0 <= b < 256

  const WRAP: nat := 0x1_0000_0000

  newtype uint32 = c: int | 0 <= c < 0x1_0000_0000

  /** From position n on all bytes are the same. */
  predicate UniformFrom(source: seq<byte>, n: nat) {
    forall k :: n <= k < |source| ==> source[k] == source[n]
  }
}
