/** Raw bytes, as the Rust `u8` the account buffer and instruction data are made of. */
module Bytes {

  newtype Byte = b: int | 0 <= b < 0x100

  /** `n` zero bytes: what `fill(0)` leaves in a buffer of length `n`. */
  function Zeros(n: nat): (z: seq<Byte>)
    ensures |z| == n
    ensures forall i :: 0 <= i < n ==> z[i] == 0
  {
    seq(n, _ => 0)
  }

  predicate AllZero(s: seq<Byte>)
  {
    forall i :: 0 <= i < |s| ==> s[i] == 0
  }
}
