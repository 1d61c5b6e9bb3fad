/** Bytes, 8-bit sums and the small vocabulary that the other modules share. */
module Bytes {

  /** A C or Go uint8. */
  type byte = x: int | 0 <= x < 256

  datatype Option<+T> = None | Some(value: T)

  datatype Result<+T, +E> = Ok(value: T) | Err(error: E)

  /** The 8-bit addition of C, Go and Rust's wrapping_add. */
  function Add8(a: byte, b: byte): (r: byte) {
    if a + b < 256 then a + b else a + b - 256
  }

  lemma Add8IsModular(a: byte, b: byte)
    ensures Add8(a, b) == (a + b) % 256
  {}

  /** The 8-bit sum that closes an MDB block. */
  function Sum(bs: seq<byte>): (r: byte) {
    if bs == [] then 0 else Add8(Sum(bs[..|bs| - 1]), bs[|bs| - 1])
  }

  lemma SumAppend(bs: seq<byte>, b: byte)
    ensures Sum(bs + [b]) == Add8(Sum(bs), b)
  {
    assert (bs + [b])[..|bs|] == bs;
  }

  function Total(bs: seq<byte>): (r: nat) {
    if bs == [] then 0 else Total(bs[..|bs| - 1]) + bs[|bs| - 1]
  }

  /** The wrapping sum is the true sum modulo 256. */
  lemma {:induction false} SumIsModular(bs: seq<byte>)
    ensures Sum(bs) == Total(bs) % 256
  {
    if bs != [] {
      SumIsModular(bs[..|bs| - 1]);
      Add8IsModular(Sum(bs[..|bs| - 1]), bs[|bs| - 1]);
    }
  }
}
