/** Machine-level value types shared by the link protocol, the harness and the ROMs. */
module Bytes {

  /** An unsigned 8-bit value (`u8`). */
  type byte = bv8

  /** An unsigned 32-bit value (`u32`). */
  type word = bv32

  /** The four bytes of `x`, least significant first (`u32::to_le` in memory). */
  function Le32(x: word): (r: seq<byte>)
    ensures |r| == 4
  {
    [(x & 0xFF) as byte, ((x >> 8) & 0xFF) as byte, ((x >> 16) & 0xFF) as byte, (x >> 24) as byte]
  }

  /** The word whose little-endian bytes are `d`. */
  function FromLe32(d: seq<byte>): word
    requires |d| == 4
  {
    (d[0] as word) | ((d[1] as word) << 8) | ((d[2] as word) << 16) | ((d[3] as word) << 24)
  }

  lemma FromLe32OfLe32(x: word)
    ensures FromLe32(Le32(x)) == x
  {
  }

  lemma Le32OfFromLe32(d: seq<byte>)
    requires |d| == 4
    ensures Le32(FromLe32(d)) == d
  {
  }

  /** `n` copies of `b`. */
  function Repeat(b: byte, n: nat): (r: seq<byte>)
    ensures |r| == n
  {
    if n == 0 then [] else Repeat(b, n - 1) + [b]
  }

  /** Every one of them is `b`. */
  lemma {:induction false} RepeatAt(b: byte, n: nat, k: nat)
    requires k < n
    ensures Repeat(b, n)[k] == b
  {
    if k < n - 1 {
      RepeatAt(b, n - 1, k);
    }
  }

  /** Sequence concatenation is associative. */
  lemma AppendAssoc<T>(a: seq<T>, b: seq<T>, c: seq<T>)
    ensures a + (b + c) == (a + b) + c
  {
  }

  /** `offset as u32`: truncation of a length to 32 bits. */
  function TruncWord(offset: nat): word
  {
    (offset % 0x1_0000_0000) as word
  }
}

/** Failure-carrying results, as in the source's `Result` returns. */
module Results {

  datatype Result<+T, +E> = Ok(value: T) | Err(error: E)

  datatype Option<+T> = None | Some(value: T)
}
