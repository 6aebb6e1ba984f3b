/**
 * The "crapsum": the 32-bit rolling checksum both ends of the link compute over
 * every packet (xfertest/src/crapsum.rs).
 */
module Crapsum {
  import opened Bytes

  /** The state a fresh checksum starts from. */
  const InitialState: word := 0xfadebabe

  /** One fold step, exactly as written: `(s << 3) | ((s >> 29) ^ b)`.
    * `^` binds tighter than `|`, so this is not rotate-then-XOR: bits 3..7 of
    * the byte are OR-ed into bits 0..4 of the old state that `s << 3` moved there. */
  function Step(s: word, b: byte): (r: word)
    // the low three bits are the old top three bits XOR the byte's
    ensures r & 7 == (s >> 29) ^ ((b as word) & 7)
  {
    (s << 3) | ((s >> 29) ^ (b as word))
  }

  /** What the step does bit by bit. */
  lemma StepBits(s: word, b: byte)
    // bits shifted out above bit 31 are dropped, so bits 8..31 of the new
    // state are bits 5..28 of the old one, whatever the byte
    ensures Step(s, b) >> 8 == (s >> 5) & 0xFF_FFFF
    // bits 3..7 are the old bits 0..4 OR the byte's bits 3..7
    ensures (Step(s, b) >> 3) & 0x1F == (s & 0x1F) | (((b as word) >> 3) & 0x1F)
  {
  }

  /** For bytes below 8 the step coincides with rotate-left-by-3 then XOR. */
  lemma StepOfSmallByte(s: word, b: byte)
    requires b < 8
    ensures Step(s, b) == s.RotateLeft(3) ^ (b as word)
  {
  }

  /** Folds `Step` over `data` starting from `s`. */
  function Fold(s: word, data: seq<byte>): word
    decreases |data|
  {
    if data == [] then s else Fold(Step(s, data[0]), data[1..])
  }

  /** The checksum value (`struct Crapsum { state: u32 }`, compared by state). */
  datatype Crapsum = Crapsum(state: word)
  {
    /** `update`: replaces the state by one fold step over `b`. */
    function Update(b: byte): Crapsum
    {
      Crapsum(Step(state, b))
    }
  }

  /** `Crapsum::from_state`. */
  function FromState(s: word): (c: Crapsum)
    ensures c.state == s
  {
    Crapsum(s)
  }

  /** `Crapsum::new`. */
  function New(): (c: Crapsum)
    ensures c.state == 0xfadebabe
  {
    FromState(InitialState)
  }

  /** The checksum of `data`: `update` folded over it from `new()`. */
  function ChecksumOf(data: seq<byte>): Crapsum
  {
    Crapsum(Fold(InitialState, data))
  }

  /** `Crapsum::compute`: the loop that updates a local checksum byte by byte. */
  method Compute(data: seq<byte>) returns (ret: Crapsum)
    ensures ret == ChecksumOf(data)
    ensures data == [] ==> ret == New()
  {
    ret := New();
    var i := 0;
    while i < |data|
      invariant 0 <= i <= |data|
      invariant Fold(ret.state, data[i..]) == Fold(InitialState, data)
    {
      assert data[i..][1..] == data[i + 1..];
      ret := ret.Update(data[i]);
      i := i + 1;
    }
  }

  /** Folding over a concatenation is folding over the second part from the
    * state the first part left. */
  lemma {:induction false} FoldAppend(s: word, a: seq<byte>, b: seq<byte>)
    ensures Fold(s, a + b) == Fold(Fold(s, a), b)
    decreases |a|
  {
    if a == [] {
      assert a + b == b;
    } else {
      assert (a + b)[0] == a[0];
      assert (a + b)[1..] == a[1..] + b;
      FoldAppend(Step(s, a[0]), a[1..], b);
    }
  }

  /** `compute(a ++ b)` equals folding `update` over `b` from `compute(a)`. */
  lemma ChecksumAppend(a: seq<byte>, b: seq<byte>)
    ensures ChecksumOf(a + b).state == Fold(ChecksumOf(a).state, b)
  {
    FoldAppend(InitialState, a, b);
  }

  /** Appending one byte is one `update`. */
  lemma ChecksumSnoc(a: seq<byte>, x: byte)
    ensures ChecksumOf(a + [x]) == ChecksumOf(a).Update(x)
  {
    FoldAppend(InitialState, a, [x]);
    assert [x][1..] == [];
  }

  /** The empty input has the initial checksum. */
  lemma ChecksumOfEmpty()
    ensures ChecksumOf([]) == New()
  {
  }

  /** Two checksums are equal exactly when their states are, and `from_state`
    * keeps the state it is given. */
  lemma FromStateExact(x: word, y: word)
    ensures FromState(x).state == x
    ensures FromState(x) == FromState(y) <==> x == y
  {
  }

  /** The step is not rotate-then-XOR: state 1 and byte 8 tell them apart. */
  lemma NotRotateThenXor()
    ensures Step(1, 8) == 8
    ensures (1 as word).RotateLeft(3) ^ 8 == 0
  {
  }
}
