/** The hexadecimal formatting shared by the ROMs' `printU32`/`print_u32`:
  * eight lowercase digits, most significant nibble first, taken from the
  * `digits` table. */
module Hex {
  import opened Bytes

  /** `digits`: the ASCII codes of `0`..`9` and `a`..`f`. */
  const Digits: seq<byte> := [
    0x30, 0x31, 0x32, 0x33, 0x34, 0x35, 0x36, 0x37,
    0x38, 0x39, 0x61, 0x62, 0x63, 0x64, 0x65, 0x66
  ]

  /** A lowercase hexadecimal digit character. */
  predicate IsHexDigit(c: byte)
  {
    (0x30 <= c <= 0x39) || (0x61 <= c <= 0x66)
  }

  /** The value of a digit character; the inverse of indexing `Digits`. */
  function DigitValue(c: byte): (d: word)
    requires IsHexDigit(c)
    ensures d < 16 && Digits[d as int] == c
  {
    if c <= 0x39 then (c - 0x30) as word else (c - 0x61 + 10) as word
  }

  /** Every entry of `Digits` is a digit character, and its value is its index. */
  lemma DigitsAreHex(d: word)
    requires d < 16
    ensures IsHexDigit(Digits[d as int]) && DigitValue(Digits[d as int]) == d
  {
  }

  /** Nibble `i` of `v`, counting from the most significant:
    * `(value >> (4 * (7 - i))) & 0x0f`, written out for each `i` so that
    * every shift count is a constant. */
  function Nibble(v: word, i: nat): (n: word)
    requires i < 8
    ensures n < 16
  {
    if i == 0 then (v >> 28) & 0xF
    else if i == 1 then (v >> 24) & 0xF
    else if i == 2 then (v >> 20) & 0xF
    else if i == 3 then (v >> 16) & 0xF
    else if i == 4 then (v >> 12) & 0xF
    else if i == 5 then (v >> 8) & 0xF
    else if i == 6 then (v >> 4) & 0xF
    else v & 0xF
  }

  /** The eight characters `printU32` puts before the terminating NUL. */
  function U32Digits(v: word): (s: seq<byte>)
    ensures |s| == 8
    ensures forall i :: 0 <= i < 8 ==> IsHexDigit(s[i]) && DigitValue(s[i]) == Nibble(v, i)
  {
    var s := seq(8, i requires 0 <= i < 8 => Digits[Nibble(v, i) as int]);
    assert forall i :: 0 <= i < 8 ==> IsHexDigit(s[i]) && DigitValue(s[i]) == Nibble(v, i) by {
      forall i | 0 <= i < 8
        ensures IsHexDigit(s[i]) && DigitValue(s[i]) == Nibble(v, i)
      {
        DigitsAreHex(Nibble(v, i));
      }
    }
    s
  }

  /** Reading eight hexadecimal digits back, most significant first: a
    * reference decoder for the formatter. */
  function ParseU32(s: seq<byte>): word
    requires |s| == 8 && forall i :: 0 <= i < 8 ==> IsHexDigit(s[i])
  {
    (DigitValue(s[0]) << 28) | (DigitValue(s[1]) << 24) | (DigitValue(s[2]) << 20) | (DigitValue(s[3]) << 16)
    | (DigitValue(s[4]) << 12) | (DigitValue(s[5]) << 8) | (DigitValue(s[6]) << 4) | DigitValue(s[7])
  }

  /** The eight nibbles of `v`, reassembled, are `v`. */
  lemma NibblesReassemble(v: word)
    ensures (Nibble(v, 0) << 28) | (Nibble(v, 1) << 24) | (Nibble(v, 2) << 20) | (Nibble(v, 3) << 16)
      | (Nibble(v, 4) << 12) | (Nibble(v, 5) << 8) | (Nibble(v, 6) << 4) | Nibble(v, 7) == v
  {
    assert Nibble(v, 0) == (v >> 28) & 0xF && Nibble(v, 1) == (v >> 24) & 0xF;
    assert Nibble(v, 2) == (v >> 20) & 0xF && Nibble(v, 3) == (v >> 16) & 0xF;
    assert Nibble(v, 4) == (v >> 12) & 0xF && Nibble(v, 5) == (v >> 8) & 0xF;
    assert Nibble(v, 6) == (v >> 4) & 0xF && Nibble(v, 7) == v & 0xF;
  }

  /** Eight nibbles, most significant first, assembled into a word. */
  function Assemble(d0: word, d1: word, d2: word, d3: word, d4: word, d5: word, d6: word, d7: word): word
  {
    (d0 << 28) | (d1 << 24) | (d2 << 20) | (d3 << 16) | (d4 << 12) | (d5 << 8) | (d6 << 4) | d7
  }

  /** Nibble `i` of an assembled word is the nibble that went in at `i`:
    * one lemma per position, so that each is a small bit-vector fact. */
  lemma AssembledNibble0(d0: word, d1: word, d2: word, d3: word, d4: word, d5: word, d6: word, d7: word)
    requires d0 < 16 && d1 < 16 && d2 < 16 && d3 < 16 && d4 < 16 && d5 < 16 && d6 < 16 && d7 < 16
    ensures Nibble(Assemble(d0, d1, d2, d3, d4, d5, d6, d7), 0) == d0
  {
    var x := Assemble(d0, d1, d2, d3, d4, d5, d6, d7);
    assert Nibble(x, 0) == (x >> 28) & 0xF;
  }

  lemma AssembledNibble1(d0: word, d1: word, d2: word, d3: word, d4: word, d5: word, d6: word, d7: word)
    requires d0 < 16 && d1 < 16 && d2 < 16 && d3 < 16 && d4 < 16 && d5 < 16 && d6 < 16 && d7 < 16
    ensures Nibble(Assemble(d0, d1, d2, d3, d4, d5, d6, d7), 1) == d1
  {
    var x := Assemble(d0, d1, d2, d3, d4, d5, d6, d7);
    assert Nibble(x, 1) == (x >> 24) & 0xF;
  }

  lemma AssembledNibble2(d0: word, d1: word, d2: word, d3: word, d4: word, d5: word, d6: word, d7: word)
    requires d0 < 16 && d1 < 16 && d2 < 16 && d3 < 16 && d4 < 16 && d5 < 16 && d6 < 16 && d7 < 16
    ensures Nibble(Assemble(d0, d1, d2, d3, d4, d5, d6, d7), 2) == d2
  {
    var x := Assemble(d0, d1, d2, d3, d4, d5, d6, d7);
    assert Nibble(x, 2) == (x >> 20) & 0xF;
  }

  lemma AssembledNibble3(d0: word, d1: word, d2: word, d3: word, d4: word, d5: word, d6: word, d7: word)
    requires d0 < 16 && d1 < 16 && d2 < 16 && d3 < 16 && d4 < 16 && d5 < 16 && d6 < 16 && d7 < 16
    ensures Nibble(Assemble(d0, d1, d2, d3, d4, d5, d6, d7), 3) == d3
  {
    var x := Assemble(d0, d1, d2, d3, d4, d5, d6, d7);
    assert Nibble(x, 3) == (x >> 16) & 0xF;
  }

  lemma AssembledNibble4(d0: word, d1: word, d2: word, d3: word, d4: word, d5: word, d6: word, d7: word)
    requires d0 < 16 && d1 < 16 && d2 < 16 && d3 < 16 && d4 < 16 && d5 < 16 && d6 < 16 && d7 < 16
    ensures Nibble(Assemble(d0, d1, d2, d3, d4, d5, d6, d7), 4) == d4
  {
    var x := Assemble(d0, d1, d2, d3, d4, d5, d6, d7);
    assert Nibble(x, 4) == (x >> 12) & 0xF;
  }

  lemma AssembledNibble5(d0: word, d1: word, d2: word, d3: word, d4: word, d5: word, d6: word, d7: word)
    requires d0 < 16 && d1 < 16 && d2 < 16 && d3 < 16 && d4 < 16 && d5 < 16 && d6 < 16 && d7 < 16
    ensures Nibble(Assemble(d0, d1, d2, d3, d4, d5, d6, d7), 5) == d5
  {
    var x := Assemble(d0, d1, d2, d3, d4, d5, d6, d7);
    assert Nibble(x, 5) == (x >> 8) & 0xF;
  }

  lemma AssembledNibble6(d0: word, d1: word, d2: word, d3: word, d4: word, d5: word, d6: word, d7: word)
    requires d0 < 16 && d1 < 16 && d2 < 16 && d3 < 16 && d4 < 16 && d5 < 16 && d6 < 16 && d7 < 16
    ensures Nibble(Assemble(d0, d1, d2, d3, d4, d5, d6, d7), 6) == d6
  {
    var x := Assemble(d0, d1, d2, d3, d4, d5, d6, d7);
    assert Nibble(x, 6) == (x >> 4) & 0xF;
  }

  lemma AssembledNibble7(d0: word, d1: word, d2: word, d3: word, d4: word, d5: word, d6: word, d7: word)
    requires d0 < 16 && d1 < 16 && d2 < 16 && d3 < 16 && d4 < 16 && d5 < 16 && d6 < 16 && d7 < 16
    ensures Nibble(Assemble(d0, d1, d2, d3, d4, d5, d6, d7), 7) == d7
  {
    var x := Assemble(d0, d1, d2, d3, d4, d5, d6, d7);
    assert Nibble(x, 7) == x & 0xF;
  }

  /** Each nibble of an assembled word is the nibble that went in. */
  lemma NibblesOfAssembled(d0: word, d1: word, d2: word, d3: word, d4: word, d5: word, d6: word, d7: word)
    requires d0 < 16 && d1 < 16 && d2 < 16 && d3 < 16 && d4 < 16 && d5 < 16 && d6 < 16 && d7 < 16
    ensures var x := Assemble(d0, d1, d2, d3, d4, d5, d6, d7);
      && Nibble(x, 0) == d0 && Nibble(x, 1) == d1 && Nibble(x, 2) == d2 && Nibble(x, 3) == d3
      && Nibble(x, 4) == d4 && Nibble(x, 5) == d5 && Nibble(x, 6) == d6 && Nibble(x, 7) == d7
  {
    AssembledNibble0(d0, d1, d2, d3, d4, d5, d6, d7);
    AssembledNibble1(d0, d1, d2, d3, d4, d5, d6, d7);
    AssembledNibble2(d0, d1, d2, d3, d4, d5, d6, d7);
    AssembledNibble3(d0, d1, d2, d3, d4, d5, d6, d7);
    AssembledNibble4(d0, d1, d2, d3, d4, d5, d6, d7);
    AssembledNibble5(d0, d1, d2, d3, d4, d5, d6, d7);
    AssembledNibble6(d0, d1, d2, d3, d4, d5, d6, d7);
    AssembledNibble7(d0, d1, d2, d3, d4, d5, d6, d7);
  }

  /** Formatting and parsing round-trip one way: the eight digits read back
    * as the value that was printed. */
  lemma ParseU32Digits(v: word)
    ensures ParseU32(U32Digits(v)) == v
  {
    var s := U32Digits(v);
    assert DigitValue(s[0]) == Nibble(v, 0) && DigitValue(s[1]) == Nibble(v, 1);
    assert DigitValue(s[2]) == Nibble(v, 2) && DigitValue(s[3]) == Nibble(v, 3);
    assert DigitValue(s[4]) == Nibble(v, 4) && DigitValue(s[5]) == Nibble(v, 5);
    assert DigitValue(s[6]) == Nibble(v, 6) && DigitValue(s[7]) == Nibble(v, 7);
    NibblesReassemble(v);
  }

  /** A word whose nibbles are the values of eight digits prints as
    * those digits. */
  lemma DigitsOfNibbles(v: word, s: seq<byte>)
    requires |s| == 8 && forall i :: 0 <= i < 8 ==> IsHexDigit(s[i])
    requires Nibble(v, 0) == DigitValue(s[0]) && Nibble(v, 1) == DigitValue(s[1])
    requires Nibble(v, 2) == DigitValue(s[2]) && Nibble(v, 3) == DigitValue(s[3])
    requires Nibble(v, 4) == DigitValue(s[4]) && Nibble(v, 5) == DigitValue(s[5])
    requires Nibble(v, 6) == DigitValue(s[6]) && Nibble(v, 7) == DigitValue(s[7])
    ensures U32Digits(v) == s
  {
    var t := U32Digits(v);
    assert t[0] == s[0] && t[1] == s[1] && t[2] == s[2] && t[3] == s[3];
    assert t[4] == s[4] && t[5] == s[5] && t[6] == s[6] && t[7] == s[7];
  }

  /** And the other way: eight lowercase digits are what formatting their
    * value prints. */
  lemma U32DigitsOfParse(s: seq<byte>)
    requires |s| == 8 && forall i :: 0 <= i < 8 ==> IsHexDigit(s[i])
    ensures U32Digits(ParseU32(s)) == s
  {
    var d0, d1, d2, d3 := DigitValue(s[0]), DigitValue(s[1]), DigitValue(s[2]), DigitValue(s[3]);
    var d4, d5, d6, d7 := DigitValue(s[4]), DigitValue(s[5]), DigitValue(s[6]), DigitValue(s[7]);
    assert ParseU32(s) == Assemble(d0, d1, d2, d3, d4, d5, d6, d7);
    NibblesOfAssembled(d0, d1, d2, d3, d4, d5, d6, d7);
    DigitsOfNibbles(ParseU32(s), s);
  }

  /** Distinct values print differently. */
  lemma U32DigitsInjective(v: word, w: word)
    ensures U32Digits(v) == U32Digits(w) <==> v == w
  {
    if U32Digits(v) == U32Digits(w) {
      ParseU32Digits(v);
      ParseU32Digits(w);
    }
  }

  /** The buffer `printU32` fills: `buf[i] = digits[nibble i]` for
    * `i` in 0..7, then `buf[8] = '\0'`. */
  method FormatU32(value: word) returns (buf: array<byte>)
    ensures fresh(buf)
    ensures buf[..] == U32Digits(value) + [0]
  {
    buf := new byte[9];
    buf[8] := 0;
    var i := 0;
    while i < 8
      invariant 0 <= i <= 8
      invariant buf[8] == 0
      invariant forall j :: 0 <= j < i ==> buf[j] == U32Digits(value)[j]
    {
      buf[i] := Digits[Nibble(value, i) as int];
      i := i + 1;
    }
    assert buf[..] == U32Digits(value) + [0];
  }
}
