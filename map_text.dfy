/** What the ROMs' print routines share: C strings, the `char` that gets
  * stored into a background-map entry, and the shape of background map 0. */
module MapText {
  import opened Bytes
  import opened VbHardware

  /** Entries per background-map row. */
  const MapWidth: int := 64
  /** Entries in one background map: 64 rows of 64. */
  const MapEntries: int := 4096
  /** `PRINT_COLS`: characters per printed line. */
  const PrintCols: int := 48
  /** `'\n'`. */
  const Newline: byte := 0x0A

  /** A string literal's bytes (its characters are all ASCII). */
  function Ascii(s: string): (b: seq<byte>)
    requires forall i :: 0 <= i < |s| ==> s[i] as int < 128
    ensures |b| == |s|
  {
    seq(|s|, i requires 0 <= i < |s| => s[i] as int as byte)
  }

  /** `*pos = c`: a `char` stored into a `u16` map entry. `char` is signed
    * on the V810, so the character code is the low byte and the high byte
    * repeats its top bit. */
  function CharEntry(c: byte): (e: u16)
    ensures e % 0x100 == c as int
    ensures e / 0x100 == if c < 0x80 then 0 else 0xFF
  {
    if c < 0x80 then c as int else 0xFF00 + c as int
  }

  /** The map entries that characters `text` produce. */
  function Entries(text: seq<byte>): (e: seq<u16>)
    ensures |e| == |text| && forall i :: 0 <= i < |text| ==> e[i] == CharEntry(text[i])
  {
    seq(|text|, i requires 0 <= i < |text| => CharEntry(text[i]))
  }

  /** Storing one more character right after a run of entries written
    * from `p` extends the run by that character. */
  lemma RunExtends(cells: seq<u16>, p: nat, text: seq<byte>, c: byte)
    requires p + |text| < |cells|
    ensures (cells[..p] + Entries(text) + cells[p + |text|..])[p + |text| := CharEntry(c)]
      == cells[..p] + Entries(text + [c]) + cells[p + |text| + 1..]
  {
  }

  /** Where the terminating NUL of a C string is. */
  function NulIndex(str: seq<byte>): (n: nat)
    requires 0 in str
    ensures n < |str| && str[n] == 0
    ensures forall j :: 0 <= j < n ==> str[j] != 0
  {
    if str[0] == 0 then 0 else 1 + NulIndex(str[1..])
  }

  /** The characters a C string holds: everything before its first NUL. */
  function CString(str: seq<byte>): (t: seq<byte>)
    requires 0 in str
    ensures 0 !in t && |t| < |str| && str[..|t| + 1] == t + [0]
  {
    str[..NulIndex(str)]
  }

  /** A byte string with no NUL in it, terminated, is read back whole. */
  lemma CStringOfTerminated(t: seq<byte>)
    requires 0 !in t
    ensures CString(t + [0]) == t
  {
  }
}
