/** The console and result dump of the test ROM (`testrom/testrom.c`): the
  * same 48-column line breaking as the other ROMs but with no row limit,
  * a `clear` that zeroes background map 0 byte by byte, and a `main` that
  * prints the 33 words it reads at `CharSeg3`: gpr00..gpr31, then
  * psw. */
module TestRomConsole {
  import opened Bytes
  import opened VbHardware
  import opened MapText
  import opened Hex

  /** `print_map_pos`, counted in `u16` entries from `BGMap(0)`, and
    * `print_column`. */
  datatype Cursor = Cursor(pos: int, column: int)

  /** Where `init_print` puts the cursor. */
  const Origin: Cursor := Cursor(0, 0)

  /** The printed line the cursor is on. */
  function Line(c: Cursor): int
  {
    (c.pos - c.column) / MapWidth
  }

  /** The invariant `print_str` keeps: at most 48 characters into a line
    * that starts on a 64-entry row boundary. With no row limit, the line
    * can be any row at or after the first. */
  predicate CursorOk(c: Cursor)
  {
    && 0 <= c.column <= PrintCols
    && c.pos - c.column >= 0
    && (c.pos - c.column) % MapWidth == 0
  }

  /** Background map 0 and the cursor. The model holds map 0 only; a store
    * past its last entry is not recorded. */
  datatype Screen = Screen(cells: seq<u16>, cursor: Cursor)

  predicate ScreenOk(s: Screen)
  {
    |s.cells| == MapEntries && CursorOk(s.cursor)
  }

  /** A line break: back to the start of the line, one row down. */
  function LineBreak(c: Cursor): (d: Cursor)
    requires CursorOk(c)
    ensures CursorOk(d) && d.column == 0 && Line(d) == Line(c) + 1
    ensures d.pos == (Line(c) + 1) * MapWidth
  {
    Cursor(c.pos - c.column + MapWidth, 0)
  }

  /** One character of `print_str`: a newline, or any character once the
    * line holds 48, breaks the line; any other character is stored at the
    * cursor, which moves one entry on. */
  function PutChar(s: Screen, c: byte): (t: Screen)
    requires ScreenOk(s)
    ensures ScreenOk(t)
  {
    if c == Newline || s.cursor.column == PrintCols then
      Screen(s.cells, LineBreak(s.cursor))
    else
      var cells := if s.cursor.pos < MapEntries then s.cells[s.cursor.pos := CharEntry(c)] else s.cells;
      Screen(cells, Cursor(s.cursor.pos + 1, s.cursor.column + 1))
  }

  /** Printing a run of characters, one after the other. */
  function Print(s: Screen, text: seq<byte>): (t: Screen)
    requires ScreenOk(s)
    ensures ScreenOk(t)
    decreases |text|
  {
    if text == [] then s else PutChar(Print(s, text[..|text| - 1]), text[|text| - 1])
  }

  /** Printing one more character is one more `PutChar`. */
  lemma PrintSnoc(s: Screen, text: seq<byte>, c: byte)
    requires ScreenOk(s)
    ensures Print(s, text + [c]) == PutChar(Print(s, text), c)
  {
    assert (text + [c])[..|text|] == text;
  }

  /** Printing `a` and then `b` is printing `a + b`. */
  lemma {:induction false} PrintAppend(s: Screen, a: seq<byte>, b: seq<byte>)
    requires ScreenOk(s)
    ensures Print(s, a + b) == Print(Print(s, a), b)
    decreases |b|
  {
    if b == [] {
      assert a + b == a;
    } else {
      var b' := b[..|b| - 1];
      assert (a + b)[..|a + b| - 1] == a + b';
      PrintAppend(s, a, b');
    }
  }

  /** A character other than a newline, with room left on the line, is
    * stored at the cursor. */
  lemma PutCharStores(s: Screen, c: byte)
    requires ScreenOk(s) && c != Newline && s.cursor.column < PrintCols && s.cursor.pos < MapEntries
    ensures PutChar(s, c) == Screen(s.cells[s.cursor.pos := CharEntry(c)], Cursor(s.cursor.pos + 1, s.cursor.column + 1))
  {
  }

  /** Characters that fit the rest of the line and hold no newline land in
    * consecutive entries from the cursor, and nothing else changes. */
  lemma {:induction false} PrintRun(s: Screen, text: seq<byte>)
    requires ScreenOk(s)
    requires Newline !in text && s.cursor.column + |text| <= PrintCols
    requires s.cursor.pos + |text| <= MapEntries
    ensures var p := s.cursor.pos;
      Print(s, text) == Screen(s.cells[..p] + Entries(text) + s.cells[p + |text|..],
                               Cursor(p + |text|, s.cursor.column + |text|))
    decreases |text|
  {
    if text != [] {
      var init := text[..|text| - 1];
      assert Newline !in init by {
        assert forall k :: 0 <= k < |init| ==> init[k] == text[k];
      }
      PrintRun(s, init);
      var c := text[|text| - 1];
      assert init + [c] == text;
      PrintRunStep(s, init, c);
    }
  }

  /** The step of `PrintRun`: one more character after a run. */
  lemma PrintRunStep(s: Screen, init: seq<byte>, c: byte)
    requires ScreenOk(s) && c != Newline
    requires s.cursor.column + |init| < PrintCols && s.cursor.pos + |init| < MapEntries
    requires var p := s.cursor.pos;
      Print(s, init) == Screen(s.cells[..p] + Entries(init) + s.cells[p + |init|..],
                               Cursor(p + |init|, s.cursor.column + |init|))
    ensures var p := s.cursor.pos;
      Print(s, init + [c]) == Screen(s.cells[..p] + Entries(init + [c]) + s.cells[p + |init| + 1..],
                                     Cursor(p + |init| + 1, s.cursor.column + |init| + 1))
  {
    PrintSnoc(s, init, c);
    PutCharStores(Print(s, init), c);
    RunExtends(s.cells, s.cursor.pos, init, c);
  }

  /** With no row limit the cursor only moves forward, and nothing before
    * where printing started is ever written again. */
  lemma {:induction false} PrintMovesForward(s: Screen, text: seq<byte>)
    requires ScreenOk(s)
    ensures Print(s, text).cursor.pos >= s.cursor.pos
    ensures Line(Print(s, text).cursor) >= Line(s.cursor)
    ensures forall k :: 0 <= k < s.cursor.pos && k < MapEntries ==> Print(s, text).cells[k] == s.cells[k]
    decreases |text|
  {
    if text != [] {
      PrintMovesForward(s, text[..|text| - 1]);
    }
  }

  /** A character arriving when the line is full only breaks the line: it
    * is never stored, and the next character starts the following row. */
  lemma FullLineDropsChar(s: Screen, c: byte, d: byte)
    requires ScreenOk(s) && s.cursor.column == PrintCols
    requires d != Newline
    ensures Print(s, [c]) == Screen(s.cells, LineBreak(s.cursor))
    ensures var n := LineBreak(s.cursor);
      Print(s, [c, d]).cursor == Cursor(n.pos + 1, 1)
      && Print(s, [c, d]).cells == if n.pos < MapEntries then s.cells[n.pos := CharEntry(d)] else s.cells
  {
    assert [c, d][..1] == [c];
    assert [c][..0] == [];
  }

  /** Background map 0 as `clear` leaves it, with the cursor at the origin. */
  function Cleared(): (s: Screen)
    ensures ScreenOk(s) && s.cursor == Origin
    ensures forall k :: 0 <= k < MapEntries ==> s.cells[k] == 0
  {
    Screen(seq(MapEntries, k => 0), Origin)
  }

  /** `gpr`, `psw:`, two spaces and `:` in ASCII. */
  const Gpr: seq<byte> := [0x67, 0x70, 0x72]
  const Psw: seq<byte> := [0x70, 0x73, 0x77, 0x3A]
  const Indent: seq<byte> := [0x20, 0x20]
  const Colon: byte := 0x3A

  /** The label `main` prints before register `k`: `gpr00:` to start a
    * line, `  gprNN:` after a value on the same line, and `psw:` for the
    * 33rd word. */
  function Label(k: nat): (l: seq<byte>)
    requires k < 33
    ensures |l| == LabelLength(k)
  {
    if k == 32 then Psw
    else
      var name := Gpr + [Digits[k / 10], Digits[k % 10], Colon];
      if k % 3 == 0 then name else Indent + name
  }

  /** How long register `k`'s label is: `psw:` is 4 characters, `gprNN:`
    * 6, and with the indent 8. */
  function LabelLength(k: nat): nat
  {
    if k == 32 then 4 else if k % 3 == 0 then 6 else 8
  }

  /** A label is plain text: no newline and no NUL. */
  lemma LabelIsText(k: nat)
    requires k < 33
    ensures Newline !in Label(k) && 0 !in Label(k)
  {
    if k < 32 {
      var name := Gpr + [Digits[k / 10], Digits[k % 10], Colon];
      assert forall i :: 0 <= i < |name| ==> name[i] != Newline && name[i] != 0;
    }
  }

  /** What follows register `k`'s value: a newline after each third
    * register and after gpr31, a blank line after psw. */
  function LineEnd(k: nat): (e: seq<byte>)
    requires k < 33
    ensures 0 !in e
  {
    if k == 32 then [Newline, Newline]
    else if k % 3 == 2 || k == 31 then [Newline]
    else []
  }

  /** The text `main` prints for register `k` holding `v`. */
  function RegisterText(k: nat, v: word): seq<byte>
    requires k < 33
  {
    Label(k) + U32Digits(v) + LineEnd(k)
  }

  /** The text of the dump of the first `n` words. */
  function DumpText(words: seq<word>, n: nat): seq<byte>
    requires n <= |words| && n <= 33
  {
    if n == 0 then [] else DumpText(words, n - 1) + RegisterText(n - 1, words[n - 1])
  }

  /** The text of the whole dump, all 33 registers. */
  function Dump(words: seq<word>): seq<byte>
    requires |words| == 33
  {
    DumpText(words, |words|)
  }

  /** Where register `k`'s label starts: three registers to a line over
    * lines 0..10, with the second and third after 14 and 30 columns; psw
    * alone on line 11; and after it the blank line 12, so line 13 is
    * next. */
  function DumpCursor(k: nat): (c: Cursor)
    requires k <= 33
    ensures CursorOk(c)
  {
    if k == 33 then Cursor(13 * MapWidth, 0)
    else if k == 32 then Cursor(11 * MapWidth, 0)
    else
      var column := if k % 3 == 0 then 0 else 16 * (k % 3) - 2;
      Cursor((k / 3) * MapWidth + column, column)
  }

  /** Where register `k`'s eight digits are. */
  function ValuePos(k: nat): int
    requires k < 33
  {
    DumpCursor(k).pos + LabelLength(k)
  }

  /** Printing one newline is one line break. */
  lemma NewlineStep(t: Screen)
    requires ScreenOk(t)
    ensures Print(t, [Newline]) == Screen(t.cells, LineBreak(t.cursor))
  {
    assert [Newline][..0] == [];
  }

  /** Register `k`'s label and digits fit its line and map 0, and its line
    * end takes the cursor from after them to where register `k + 1`
    * belongs. */
  lemma DumpCursorAdvances(k: nat)
    requires k < 33
    ensures var c := DumpCursor(k); var n := LabelLength(k) + 8;
      && c.column + n <= PrintCols && c.pos + n <= MapEntries
      && (LineEnd(k) == [] ==> Cursor(c.pos + n, c.column + n) == DumpCursor(k + 1))
      && (LineEnd(k) == [Newline] ==> LineBreak(Cursor(c.pos + n, c.column + n)) == DumpCursor(k + 1))
  {
    if k < 32 {
      var q, r := k / 3, k % 3;
      assert k == 3 * q + r;
      if r == 2 {
        assert (k + 1) / 3 == q + 1 && (k + 1) % 3 == 0;
      } else if k < 31 {
        assert (k + 1) / 3 == q && (k + 1) % 3 == r + 1;
      }
    }
  }

  /** The cursor only moves on from one register to the next: register
    * `j`'s digits all lie before where any later register starts. */
  lemma {:induction false} DumpCursorMonotone(j: nat, k: nat)
    requires j < k <= 33
    ensures ValuePos(j) + 8 <= DumpCursor(k).pos
    decreases k - j
  {
    DumpCursorAdvances(j);
    if j + 1 < k {
      DumpCursorMonotone(j + 1, k);
      DumpCursorAdvances(j + 1);
    }
  }

  /** `cells` with `e` written over it from entry `p` on. */
  function Splice(cells: seq<u16>, p: nat, e: seq<u16>): (r: seq<u16>)
    requires p + |e| <= |cells|
    ensures |r| == |cells|
  {
    seq(|cells|, x requires 0 <= x < |cells| => if p <= x < p + |e| then e[x - p] else cells[x])
  }

  /** A splice is the part before `p`, then `e`, then the part after. */
  lemma SpliceIsConcat(cells: seq<u16>, p: nat, e: seq<u16>)
    requires p + |e| <= |cells|
    ensures Splice(cells, p, e) == cells[..p] + e + cells[p + |e|..]
  {
  }

  /** A splice leaves each entry before `p` alone ... */
  lemma SpliceBefore(cells: seq<u16>, p: nat, e: seq<u16>, x: nat)
    requires p + |e| <= |cells| && x < p
    ensures Splice(cells, p, e)[x] == cells[x]
  {
  }

  /** ... and shows `e` from `p` on. */
  lemma SpliceAt(cells: seq<u16>, p: nat, e: seq<u16>, off: nat)
    requires p + |e| <= |cells| && off < |e|
    ensures Splice(cells, p, e)[p + off] == e[off]
  {
  }

  /** Register `k`'s label and digits: no newline, and eight more
    * characters than the label. */
  lemma ShownText(k: nat, v: word)
    requires k < 33
    ensures |Label(k) + U32Digits(v)| == LabelLength(k) + 8 && Newline !in Label(k) + U32Digits(v)
  {
    LabelIsText(k);
    forall i | 0 <= i < 8
      ensures U32Digits(v)[i] != Newline
    {
      assert IsHexDigit(U32Digits(v)[i]);
    }
  }

  /** The map entries of register `k`'s label and digits. */
  function Shown(k: nat, v: word): (e: seq<u16>)
    requires k < 33
    ensures |e| == LabelLength(k) + 8
  {
    seq(LabelLength(k) + 8, x requires 0 <= x < LabelLength(k) + 8 =>
      if x < LabelLength(k) then CharEntry(Label(k)[x]) else CharEntry(U32Digits(v)[x - LabelLength(k)]))
  }

  /** Those are the entries of the label followed by the digits. */
  lemma ShownIsEntries(k: nat, v: word)
    requires k < 33
    ensures Shown(k, v) == Entries(Label(k) + U32Digits(v))
  {
  }

  /** Digit `i` of the value comes `i` entries after the label. */
  lemma ShownDigit(k: nat, v: word, i: nat)
    requires k < 33 && i < 8
    ensures Shown(k, v)[LabelLength(k) + i] == CharEntry(U32Digits(v)[i])
  {
  }

  /** From just after register `k`'s digits, its line end leads to where
    * register `k + 1` belongs. */
  lemma LineEndStep(mid: Screen, k: nat)
    requires ScreenOk(mid) && k < 33
    requires var c := DumpCursor(k); var n := LabelLength(k) + 8; mid.cursor == Cursor(c.pos + n, c.column + n)
    ensures Print(mid, LineEnd(k)) == Screen(mid.cells, DumpCursor(k + 1))
  {
    DumpCursorAdvances(k);
    if k == 32 {
      assert LineEnd(k) == [Newline] + [Newline];
      PrintAppend(mid, [Newline], [Newline]);
      NewlineStep(mid);
      NewlineStep(Print(mid, [Newline]));
    } else if LineEnd(k) == [Newline] {
      NewlineStep(mid);
    } else {
      assert Print(mid, []) == mid;
    }
  }

  /** The dump of register `k`, started where it belongs, writes its label
    * and digits in place and leaves the cursor where register `k + 1`
    * belongs. */
  lemma RegisterStep(s: Screen, k: nat, v: word)
    requires ScreenOk(s) && k < 33 && s.cursor == DumpCursor(k)
    ensures DumpCursor(k).pos + LabelLength(k) + 8 <= MapEntries
    ensures Print(s, RegisterText(k, v)) == Screen(Splice(s.cells, DumpCursor(k).pos, Shown(k, v)), DumpCursor(k + 1))
  {
    var shown := Label(k) + U32Digits(v);
    ShownText(k, v);
    DumpCursorAdvances(k);
    PrintAppend(s, shown, LineEnd(k));
    PrintRun(s, shown);
    ShownIsEntries(k, v);
    SpliceIsConcat(s.cells, DumpCursor(k).pos, Shown(k, v));
    LineEndStep(Print(s, shown), k);
  }

  /** `base` with run `es[k]` written over it from entry `ps[k]` on, for
    * `k` = 0 .. n-1 in turn. */
  function Overlay(base: seq<u16>, ps: seq<nat>, es: seq<seq<u16>>, n: nat): (r: seq<u16>)
    requires n <= |ps| && n <= |es|
    requires forall k :: 0 <= k < n ==> ps[k] + |es[k]| <= |base|
    ensures |r| == |base|
  {
    if n == 0 then base else Splice(Overlay(base, ps, es, n - 1), ps[n - 1], es[n - 1])
  }

  /** The runs come one after another: each ends before the next starts. */
  ghost predicate InOrder(ps: seq<nat>, es: seq<seq<u16>>, n: nat)
    requires n <= |ps| && n <= |es|
  {
    forall j, k :: 0 <= j < k < n ==> ps[j] + |es[j]| <= ps[k]
  }

  /** Runs written in order never overwrite one another: every run shows
    * whole in the result. */
  lemma {:induction false} OverlayShows(base: seq<u16>, ps: seq<nat>, es: seq<seq<u16>>, n: nat, j: nat, off: nat)
    requires n <= |ps| && n <= |es|
    requires forall k :: 0 <= k < n ==> ps[k] + |es[k]| <= |base|
    requires InOrder(ps, es, n) && j < n && off < |es[j]|
    ensures Overlay(base, ps, es, n)[ps[j] + off] == es[j][off]
  {
    var prev := Overlay(base, ps, es, n - 1);
    if j == n - 1 {
      SpliceAt(prev, ps[j], es[j], off);
    } else {
      OverlayShows(base, ps, es, n - 1, j, off);
      SpliceBefore(prev, ps[n - 1], es[n - 1], ps[j] + off);
    }
  }

  /** Where each register's label starts, ... */
  function Starts(): (ps: seq<nat>)
    ensures |ps| == 33 && forall k :: 0 <= k < 33 ==> ps[k] == DumpCursor(k).pos
  {
    seq(33, k requires 0 <= k < 33 => DumpCursor(k).pos)
  }

  /** ... and what each shows. */
  function Shows(words: seq<word>): (es: seq<seq<u16>>)
    requires |words| == 33
    ensures |es| == 33 && forall k :: 0 <= k < 33 ==> es[k] == Shown(k, words[k])
  {
    seq(33, k requires 0 <= k < 33 => Shown(k, words[k]))
  }

  /** Every register fits map 0, and each comes after the one before. */
  lemma DumpFits(words: seq<word>, n: nat)
    requires |words| == 33 && n <= 33
    ensures forall k :: 0 <= k < n ==> Starts()[k] + |Shows(words)[k]| <= MapEntries
    ensures InOrder(Starts(), Shows(words), n)
  {
    forall k | 0 <= k < n
      ensures Starts()[k] + |Shows(words)[k]| <= MapEntries
    {
      DumpCursorAdvances(k);
    }
    forall j, k | 0 <= j < k < n
      ensures Starts()[j] + |Shows(words)[j]| <= Starts()[k]
    {
      DumpCursorMonotone(j, k);
    }
  }

  /** Background map 0 as the dump of the first `n` words leaves it: each
    * register's label and digits written where it belongs. */
  function DumpImage(words: seq<word>, n: nat): (cells: seq<u16>)
    requires n <= 33 && |words| == 33
    ensures |cells| == MapEntries
  {
    DumpFits(words, n);
    Overlay(Cleared().cells, Starts(), Shows(words), n)
  }

  /** Printing the dump from a cleared map gives that image, with the
    * cursor where the next register belongs. */
  lemma {:induction false} DumpLayout(words: seq<word>, n: nat)
    requires n <= 33 && |words| == 33
    ensures Print(Cleared(), DumpText(words, n)) == Screen(DumpImage(words, n), DumpCursor(n))
  {
    if n > 0 {
      var k := n - 1;
      DumpLayout(words, k);
      PrintAppend(Cleared(), DumpText(words, k), RegisterText(k, words[k]));
      RegisterStep(Print(Cleared(), DumpText(words, k)), k, words[k]);
      DumpFits(words, n);
      DumpFits(words, k);
      assert DumpImage(words, n) == Splice(DumpImage(words, k), Starts()[k], Shows(words)[k]);
    }
  }

  /** In that image every register printed so far shows its value's
    * digits at `ValuePos`: later registers never overwrite earlier ones. */
  lemma DumpImageShows(words: seq<word>, n: nat, j: nat, i: nat)
    requires n <= 33 && |words| == 33 && j < n && i < 8
    ensures DumpImage(words, n)[ValuePos(j) + i] == CharEntry(U32Digits(words[j])[i])
  {
    DumpFits(words, n);
    OverlayShows(Cleared().cells, Starts(), Shows(words), n, j, LabelLength(j) + i);
    ShownDigit(j, words[j], i);
  }

  /** The 33 little-endian words at `CharSeg3`: `*results++`, in order. */
  function ResultWords(charSeg3: seq<byte>): (w: seq<word>)
    requires |charSeg3| >= 4 * 33
    ensures |w| == 33 && forall k :: 0 <= k < 33 ==> w[k] == FromLe32(charSeg3[4 * k..4 * k + 4])
  {
    seq(33, k requires 0 <= k < 33 => FromLe32(charSeg3[4 * k..4 * k + 4]))
  }

  /** The ROM's print state: background map 0 and the two cursor globals. */
  class TestConsole {
    /** The 4096 `u16` entries of background map 0. */
    const bgMap: array<u16>
    var mapPos: int
    var column: int

    ghost predicate Valid()
      reads this
    {
      bgMap.Length == MapEntries && CursorOk(Cursor(mapPos, column))
    }

    ghost function State(): Screen
      reads this, bgMap
    {
      Screen(bgMap[..], Cursor(mapPos, column))
    }

    /** The console over `map0` with the cursor where `init_print` puts it. */
    constructor (map0: array<u16>)
      requires map0.Length == MapEntries
      ensures bgMap == map0 && Valid() && State() == Screen(map0[..], Origin)
    {
      bgMap := map0;
      mapPos, column := 0, 0;
    }

    /** `init_print`: the cursor to `BGMap(0)`, column 0. */
    method InitPrint()
      requires bgMap.Length == MapEntries
      modifies this`mapPos, this`column
      ensures Valid() && Cursor(mapPos, column) == Origin
    {
      mapPos := 0;
      column := 0;
    }

    /** The body of `print_str`'s loop for one character `c`. */
    method Emit(c: byte)
      requires Valid()
      modifies this`mapPos, this`column, bgMap
      ensures Valid() && State() == PutChar(old(State()), c)
    {
      if c == Newline || column == PrintCols {
        mapPos := mapPos - column;
        mapPos := mapPos + MapWidth;
        column := 0;
      } else {
        if mapPos < MapEntries {
          bgMap[mapPos] := CharEntry(c);
        }
        mapPos := mapPos + 1;
        column := column + 1;
      }
    }

    /** `print_str(str)`: prints the characters of the C string `str`. */
    method PrintStr(str: seq<byte>)
      requires Valid() && 0 in str
      modifies this`mapPos, this`column, bgMap
      ensures Valid() && State() == Print(old(State()), CString(str))
    {
      var i := 0;
      while str[i] != 0
        invariant 0 <= i <= NulIndex(str)
        invariant Valid()
        invariant State() == Print(old(State()), str[..i])
        decreases NulIndex(str) - i
      {
        Emit(str[i]);
        assert str[..i + 1][..i] == str[..i];
        i := i + 1;
      }
    }

    /** `print_str` of a string literal. */
    method PrintText(text: seq<byte>)
      requires Valid() && 0 !in text
      modifies this`mapPos, this`column, bgMap
      ensures Valid() && State() == Print(old(State()), text)
    {
      var str := text + [0];
      assert str[|text|] == 0;
      CStringOfTerminated(text);
      PrintStr(str);
    }

    /** `print_u32(value)`: prints the eight hexadecimal digits of `value`. */
    method PrintU32(value: word)
      requires Valid()
      modifies this`mapPos, this`column, bgMap
      ensures Valid() && State() == Print(old(State()), U32Digits(value))
    {
      var buf := FormatU32(value);
      assert 0 !in U32Digits(value) by {
        forall i | 0 <= i < 8
          ensures U32Digits(value)[i] != 0
        {
          assert IsHexDigit(U32Digits(value)[i]);
        }
      }
      CStringOfTerminated(U32Digits(value));
      PrintStr(buf[..]);
    }

    /** `clear`: walks a byte pointer over background map 0 and stores
      * two zero bytes per entry, 64 x 64 entries, then calls `init_print`.
      * The map is little-endian: the byte at the lower address is the
      * entry's low byte. */
    method Clear()
      requires Valid()
      modifies this`mapPos, this`column, bgMap
      ensures Valid() && State() == Cleared()
    {
      var mapPtr := 0;
      var y := 0;
      while y < 64
        invariant 0 <= y <= 64 && mapPtr == 2 * (y * MapWidth)
        invariant forall k :: 0 <= k < mapPtr / 2 ==> bgMap[k] == 0
      {
        var x := 0;
        while x < 64
          invariant 0 <= x <= 64 && mapPtr == 2 * (y * MapWidth + x)
          invariant forall k :: 0 <= k < mapPtr / 2 ==> bgMap[k] == 0
        {
          var e := mapPtr / 2;
          bgMap[e] := bgMap[e] - bgMap[e] % 0x100;
          mapPtr := mapPtr + 1;
          bgMap[e] := bgMap[e] % 0x100;
          mapPtr := mapPtr + 1;
          x := x + 1;
        }
        y := y + 1;
      }
      InitPrint();
      assert bgMap[..] == Cleared().cells;
    }

    /** The dump in `main`: for each of the 33 words at `CharSeg3`, its
      * label, its value and its line end. */
    method DumpResults(charSeg3: seq<byte>)
      requires Valid() && |charSeg3| >= 4 * 33
      modifies this`mapPos, this`column, bgMap
      ensures Valid() && State() == Print(old(State()), Dump(ResultWords(charSeg3)))
    {
      var results := 0;
      var k := 0;
      while k < 33
        invariant 0 <= k <= 33 && results == 4 * k
        invariant Valid()
        invariant State() == Print(old(State()), DumpText(ResultWords(charSeg3), k))
      {
        var value := FromLe32(charSeg3[results..results + 4]);
        results := results + 4;
        assert value == ResultWords(charSeg3)[k];
        DumpRegister(k, value);
        PrintAppend(old(State()), DumpText(ResultWords(charSeg3), k), RegisterText(k, value));
        k := k + 1;
      }
    }

    /** One register of the dump: its label, `print_u32` of its value, and
      * its line end. */
    method DumpRegister(k: nat, value: word)
      requires Valid() && k < 33
      modifies this`mapPos, this`column, bgMap
      ensures Valid() && State() == Print(old(State()), RegisterText(k, value))
    {
      LabelIsText(k);
      PrintText(Label(k));
      PrintU32(value);
      ghost var valued := State();
      if LineEnd(k) != [] {
        PrintText(LineEnd(k));
      }
      assert State() == Print(valued, LineEnd(k));
      RegisterTextPrint(old(State()), k, value);
    }
  }

  /** Printing register `k`'s label, digits and line end one after the
    * other is printing its text. */
  lemma RegisterTextPrint(s: Screen, k: nat, v: word)
    requires ScreenOk(s) && k < 33
    ensures Print(Print(Print(s, Label(k)), U32Digits(v)), LineEnd(k)) == Print(s, RegisterText(k, v))
  {
    PrintAppend(s, Label(k), U32Digits(v));
    PrintAppend(s, Label(k) + U32Digits(v), LineEnd(k));
  }

  /** The test ROM's `main`, without the display set-up: fill the column
    * tables, set up printing, clear the map, dump the results and print
    * `test complete`. */
  method TestRomMain(map0: array<u16>, columnTable: array<u16>, charSeg3: seq<byte>)
    requires map0.Length == MapEntries && columnTable.Length == ColumnTableEntries && map0 != columnTable
    requires |charSeg3| >= 4 * 33
    modifies map0, columnTable
    ensures columnTable[..] == ColumnTableFilled(ColTable)
    ensures map0[..] == Print(Cleared(), Dump(ResultWords(charSeg3)) + Done).cells
  {
    VbSetColTable(columnTable, ColTable);
    var console := new TestConsole(map0);
    console.InitPrint();
    console.Clear();
    console.DumpResults(charSeg3);
    DoneIsText();
    console.PrintText(Done);
    PrintAppend(Cleared(), Dump(ResultWords(charSeg3)), Done);
  }

  /** The closing message. */
  const Done: seq<byte> := Ascii("test complete")

  lemma DoneIsText()
    ensures |Done| == 13 && 0 !in Done && Newline !in Done
  {
    assert forall k :: 0 <= k < 13 ==> Done[k] != 0 && Done[k] != Newline;
  }

  /** After the dump, `test complete` goes at the start of line 13. */
  lemma DoneLine(words: seq<word>)
    requires |words| == 33
    ensures Print(Cleared(), Dump(words) + Done)
      == Screen(Splice(DumpImage(words, |words|), 13 * MapWidth, Entries(Done)), Cursor(13 * MapWidth + 13, 13))
  {
    DumpLayout(words, |words|);
    PrintAppend(Cleared(), Dump(words), Done);
    DoneIsText();
    PrintRun(Print(Cleared(), Dump(words)), Done);
    SpliceIsConcat(DumpImage(words, |words|), 13 * MapWidth, Entries(Done));
  }

  /** `test complete` leaves every digit of every register in place. */
  lemma FinalCell(words: seq<word>, k: nat, i: nat)
    requires |words| == 33 && k < 33 && i < 8
    ensures Print(Cleared(), Dump(words) + Done).cells[ValuePos(k) + i] == CharEntry(U32Digits(words[k])[i])
  {
    DoneLine(words);
    DoneIsText();
    DumpCursorMonotone(k, |words|);
    DumpImageShows(words, |words|, k, i);
    SpliceBefore(DumpImage(words, |words|), 13 * MapWidth, Entries(Done), ValuePos(k) + i);
  }

  /** So every register's digits survive whole. */
  lemma FinalDigits(words: seq<word>, k: nat)
    requires |words| == 33 && k < 33
    ensures Print(Cleared(), Dump(words) + Done).cells[ValuePos(k)..ValuePos(k) + 8]
      == Entries(U32Digits(words[k]))
  {
    DumpCursorMonotone(k, |words|);
    forall i | 0 <= i < 8
      ensures Print(Cleared(), Dump(words) + Done).cells[ValuePos(k) + i] == Entries(U32Digits(words[k]))[i]
    {
      FinalCell(words, k, i);
    }
  }

  /** And shows itself at the start of line 13. */
  lemma FinalLine(words: seq<word>)
    requires |words| == 33
    ensures Print(Cleared(), Dump(words) + Done).cells[13 * MapWidth..13 * MapWidth + 13] == Entries(Done)
  {
    DoneLine(words);
    DoneIsText();
    var cells := Print(Cleared(), Dump(words) + Done).cells;
    forall i | 0 <= i < 13
      ensures cells[13 * MapWidth + i] == Entries(Done)[i]
    {
      SpliceAt(DumpImage(words, |words|), 13 * MapWidth, Entries(Done), i);
    }
  }

  /** What the test ROM leaves on screen: register `k`'s eight digits at
    * `ValuePos(k)`, in the order the words lie at `CharSeg3`, and
    * `test complete` at the start of line 13. */
  lemma TestRomScreen(charSeg3: seq<byte>, k: nat)
    requires |charSeg3| >= 4 * 33 && k < 33
    ensures var t := Print(Cleared(), Dump(ResultWords(charSeg3)) + Done);
      && t.cells[ValuePos(k)..ValuePos(k) + 8] == Entries(U32Digits(FromLe32(charSeg3[4 * k..4 * k + 4])))
      && t.cells[13 * MapWidth..13 * MapWidth + 13] == Entries(Done)
      && t.cursor == Cursor(13 * MapWidth + 13, 13)
  {
    var words := ResultWords(charSeg3);
    FinalDigits(words, k);
    FinalLine(words);
    DoneLine(words);
  }
}
