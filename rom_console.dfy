/** The text console of the serial-test and flat ROMs (`serialtest/testrom.c`
  * and `flatrom/testrom.c`, which carry the same print routines): a cursor
  * over background map 0 that writes one `u16` entry per character, breaks
  * lines at a newline or after 48 characters, and wraps back to the top
  * after 28 rows. */
module RomConsole {
  import opened Bytes
  import opened VbHardware
  import opened MapText
  import opened Hex

  /** `PRINT_ROWS`: printed lines before the cursor wraps to the top. */
  const PrintRows: int := 28

  /** The cursor globals: `printMapPos`, counted in `u16` entries from
    * `BGMap(0)`, `printColumn` and `printRow`. */
  datatype Cursor = Cursor(pos: int, column: int, row: int)

  /** Where `printInit` puts the cursor. */
  const Origin: Cursor := Cursor(0, 0, 0)

  /** The invariant the print routines keep: the cursor is on one of the 28
    * rows, at most 48 characters in, and the map position is that row and
    * column. */
  predicate CursorOk(c: Cursor)
  {
    && 0 <= c.row < PrintRows
    && 0 <= c.column <= PrintCols
    && c.pos == c.row * MapWidth + c.column
  }

  /** Background map 0 and the cursor. */
  datatype Screen = Screen(cells: seq<u16>, cursor: Cursor)

  predicate ScreenOk(s: Screen)
  {
    |s.cells| == MapEntries && CursorOk(s.cursor)
  }

  /** A line break: back to the start of the line, then one row down, or
    * to the origin once the row count reaches 28. */
  function LineBreak(c: Cursor): (d: Cursor)
    requires CursorOk(c)
    ensures CursorOk(d)
    ensures d == if c.row + 1 < PrintRows then Cursor((c.row + 1) * MapWidth, 0, c.row + 1) else Origin
  {
    var row := c.row + 1;
    if row >= PrintRows then Origin else Cursor(c.pos - c.column + MapWidth, 0, row)
  }

  /** One character of `printStr`: a newline, or any character once the
    * line holds 48, breaks the line; any other character is stored at the
    * cursor, which moves one entry on. */
  function PutChar(s: Screen, c: byte): (t: Screen)
    requires ScreenOk(s)
    ensures ScreenOk(t)
  {
    if c == Newline || s.cursor.column == PrintCols then
      Screen(s.cells, LineBreak(s.cursor))
    else
      Screen(s.cells[s.cursor.pos := CharEntry(c)], Cursor(s.cursor.pos + 1, s.cursor.column + 1, s.cursor.row))
  }

  /** Printing a run of characters, one after the other. */
  function Print(s: Screen, text: seq<byte>): (t: Screen)
    requires ScreenOk(s)
    ensures ScreenOk(t)
    decreases |text|
  {
    if text == [] then s else PutChar(Print(s, text[..|text| - 1]), text[|text| - 1])
  }

  /** Printing one more character is one more `PutChar`. */
  lemma PrintSnoc(s: Screen, text: seq<byte>, c: byte)
    requires ScreenOk(s)
    ensures Print(s, text + [c]) == PutChar(Print(s, text), c)
  {
    assert (text + [c])[..|text|] == text;
  }

  /** Printing `a` and then `b` is printing `a + b`. */
  lemma {:induction false} PrintAppend(s: Screen, a: seq<byte>, b: seq<byte>)
    requires ScreenOk(s)
    ensures Print(s, a + b) == Print(Print(s, a), b)
    decreases |b|
  {
    if b == [] {
      assert a + b == a;
    } else {
      var b' := b[..|b| - 1];
      assert (a + b)[..|a + b| - 1] == a + b';
      PrintAppend(s, a, b');
    }
  }

  /** A character other than a newline, with room left on the line, is
    * stored at the cursor. */
  lemma PutCharStores(s: Screen, c: byte)
    requires ScreenOk(s) && c != Newline && s.cursor.column < PrintCols
    ensures PutChar(s, c) == Screen(s.cells[s.cursor.pos := CharEntry(c)], Cursor(s.cursor.pos + 1, s.cursor.column + 1, s.cursor.row))
  {
  }

  /** Characters that fit the rest of the line and hold no newline land in
    * consecutive entries from the cursor, and nothing else changes. */
  lemma {:induction false} PrintRun(s: Screen, text: seq<byte>)
    requires ScreenOk(s)
    requires Newline !in text && s.cursor.column + |text| <= PrintCols
    ensures var p := s.cursor.pos;
      Print(s, text) == Screen(s.cells[..p] + Entries(text) + s.cells[p + |text|..],
                               Cursor(p + |text|, s.cursor.column + |text|, s.cursor.row))
    decreases |text|
  {
    if text != [] {
      var init := text[..|text| - 1];
      assert Newline !in init by {
        assert forall k :: 0 <= k < |init| ==> init[k] == text[k];
      }
      PrintRun(s, init);
      var c := text[|text| - 1];
      assert init + [c] == text;
      PrintSnoc(s, init, c);
      PutCharStores(Print(s, init), c);
      RunExtends(s.cells, s.cursor.pos, init, c);
    }
  }

  /** Everything `printStr` writes lies on the 28 printed rows and in their
    * first 48 columns. */
  lemma {:induction false} PrintStaysOnScreen(s: Screen, text: seq<byte>, k: int)
    requires ScreenOk(s) && 0 <= k < MapEntries
    requires Print(s, text).cells[k] != s.cells[k]
    ensures k < PrintRows * MapWidth && k % MapWidth < PrintCols
    decreases |text|
  {
    var init := text[..|text| - 1];
    var mid := Print(s, init);
    if mid.cells[k] != s.cells[k] {
      PrintStaysOnScreen(s, init, k);
    } else {
      var c := mid.cursor;
      assert k == c.pos && c.column < PrintCols;
      assert k == c.row * MapWidth + c.column;
    }
  }

  /** A character arriving when the line is full only breaks the line: it
    * is never stored, and the next character starts the following row. */
  lemma FullLineDropsChar(s: Screen, c: byte, d: byte)
    requires ScreenOk(s) && s.cursor.column == PrintCols
    requires d != Newline
    ensures Print(s, [c]) == Screen(s.cells, LineBreak(s.cursor))
    ensures var n := LineBreak(s.cursor);
      Print(s, [c, d]) == Screen(s.cells[n.pos := CharEntry(d)], Cursor(n.pos + 1, 1, n.row))
  {
    assert [c, d][..1] == [c];
    assert [c][..0] == [];
  }

  /** Background map 0 as `printClear` leaves it, with the cursor at the
    * origin. */
  function Cleared(): (s: Screen)
    ensures ScreenOk(s) && s.cursor == Origin
    ensures forall k :: 0 <= k < MapEntries ==> s.cells[k] == 0
  {
    Screen(seq(MapEntries, k => 0), Origin)
  }

  /** The ROM's print state: background map 0, from `BGMap(0)` (0x20000),
    * and the three cursor globals. */
  class Console {
    /** The 4096 `u16` entries of background map 0. */
    const bgMap: array<u16>
    var mapPos: int
    var column: int
    var row: int

    ghost predicate Valid()
      reads this
    {
      bgMap.Length == MapEntries && CursorOk(Cursor(mapPos, column, row))
    }

    ghost function State(): Screen
      reads this, bgMap
    {
      Screen(bgMap[..], Cursor(mapPos, column, row))
    }

    /** The console over `map0` with the cursor where `printInit` puts it. */
    constructor (map0: array<u16>)
      requires map0.Length == MapEntries
      ensures bgMap == map0 && Valid() && State() == Screen(map0[..], Origin)
    {
      bgMap := map0;
      mapPos, column, row := 0, 0, 0;
    }

    /** `printInit`: the cursor to `BGMap(0)`, column and row 0. */
    method PrintInit()
      requires bgMap.Length == MapEntries
      modifies this`mapPos, this`column, this`row
      ensures Valid() && Cursor(mapPos, column, row) == Origin
    {
      mapPos := 0;
      column := 0;
      row := 0;
    }

    /** The body of `printStr`'s loop for one character `c`. */
    method Emit(c: byte)
      requires Valid()
      modifies this`mapPos, this`column, this`row, bgMap
      ensures Valid() && State() == PutChar(old(State()), c)
    {
      if c == Newline || column == PrintCols {
        mapPos := mapPos - column;
        column := 0;
        row := row + 1;
        if row >= PrintRows {
          PrintInit();
        } else {
          mapPos := mapPos + MapWidth;
        }
      } else {
        bgMap[mapPos] := CharEntry(c);
        mapPos := mapPos + 1;
        column := column + 1;
      }
    }

    /** `printStr(str)`: prints the characters of the C string `str`. */
    method PrintStr(str: seq<byte>)
      requires Valid() && 0 in str
      modifies this`mapPos, this`column, this`row, bgMap
      ensures Valid() && State() == Print(old(State()), CString(str))
    {
      var i := 0;
      while str[i] != 0
        invariant 0 <= i <= NulIndex(str)
        invariant Valid()
        invariant State() == Print(old(State()), str[..i])
        decreases NulIndex(str) - i
      {
        Emit(str[i]);
        assert str[..i + 1][..i] == str[..i];
        i := i + 1;
      }
    }

    /** `printU32(value)`: prints the eight hexadecimal digits of `value`. */
    method PrintU32(value: word)
      requires Valid()
      modifies this`mapPos, this`column, this`row, bgMap
      ensures Valid() && State() == Print(old(State()), U32Digits(value))
    {
      var buf := FormatU32(value);
      assert 0 !in U32Digits(value) by {
        forall i | 0 <= i < 8
          ensures U32Digits(value)[i] != 0
        {
          assert IsHexDigit(U32Digits(value)[i]);
        }
      }
      CStringOfTerminated(U32Digits(value));
      PrintStr(buf[..]);
    }

    /** `printClear`: zeroes all 64 x 64 entries of background map 0, row
      * by row, then calls `printInit`. */
    method PrintClear()
      requires Valid()
      modifies this`mapPos, this`column, this`row, bgMap
      ensures Valid() && State() == Cleared()
    {
      var mapPtr := 0;
      var y := 0;
      while y < 64
        invariant 0 <= y <= 64 && mapPtr == y * MapWidth
        invariant forall k :: 0 <= k < mapPtr ==> bgMap[k] == 0
      {
        var x := 0;
        while x < 64
          invariant 0 <= x <= 64 && mapPtr == y * MapWidth + x
          invariant forall k :: 0 <= k < mapPtr ==> bgMap[k] == 0
        {
          bgMap[mapPtr] := 0;
          mapPtr := mapPtr + 1;
          x := x + 1;
        }
        y := y + 1;
      }
      PrintInit();
      assert bgMap[..] == Cleared().cells;
    }
  }

  /** The greeting the flat ROM prints. */
  const Greeting: seq<byte> := Ascii("hello from C!!!!!11")

  /** The line it prints: the greeting and a newline. */
  const Hello: seq<byte> := Greeting + [Newline]

  lemma HelloIsOneLine()
    ensures |Greeting| == 19 && |Hello| == 20
    ensures 0 !in Hello && Newline !in Greeting
  {
    assert forall k :: 0 <= k < 19 ==> Greeting[k] != 0 && Greeting[k] != Newline;
  }

  /** The flat ROM's `main`: set up printing, clear the map, print the
    * greeting, and return 42. */
  method FlatRomMain(map0: array<u16>) returns (r: int)
    requires map0.Length == MapEntries
    modifies map0
    ensures r == 42 && map0[..] == Print(Cleared(), Hello).cells
  {
    HelloIsOneLine();
    CStringOfTerminated(Hello);
    var str := Hello + [0];
    assert str[20] == 0;
    var console := new Console(map0);
    console.PrintInit();
    console.PrintClear();
    console.PrintStr(str);
    return 42;
  }

  /** What the flat ROM leaves on screen: the greeting in the first 19
    * entries of row 0, every other entry blank, and the cursor at the
    * start of row 1. */
  lemma FlatRomScreen()
    ensures Print(Cleared(), Hello).cells == Entries(Greeting) + Cleared().cells[19..]
    ensures Print(Cleared(), Hello).cursor == Cursor(MapWidth, 0, 1)
  {
    HelloIsOneLine();
    PrintAppend(Cleared(), Greeting, [Newline]);
    PrintRun(Cleared(), Greeting);
    assert Cleared().cells[..0] == [];
  }
}
