/** The Virtual Boy memory map and display tables that the test ROMs share
  * (`testrom/stuff.h`): the address macros, the world attribute layout,
  * `WORLD_PARAM`, and the default column table that `vbSetColTable` fills. */
module VbHardware {
  import opened Bytes

  /** A 16-bit WAM entry as bits, for the shifts and masks of `WORLD_PARAM`;
    * `u16` below is the same width as a number, for the column table's
    * arithmetic on indices and widths. */
  type hword = bv16

  /** Character segment 3, where the test ROM reads the 33 words it dumps. */
  const CharSeg3: int := 0x0001_E000
  /** Base address of the background map memory. */
  const BGMMBase: int := 0x0002_0000
  /** Base address of the world attribute memory. */
  const WAMBase: int := 0x0003_D800
  /** `CLMN_TBL`: base address of the column tables. */
  const ColumnTableBase: int := 0x0003_DC00
  /** Base address of the object attribute memory. */
  const OAMBase: int := 0x0003_E000
  /** The end of the VIP's 256 KiB of video memory. */
  const VramEnd: int := 0x0004_0000

  /** Bytes per background map (64 x 64 two-byte entries). */
  const BGMapBytes: int := 0x2000
  /** Bytes per world (`sizeof(WORLD)`). */
  const WorldBytes: int := 0x20
  /** Bytes per object attribute entry. */
  const ObjectBytes: int := 8
  /** `u16` entries in the column tables: left and right, 256 each. */
  const ColumnTableEntries: int := 512

  /** `BGMap(b)`: the address of background map `b`; each of the 14 maps
    * lies inside background map memory, below the world attributes. */
  function BGMap(b: int): (a: int)
    ensures 0 <= b <= 13 ==> BGMMBase <= a && a + BGMapBytes <= WAMBase
  {
    BGMMBase + b * BGMapBytes
  }

  /** `World(w)`: the address of world `w`; each of the 32 worlds lies
    * inside world attribute memory, below the column tables. */
  function World(w: int): (a: int)
    ensures 0 <= w < 32 ==> WAMBase <= a && a + WorldBytes <= ColumnTableBase
  {
    WAMBase + w * WorldBytes
  }

  /** `Object(o)`: the address of object `o`; each of the 1024 objects
    * lies inside object attribute memory, below the end of video memory. */
  function Object(o: int): (a: int)
    ensures 0 <= o < 1024 ==> OAMBase <= a && a + ObjectBytes <= VramEnd
  {
    OAMBase + o * ObjectBytes
  }

  /** The 14 background maps (`0 <= b <= 13`) are consecutive 8 KiB blocks
    * that end below the world attributes, the 32 worlds fill the world
    * attribute memory up to the column tables, the two column tables end
    * where the object attributes begin, and the 1024 objects end with video
    * memory. */
  lemma MemoryMapInOrder(b: int, c: int)
    requires 0 <= b < c <= 13
    ensures BGMap(b) + BGMapBytes <= BGMap(c)
    ensures BGMap(0) == BGMMBase && BGMap(13) + BGMapBytes <= WAMBase
    ensures World(0) == WAMBase && World(32) == ColumnTableBase
    ensures ColumnTableBase + 2 * ColumnTableEntries == OAMBase
    ensures Object(0) == OAMBase && Object(1024) == VramEnd
  {
  }

  /** The fields of a `WORLD`, in declaration order. */
  datatype WorldField = Head | Gx | Gp | Gy | Mx | Mp | My | W | H | Param | Ovr

  /** The `u16` index of a field inside its `WORLD`. */
  function FieldIndex(f: WorldField): (k: nat)
    ensures k < 11
  {
    match f
    case Head => 0 case Gx => 1 case Gp => 2 case Gy => 3 case Mx => 4 case Mp => 5
    case My => 6 case W => 7 case H => 8 case Param => 9 case Ovr => 10
  }

  /** A `WORLD` is 11 fields and a 5-entry spacer: 16 `u16`s. */
  const WorldHwords: nat := 16

  /** The address that a `WORLD_*` macro writes with `WAM[(n << 4) + k]`:
    * for `k` below 16, an aligned `u16` inside world `n`. */
  function WamSlot(n: nat, k: nat): (a: int)
    ensures k < WorldHwords ==> World(n) <= a < World(n) + WorldBytes && a % 2 == 0
  {
    WAMBase + 2 * (n * WorldHwords + k)
  }

  /** The world macros and the `WA` array of structures agree: slot `k` of
    * world `n` is field `k` of `WA[n]`, inside world `n`'s 32 bytes, and
    * the slots of different fields or worlds never coincide. */
  lemma WorldMacrosMatchStruct(n: nat, f: WorldField, m: nat, g: WorldField)
    requires n < 32 && m < 32
    ensures WamSlot(n, FieldIndex(f)) == World(n) + 2 * FieldIndex(f)
    ensures World(n) <= WamSlot(n, FieldIndex(f)) < World(n) + WorldBytes
    ensures 2 * WorldHwords == WorldBytes
    ensures WamSlot(n, FieldIndex(f)) == WamSlot(m, FieldIndex(g)) <==> n == m && f == g
  {
  }

  /** `WORLD_PARAM(n, p)`'s value: the offset of `p` into background map
    * memory, in `u16` entries, rounded down to a multiple of 16 and cut to
    * the 16 bits of a WAM entry. */
  function WorldParam(p: word): (v: hword)
    ensures v & 0xF == 0
  {
    (((p - 0x2_0000) >> 1) & 0xFFF0) as hword
  }

  /** Doubling the parameter back gives the byte offset of `p` from
    * `BGMMBase`, 32-byte aligned; inside background map memory that
    * locates `p` rounded down to 32 bytes. */
  lemma WorldParamLocates(p: word)
    ensures (WorldParam(p) as word) << 1 == (p - 0x2_0000) & 0x1_FFE0
    ensures 0x2_0000 <= p < 0x4_0000 ==> 0x2_0000 + ((WorldParam(p) as word) << 1) == p & 0xFFFF_FFE0
  {
  }

  /** A `u8` entry of `colTable`, as a number. */
  type Width = x: int | 0 <= x < 256

  /** The initializer of `colTable`, one element per source line of 8. */
  const ColTableRows: seq<seq<Width>> := [
    [0xFE, 0xFE, 0xFE, 0xFE, 0xFE, 0xFE, 0xFE, 0xFE],
    [0xFE, 0xFE, 0xFE, 0xFE, 0xFE, 0xFE, 0xFE, 0xFE],
    [0xFE, 0xFE, 0xFE, 0xFE, 0xFE, 0xFE, 0xFE, 0xFE],
    [0xFE, 0xFE, 0xFE, 0xFE, 0xFE, 0xFE, 0xFE, 0xFE],
    [0xFE, 0xFE, 0xFE, 0xFE, 0xFE, 0xFE, 0xFE, 0xFE],
    [0xFE, 0xFE, 0xFE, 0xFE, 0xFE, 0xFE, 0xFE, 0xFE],
    [0xFE, 0xFE, 0xFE, 0xFE, 0xFE, 0xFE, 0xFE, 0xFE],
    [0xFE, 0xFE, 0xFE, 0xFE, 0xFE, 0xFE, 0xE0, 0xBC],
    [0xA6, 0x96, 0x8A, 0x82, 0x7A, 0x74, 0x6E, 0x6A],
    [0x66, 0x62, 0x60, 0x5C, 0x5A, 0x58, 0x56, 0x54],
    [0x52, 0x50, 0x50, 0x4E, 0x4C, 0x4C, 0x4A, 0x4A],
    [0x48, 0x48, 0x46, 0x46, 0x46, 0x44, 0x44, 0x44],
    [0x42, 0x42, 0x42, 0x40, 0x40, 0x40, 0x40, 0x40],
    [0x3E, 0x3E, 0x3E, 0x3E, 0x3E, 0x3E, 0x3E, 0x3C],
    [0x3C, 0x3C, 0x3C, 0x3C, 0x3C, 0x3C, 0x3C, 0x3C],
    [0x3C, 0x3C, 0x3C, 0x3C, 0x3C, 0x3C, 0x3C, 0x3C]
  ]

  /** `colTable`: the 128 column widths of one half of the default table. */
  const ColTable: seq<Width> := seq(128, i requires 0 <= i < 128 => ColTableRows[i / 8][i % 8])

  /** Within one line of the initializer the widths never grow. */
  lemma ColTableRowSteps(r: nat, c: nat)
    requires r < 16 && c < 7
    ensures ColTableRows[r][c + 1] <= ColTableRows[r][c]
  {
  }

  /** Nor from the end of one line to the start of the next. */
  lemma ColTableRowBoundary(r: nat)
    requires r < 15
    ensures ColTableRows[r + 1][0] <= ColTableRows[r][7]
  {
  }

  /** Each entry of `colTable` is at most the one before it. */
  lemma ColTableStep(i: nat)
    requires i < 127
    ensures ColTable[i + 1] <= ColTable[i]
  {
    if i % 8 < 7 {
      assert (i + 1) / 8 == i / 8 && (i + 1) % 8 == i % 8 + 1;
      ColTableRowSteps(i / 8, i % 8);
    } else {
      assert (i + 1) / 8 == i / 8 + 1 && (i + 1) % 8 == 0;
      ColTableRowBoundary(i / 8);
    }
  }

  /** The column widths never grow from the edge of the screen inwards, from
    * 0xFE at the edge to 0x3C in the middle. */
  lemma {:induction false} ColTableNonIncreasing(i: nat, j: nat)
    requires i <= j < 128
    ensures ColTable[j] <= ColTable[i]
    ensures ColTable[0] == 0xFE && ColTable[127] == 0x3C
    decreases j - i
  {
    assert ColTable[0] == ColTableRows[0][0] && ColTable[127] == ColTableRows[15][7];
    if i < j {
      ColTableStep(i);
      ColTableNonIncreasing(i + 1, j);
    }
  }

  /** A `u16` entry of the column tables, as a number (`hword` is the
    * bit-vector view of the same width). */
  type u16 = x: int | 0 <= x < 0x1_0000

  /** Entry `x` of the column tables that `vbSetColTable` leaves, for a
    * source table `colTable`: each 256-entry half is `colTable` followed by
    * `colTable` reversed. */
  function ColumnEntry(colTable: seq<Width>, x: nat): u16
    requires |colTable| == 128 && x < ColumnTableEntries
  {
    var y := if x < 256 then x else x - 256;
    if y < 128 then colTable[y] else colTable[255 - y]
  }

  /** All 512 entries. */
  function ColumnTableFilled(colTable: seq<Width>): (t: seq<u16>)
    requires |colTable| == 128
    ensures |t| == ColumnTableEntries
  {
    seq(ColumnTableEntries, x requires 0 <= x < ColumnTableEntries => ColumnEntry(colTable, x))
  }

  /** Each half reads the same from both ends, the right half repeats the
    * left one, and the first 128 entries are `colTable` itself. */
  lemma ColumnTableShape(colTable: seq<Width>)
    requires |colTable| == 128
    ensures forall k :: 0 <= k < 128 ==> ColumnTableFilled(colTable)[255 - k] == ColumnTableFilled(colTable)[k]
    ensures forall x :: 0 <= x < 256 ==> ColumnTableFilled(colTable)[x + 256] == ColumnTableFilled(colTable)[x]
    ensures forall k :: 0 <= k < 128 ==> ColumnTableFilled(colTable)[k] == colTable[k]
  {
  }

  /** A 128-entry table whose widths never grow from its first entry to
    * its last. */
  ghost predicate Narrowing(colTable: seq<Width>)
  {
    && |colTable| == 128
    && forall i, j :: 0 <= i <= j < 128 ==> colTable[j] <= colTable[i]
  }

  /** The default `colTable` is one. */
  lemma ColTableNarrowing()
    ensures Narrowing(ColTable)
  {
    forall i, j | 0 <= i <= j < 128
      ensures ColTable[j] <= ColTable[i]
    {
      ColTableNonIncreasing(i, j);
    }
  }

  /** From a narrowing table, each half of the filled column tables shrinks
    * towards its middle and grows back after it. */
  lemma FilledNarrowsToMiddle(colTable: seq<Width>, x: nat, y: nat)
    requires Narrowing(colTable)
    requires x <= y < 256
    ensures y < 128 ==> ColumnTableFilled(colTable)[y] <= ColumnTableFilled(colTable)[x]
    ensures 128 <= x ==> ColumnTableFilled(colTable)[x] <= ColumnTableFilled(colTable)[y]
  {
    if 128 <= x {
      assert colTable[255 - x] <= colTable[255 - y];
    }
  }

  /** Round `i` of `vbSetColTable` writes `colTable[i]` to entries `i` and
    * `i + 256` and `colTable[127 - i]` to entries `i + 128` and `i + 384`:
    * exactly the filled table's entries there. */
  lemma ColumnTableRound(colTable: seq<Width>, i: nat)
    requires |colTable| == 128 && i < 128
    ensures ColumnEntry(colTable, i) == colTable[i]
    ensures ColumnEntry(colTable, i + 256) == colTable[i]
    ensures ColumnEntry(colTable, i + 128) == colTable[127 - i]
    ensures ColumnEntry(colTable, i + 384) == colTable[127 - i]
  {
  }

  /** One round of `vbSetColTable`'s loop: the four writes of round `k`,
    * which leave every other entry as it was. */
  method SetColumnRound(columnTable: array<u16>, colTable: seq<Width>, k: nat)
    requires columnTable.Length == ColumnTableEntries && |colTable| == 128 && k < 128
    modifies columnTable
    ensures forall j :: 0 <= j < ColumnTableEntries && j != k && j != k + 128 && j != k + 256 && j != k + 384 ==> columnTable[j] == old(columnTable[j])
    ensures columnTable[k] == ColumnEntry(colTable, k) && columnTable[k + 128] == ColumnEntry(colTable, k + 128)
    ensures columnTable[k + 256] == ColumnEntry(colTable, k + 256) && columnTable[k + 384] == ColumnEntry(colTable, k + 384)
  {
    ColumnTableRound(colTable, k);
    columnTable[k] := colTable[k];
    columnTable[k + 256] := colTable[k];
    columnTable[k + 128] := colTable[127 - k];
    columnTable[k + 384] := colTable[127 - k];
  }

  /** `vbSetColTable`: runs a counter `i` over 0..127 and, in each
    * round, writes the four entries of `ColumnTableRound`; after the last
    * round all 512 entries hold the filled table. */
  method VbSetColTable(columnTable: array<u16>, colTable: seq<Width>)
    requires columnTable.Length == ColumnTableEntries && |colTable| == 128
    modifies columnTable
    ensures columnTable[..] == ColumnTableFilled(colTable)
  {
    // The source's counter is a `u8`; it stops at 128, so it never wraps.
    var i := 0;
    while i <= 127
      invariant i <= 128
      invariant forall j :: 0 <= j < i ==> columnTable[j] == ColumnEntry(colTable, j)
      invariant forall j :: 128 <= j < 128 + i ==> columnTable[j] == ColumnEntry(colTable, j)
      invariant forall j :: 256 <= j < 256 + i ==> columnTable[j] == ColumnEntry(colTable, j)
      invariant forall j :: 384 <= j < 384 + i ==> columnTable[j] == ColumnEntry(colTable, j)
      decreases 128 - i
    {
      SetColumnRound(columnTable, colTable, i);
      i := i + 1;
    }
    assert columnTable[..] == ColumnTableFilled(colTable);
  }
}
