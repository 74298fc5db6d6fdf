/** The text that terminal.c writes, as a document that grows without bound. */
module ScreenSpec {
  import opened Prelude

  type Cell = bv16

  const WIDTH := 80
  const HEIGHT := 25
  const SCREEN := 2000
  const TAB_SIZE := 4

  const BACKSPACE: byte := 8
  const TAB: byte := 9
  const NEWLINE: byte := 10
  const RETURN: byte := 13
  const SPACE: byte := 32

  /** `vga_entry`. */
  function Entry(c: byte, color: byte): Cell {
    (c as bv16) | ((color as bv16) << 8)
  }

  /** The low half of a cell is the character, the high half the colour. */
  lemma EntryHalves(c: byte, color: byte)
    ensures Entry(c, color) & 0xff == c as bv16 && Entry(c, color) >> 8 == color as bv16
    ensures Entry(c, color) as int == c as int + 256 * (color as int)
  {
  }

  function Blanks(n: nat, color: byte): (cells: seq<Cell>)
    ensures |cells| == n && forall i | 0 <= i < n :: cells[i] == Entry(SPACE, color)
  {
    seq(n, _ => Entry(SPACE, color))
  }

  /** All rows ever written, 80 cells each, and the cursor. */
  datatype Document = Document(cells: seq<Cell>, height: nat, row: nat, column: nat, color: byte)
  {
    /** The cursor is in the last 25 rows. */
    ghost predicate Inv() {
      && |cells| == WIDTH * height && height >= HEIGHT
      && height - HEIGHT <= row < height && column < WIDTH
    }

    function Place(): (k: nat)
      requires Inv()
      ensures k < |cells|
    {
      WIDTH * row + column
    }

    /** The last 25 rows. */
    function Visible(): (screen: seq<Cell>)
      requires Inv()
      ensures |screen| == SCREEN
    {
      cells[|cells| - SCREEN..]
    }

    function NewLine(): (d: Document)
      requires Inv()
      ensures d.Inv() && d.color == color
    {
      if row + 1 == height then Document(cells + Blanks(WIDTH, color), height + 1, row + 1, 0, color)
      else this.(row := row + 1, column := 0)
    }

    /** Back by one cell, which becomes blank, but not above the visible rows. */
    function Back(): (d: Document)
      requires Inv()
      ensures d.Inv() && d.color == color
    {
      if column > 0 then this.(column := column - 1, cells := cells[Place() - 1 := Entry(SPACE, color)])
      else if row > height - HEIGHT then
        this.(row := row - 1, column := WIDTH - 1, cells := cells[Place() - 1 := Entry(SPACE, color)])
      else this
    }

    function Plain(c: byte): (d: Document)
      requires Inv()
      ensures d.Inv() && d.color == color
    {
      var d := this.(cells := cells[Place() := Entry(c, color)]);
      if column + 1 == WIDTH then d.NewLine() else d.(column := column + 1)
    }

    /** `terminal_putchar`. */
    function Put(c: byte): (d: Document)
      requires Inv()
      ensures d.Inv() && d.color == color
    {
      if c == NEWLINE then NewLine()
      else if c == RETURN then this.(column := 0)
      else if c == BACKSPACE then Back()
      else if c == TAB then Plain(SPACE).Plain(SPACE).Plain(SPACE).Plain(SPACE)
      else Plain(c)
    }

    /** `terminal_write`. */
    function Write(text: seq<byte>): (d: Document)
      requires Inv()
      ensures d.Inv() && d.color == color
    {
      if text == [] then this else Write(text[..|text| - 1]).Put(text[|text| - 1])
    }
  }

  /** The document of a screen that has just been initialised. */
  function Fresh(color: byte): (d: Document)
    ensures d.Inv() && d.color == color
  {
    Document(Blanks(SCREEN, color), HEIGHT, 0, 0, color)
  }

  // The layout of a text

  /** The lines of a text, with every tab as four spaces. */
  function Lines(text: seq<byte>): (lines: seq<seq<byte>>)
    ensures lines != []
  {
    if text == [] then [[]] else NextLines(Lines(text[..|text| - 1]), text[|text| - 1])
  }

  function NextLines(lines: seq<seq<byte>>, c: byte): (r: seq<seq<byte>>)
    requires lines != []
    ensures r != []
  {
    if c == 10 then lines + [[]] else Extended(lines, if c == 9 then [32, 32, 32, 32] else [c])
  }

  function Extended(lines: seq<seq<byte>>, more: seq<byte>): (r: seq<seq<byte>>)
    requires lines != []
    ensures |r| == |lines|
  {
    lines[..|lines| - 1] + [lines[|lines| - 1] + more]
  }

  /** A line wrapped at column 80: filled up with blanks to whole rows, one more than it
      fills itself. */
  function Wrapped(line: seq<byte>, color: byte): (cells: seq<Cell>)
    ensures |cells| == WIDTH * (|line| / WIDTH + 1)
  {
    seq(|line|, i requires 0 <= i < |line| => Entry(line[i], color)) + Blanks(WIDTH - |line| % WIDTH, color)
  }

  function Layout(lines: seq<seq<byte>>, color: byte): (cells: seq<Cell>)
    ensures |cells| % WIDTH == 0
  {
    if lines == [] then [] else Layout(lines[..|lines| - 1], color) + Wrapped(lines[|lines| - 1], color)
  }

  /** Filled up with blank rows to a whole screen. */
  function Filled(cells: seq<Cell>, color: byte): seq<Cell> {
    if |cells| < SCREEN then cells + Blanks(SCREEN - |cells|, color) else cells
  }

  /** Whether a document shows these lines, with the cursor behind the last. */
  ghost predicate ShowsLines(d: Document, lines: seq<seq<byte>>)
    requires d.Inv() && lines != []
  {
    var above, last := Layout(lines[..|lines| - 1], d.color), lines[|lines| - 1];
    && d.cells == Filled(Layout(lines, d.color), d.color)
    && d.row == |above| / WIDTH + |last| / WIDTH && d.column == |last| % WIDTH
  }

  lemma WrappedExtended(line: seq<byte>, c: byte, color: byte)
    ensures var cells := Wrapped(line, color)[|line| := Entry(c, color)];
      Wrapped(line + [c], color) == if |line| % WIDTH == WIDTH - 1 then cells + Blanks(WIDTH, color) else cells
  {
  }

  lemma LayoutExtended(lines: seq<seq<byte>>, c: byte, color: byte)
    requires lines != []
    ensures var above, last := Layout(lines[..|lines| - 1], color), lines[|lines| - 1];
      && Layout(lines, color) == above + Wrapped(last, color)
      && Layout(Extended(lines, [c]), color) == above + Wrapped(last + [c], color)
  {
    assert Extended(lines, [c])[..|lines| - 1] == lines[..|lines| - 1];
  }

  lemma LayoutNewLine(lines: seq<seq<byte>>, color: byte)
    requires lines != []
    ensures Layout(lines + [[]], color) == Layout(lines, color) + Blanks(WIDTH, color)
  {
    assert (lines + [[]])[..|lines|] == lines;
    assert Wrapped([], color) == Blanks(WIDTH, color);
  }

  /** Filling up and adding a row of blanks, as a new line does at the bottom. */
  lemma FilledGrows(cells: seq<Cell>, color: byte)
    requires |cells| % WIDTH == 0
    ensures Filled(cells + Blanks(WIDTH, color), color) ==
      if |cells| >= SCREEN then Filled(cells, color) + Blanks(WIDTH, color) else Filled(cells, color)
    ensures |Filled(cells, color)| == if |cells| >= SCREEN then |cells| else SCREEN
  {
  }

  lemma NewLineShows(d: Document, lines: seq<seq<byte>>)
    requires d.Inv() && lines != [] && ShowsLines(d, lines)
    ensures ShowsLines(d.NewLine(), lines + [[]])
  {
    var above, last := Layout(lines[..|lines| - 1], d.color), lines[|lines| - 1];
    var all := Layout(lines, d.color);
    LayoutNewLine(lines, d.color);
    FilledGrows(all, d.color);
    assert (lines + [[]])[..|lines|] == lines;
    hide Filled, Blanks;
    assert |all| == |above| + WIDTH * (|last| / WIDTH + 1);
  }

  lemma FilledUpdated(above: seq<Cell>, cells: seq<Cell>, k: nat, cell: Cell, color: byte)
    requires k < |cells|
    ensures |above| + k < |Filled(above + cells, color)|
    ensures Filled(above + cells[k := cell], color) == Filled(above + cells, color)[|above| + k := cell]
  {
  }

  /** What a character changes: its cell, and at the bottom right a row is added. */
  lemma PlainIs(d: Document, c: byte)
    requires d.Inv()
    ensures var e := d.Plain(c); var cells := d.cells[d.Place() := Entry(c, d.color)];
      var wraps := d.column + 1 == WIDTH;
      && e.cells == (if wraps && d.row + 1 == d.height then cells + Blanks(WIDTH, d.color) else cells)
      && e.row == (if wraps then d.row + 1 else d.row) && e.column == (if wraps then 0 else d.column + 1)
      && e.height == (if wraps && d.row + 1 == d.height then d.height + 1 else d.height)
  {
    hide Entry, Blanks;
  }

  /** The layout of an extended line, filled up. */
  lemma FilledExtended(above: seq<Cell>, last: seq<byte>, c: byte, color: byte)
    requires |above| % WIDTH == 0
    ensures var all := above + Wrapped(last, color); var place := |above| + |last|;
      && place < |Filled(all, color)| && |all| % WIDTH == 0
      && |Filled(all, color)| == (if |all| >= SCREEN then |all| else SCREEN)
      && var cells := Filled(all, color)[place := Entry(c, color)];
      Filled(above + Wrapped(last + [c], color), color) ==
        if |last| % WIDTH == WIDTH - 1 && |all| >= SCREEN then cells + Blanks(WIDTH, color) else cells
  {
    hide Filled, Wrapped, Blanks, Entry;
    var cells := Wrapped(last, color);
    var updated := cells[|last| := Entry(c, color)];
    WrappedExtended(last, c, color);
    FilledUpdated(above, cells, |last|, Entry(c, color), color);
    FilledGrows(above + cells, color);
    FilledGrows(above + updated, color);
    assert above + (updated + Blanks(WIDTH, color)) == above + updated + Blanks(WIDTH, color);
  }

  lemma PlainShows(d: Document, lines: seq<seq<byte>>, c: byte)
    requires d.Inv() && lines != [] && ShowsLines(d, lines)
    ensures ShowsLines(d.Plain(c), Extended(lines, [c]))
  {
    hide Filled, Wrapped, Blanks, Entry, Layout, Document.Plain;
    var above, last := Layout(lines[..|lines| - 1], d.color), lines[|lines| - 1];
    LayoutExtended(lines, c, d.color);
    FilledExtended(above, last, c, d.color);
    PlainIs(d, c);
    assert Extended(lines, [c])[..|lines| - 1] == lines[..|lines| - 1];
  }

  lemma ExtendedTwice(lines: seq<seq<byte>>, a: seq<byte>, b: seq<byte>)
    requires lines != []
    ensures Extended(Extended(lines, a), b) == Extended(lines, a + b)
  {
    var last := lines[|lines| - 1];
    assert last + a + b == last + (a + b);
  }

  lemma TabShows(d: Document, lines: seq<seq<byte>>)
    requires d.Inv() && lines != [] && ShowsLines(d, lines)
    ensures ShowsLines(d.Put(TAB), Extended(lines, [SPACE, SPACE, SPACE, SPACE]))
  {
    hide ShowsLines, Extended, Document.Plain;
    var one := Extended(lines, [SPACE]);
    var two := Extended(one, [SPACE]);
    var three := Extended(two, [SPACE]);
    PlainShows(d, lines, SPACE);
    PlainShows(d.Plain(SPACE), one, SPACE);
    PlainShows(d.Plain(SPACE).Plain(SPACE), two, SPACE);
    PlainShows(d.Plain(SPACE).Plain(SPACE).Plain(SPACE), three, SPACE);
    ExtendedTwice(lines, [SPACE], [SPACE]);
    ExtendedTwice(lines, [SPACE, SPACE], [SPACE]);
    ExtendedTwice(lines, [SPACE, SPACE, SPACE], [SPACE]);
    assert [SPACE] + [SPACE] == [SPACE, SPACE];
    assert [SPACE, SPACE] + [SPACE] == [SPACE, SPACE, SPACE];
    assert [SPACE, SPACE, SPACE] + [SPACE] == [SPACE, SPACE, SPACE, SPACE];
  }

  /** Text without returns and backspaces. */
  predicate Printable(text: seq<byte>) {
    8 !in text && 13 !in text
  }

  lemma PutShows(d: Document, lines: seq<seq<byte>>, c: byte)
    requires d.Inv() && lines != [] && ShowsLines(d, lines) && c != RETURN && c != BACKSPACE
    ensures ShowsLines(d.Put(c), NextLines(lines, c))
  {
    hide ShowsLines, Document.NewLine, Document.Plain, Extended;
    if c == NEWLINE {
      NewLineShows(d, lines);
    } else if c == TAB {
      TabShows(d, lines);
    } else {
      PlainShows(d, lines, c);
    }
  }

  /** Written to a fresh document, a text is laid out line by line, wrapped at column 80. */
  lemma {:induction false} WriteShows(text: seq<byte>, color: byte)
    requires Printable(text)
    ensures ShowsLines(Fresh(color).Write(text), Lines(text))
  {
    hide ShowsLines, Fresh, Document.Put, NextLines;
    if text == [] {
      EmptyShows(color);
    } else {
      var n := |text| - 1;
      WriteShows(text[..n], color);
      PutShows(Fresh(color).Write(text[..n]), Lines(text[..n]), text[n]);
    }
  }

  lemma EmptyShows(color: byte)
    ensures ShowsLines(Fresh(color), [[]])
  {
    assert Layout([[]], color) == Wrapped([], color);
  }

  /** The visible screen is the last 25 rows of the layout of all that has been written,
      and the cursor is behind the end of its last line. */
  lemma ScreenIsEndOfLayout(text: seq<byte>, color: byte)
    requires Printable(text)
    ensures var d, lines := Fresh(color).Write(text), Lines(text);
      var all, last := Layout(lines, color), lines[|lines| - 1];
      && (|all| <= SCREEN ==> d.Visible() == all + Blanks(SCREEN - |all|, color))
      && (|all| >= SCREEN ==> d.Visible() == all[|all| - SCREEN..])
      && d.column == |last| % WIDTH && d.row == |all| / WIDTH - 1
  {
    hide Document.Write, Lines, Fresh, Wrapped;
    WriteShows(text, color);
    var lines := Lines(text);
    assert lines[..|lines| - 1] + [lines[|lines| - 1]] == lines;
  }

  /** A text without newlines and tabs fills cell after cell. */
  lemma {:induction false} OneLine(text: seq<byte>)
    requires Printable(text) && 10 !in text && 9 !in text
    ensures Lines(text) == [text]
  {
    if text != [] {
      OneLine(text[..|text| - 1]);
      assert text[..|text| - 1] + [text[|text| - 1]] == text;
    }
  }

  // The layout of any text without backspaces, place by place

  /** A text with four spaces for every tab. */
  function Expanded(text: seq<byte>): seq<byte> {
    if text == [] then []
    else
      var c := text[|text| - 1];
      Expanded(text[..|text| - 1]) + if c == 9 then [32, 32, 32, 32] else [c]
  }

  datatype Position = Position(row: nat, column: nat)

  /** Where a text without tabs ends, if rows have 80 columns and there is no bottom. */
  function EndOf(text: seq<byte>): (p: Position)
    ensures p.column < WIDTH
  {
    if text == [] then Position(0, 0)
    else
      var p, c := EndOf(text[..|text| - 1]), text[|text| - 1];
      if c == 10 then Position(p.row + 1, 0)
      else if c == 13 then Position(p.row, 0)
      else if p.column + 1 == 80 then Position(p.row + 1, 0)
      else Position(p.row, p.column + 1)
  }

  predicate Shown(c: byte) {
    c != 10 && c != 13
  }

  /** The place of the i-th character, counted in cells from the top. */
  function PlaceOf(text: seq<byte>, i: nat): nat
    requires i <= |text|
  {
    80 * EndOf(text[..i]).row + EndOf(text[..i]).column
  }

  lemma PrefixPlaces(text: seq<byte>, n: nat)
    requires n <= |text|
    ensures forall j | 0 <= j <= n :: PlaceOf(text[..n], j) == PlaceOf(text, j)
  {
    forall j | 0 <= j <= n
      ensures PlaceOf(text[..n], j) == PlaceOf(text, j)
    {
      assert text[..n][..j] == text[..j];
    }
  }

  /** The last character of a text that is shown at place k. */
  function LastAt(text: seq<byte>, k: nat): (i: Option<nat>)
    ensures i.Some? ==> i.value < |text|
  {
    if text == [] then None
    else
      var n := |text| - 1;
      if Shown(text[n]) && PlaceOf(text, n) == k then Some(n) else LastAt(text[..n], k)
  }

  lemma {:induction false} LastAtIs(text: seq<byte>, k: nat)
    ensures match LastAt(text, k)
      case Some(i) =>
        && Shown(text[i]) && PlaceOf(text, i) == k
        && forall j | i < j < |text| && Shown(text[j]) :: PlaceOf(text, j) != k
      case None => forall j | 0 <= j < |text| && Shown(text[j]) :: PlaceOf(text, j) != k
  {
    hide PlaceOf, Shown;
    if text != [] {
      var n := |text| - 1;
      LastAtIs(text[..n], k);
      PrefixPlaces(text, n);
    }
  }

  /** The cell at place k: the last character shown there, or a blank. */
  function CellAt(text: seq<byte>, k: nat, color: byte): Cell {
    var i := LastAt(text, k);
    if i.Some? then Entry(text[i.value], color) else Entry(32, color)
  }

  /** Whether a document shows a text, with the cursor behind its end. */
  ghost predicate ShowsText(d: Document, text: seq<byte>)
    requires d.Inv()
  {
    && d.row == EndOf(text).row && d.column == EndOf(text).column
    && d.height == (if d.row + 1 > 25 then d.row + 1 else 25)
    && forall k | 0 <= k < |d.cells| :: d.cells[k] == CellAt(text, k, d.color)
  }

  /** What one more character changes: the cell at the end, if it is shown. */
  lemma CellExtended(text: seq<byte>, c: byte, k: nat, color: byte)
    ensures CellAt(text + [c], k, color) ==
      if Shown(c) && PlaceOf(text, |text|) == k then Entry(c, color) else CellAt(text, k, color)
  {
    hide Entry;
    assert (text + [c])[..|text|] == text == text[..|text|];
  }

  lemma {:induction false} RowsGrow(text: seq<byte>, i: nat)
    requires i <= |text|
    ensures EndOf(text[..i]).row <= EndOf(text).row
    decreases |text|
  {
    if i < |text| {
      RowsGrow(text[..|text| - 1], i);
      assert text[..|text| - 1][..i] == text[..i];
    } else {
      assert text[..i] == text;
    }
  }

  /** Below the row of its end a text shows nothing. */
  lemma BlankBelow(text: seq<byte>, k: nat, color: byte)
    requires k >= WIDTH * (EndOf(text).row + 1)
    ensures CellAt(text, k, color) == Entry(SPACE, color)
  {
    LastAtIs(text, k);
    var i := LastAt(text, k);
    if i.Some? {
      RowsGrow(text, i.value);
    }
  }

  lemma PutShowsText(d: Document, text: seq<byte>, c: byte)
    requires d.Inv() && ShowsText(d, text) && c != BACKSPACE && c != TAB
    ensures ShowsText(d.Put(c), text + [c])
  {
    hide LastAt, CellAt, Entry, Blanks;
    var e := d.Put(c);
    assert (text + [c])[..|text|] == text == text[..|text|];
    if Shown(c) {
      PlainIs(d, c);
    }
    forall k | 0 <= k < |e.cells|
      ensures e.cells[k] == CellAt(text + [c], k, d.color)
    {
      CellExtended(text, c, k, d.color);
      if k >= |d.cells| {
        BlankBelow(text, k, d.color);
      }
    }
  }

  lemma {:induction false} WriteConcat(d: Document, a: seq<byte>, b: seq<byte>)
    requires d.Inv()
    ensures d.Write(a + b) == d.Write(a).Write(b)
    decreases |b|
  {
    if b == [] {
      assert a + b == a;
    } else {
      WriteConcat(d, a, b[..|b| - 1]);
      assert (a + b)[..|a + b| - 1] == a + b[..|b| - 1];
    }
  }

  lemma WriteOne(d: Document, c: byte)
    requires d.Inv()
    ensures d.Write([c]) == d.Put(c)
  {
    assert [c][..0] == [];
    assert d.Write([]) == d;
  }

  lemma TabIsFourSpaces(d: Document)
    requires d.Inv()
    ensures d.Put(TAB) == d.Put(SPACE).Put(SPACE).Put(SPACE).Put(SPACE)
  {
    hide Document.Plain;
  }

  lemma FourSpaces(d: Document)
    requires d.Inv()
    ensures d.Put(TAB) == d.Write([SPACE, SPACE, SPACE, SPACE])
  {
    hide Document.Put, Document.Write, Document.Inv;
    TabIsFourSpaces(d);
    var d1 := d.Put(SPACE);
    var d2 := d1.Put(SPACE);
    var d3 := d2.Put(SPACE);
    WriteOne(d, SPACE);
    WriteOne(d1, SPACE);
    WriteOne(d2, SPACE);
    WriteOne(d3, SPACE);
    WriteConcat(d, [SPACE], [SPACE]);
    WriteConcat(d, [SPACE] + [SPACE], [SPACE]);
    WriteConcat(d, [SPACE] + [SPACE] + [SPACE], [SPACE]);
    assert [SPACE] + [SPACE] + [SPACE] + [SPACE] == [SPACE, SPACE, SPACE, SPACE];
  }

  lemma {:induction false} WriteExpanded(d: Document, text: seq<byte>)
    requires d.Inv()
    ensures d.Write(text) == d.Write(Expanded(text))
  {
    if text != [] {
      var n := |text| - 1;
      var before, c := Expanded(text[..n]), text[n];
      WriteExpanded(d, text[..n]);
      if c == TAB {
        FourSpaces(d.Write(before));
        WriteConcat(d, before, [SPACE, SPACE, SPACE, SPACE]);
      } else {
        assert (before + [c])[..|before|] == before;
      }
    }
  }

  lemma {:induction false} ExpandedHasNoTabs(text: seq<byte>)
    ensures TAB !in Expanded(text)
    ensures BACKSPACE !in text ==> BACKSPACE !in Expanded(text)
  {
    if text != [] {
      ExpandedHasNoTabs(text[..|text| - 1]);
    }
  }

  lemma {:induction false} WriteShowsText(text: seq<byte>, color: byte)
    requires BACKSPACE !in text && TAB !in text
    ensures ShowsText(Fresh(color).Write(text), text)
  {
    if text == [] {
      assert forall k: nat :: CellAt([], k, color) == Entry(SPACE, color);
    } else {
      var n := |text| - 1;
      WriteShowsText(text[..n], color);
      hide ShowsText, Document.Put, Fresh;
      PutShowsText(Fresh(color).Write(text[..n]), text[..n], text[n]);
      assert text[..n] + [text[n]] == text;
    }
  }

  /** For every text without backspaces, with newlines, returns, tabs and wrapping: each
      cell of the document is the last character of the text that belongs there, the screen
      is the last 25 rows, and the cursor is where the text ends. */
  lemma ScreenShowsText(text: seq<byte>, color: byte)
    requires 8 !in text
    ensures var d, t := Fresh(color).Write(text), Expanded(text);
      && ShowsText(d, t)
      && (forall k | 0 <= k < 80 * 25 :: d.Visible()[k] == CellAt(t, 80 * (d.height - 25) + k, color))
  {
    hide CellAt, Fresh, Document.Write;
    WriteExpanded(Fresh(color), text);
    ExpandedHasNoTabs(text);
    WriteShowsText(Expanded(text), color);
    var d := Fresh(color).Write(text);
    assert |d.cells| - SCREEN == WIDTH * (d.height - HEIGHT);
  }

  /** A backspace after a character goes back to its cell and blanks it, also over the end
      of a row and when the screen has scrolled. */
  lemma BackUndoesPlain(d: Document, c: byte)
    requires d.Inv()
    ensures var e := d.Plain(c).Back(); var blanked := d.cells[d.Place() := Entry(32, d.color)];
      && e.row == d.row && e.column == d.column
      && e.cells == (if e.height == d.height then blanked else blanked + Blanks(WIDTH, d.color))
      && (e.height == d.height + 1 <==> d.column == WIDTH - 1 && d.row == d.height - 1)
  {
    hide Entry;
    assert d.cells[d.Place() := Entry(c, d.color)][d.Place() := Entry(SPACE, d.color)]
        == d.cells[d.Place() := Entry(SPACE, d.color)];
  }

  lemma BackIs(d: Document)
    requires d.Inv()
    ensures var e := d.Back(); var top := WIDTH * (d.height - HEIGHT);
      && e.height == d.height && |e.cells| == |d.cells| && top <= d.Place()
      && e.Place() == (if d.Place() > top then d.Place() - 1 else top)
      && forall k | 0 <= k < |d.cells| ::
           e.cells[k] == if e.Place() <= k < d.Place() then Entry(32, d.color) else d.cells[k]
  {
    hide Entry;
  }

  /** Any number of backspaces blanks as many cells before the cursor, over the starts of
      rows, but none above the screen, where the cursor stays at the top left. */
  lemma {:induction false} BackspacesBlank(d: Document, n: nat)
    requires d.Inv()
    ensures var e := d.Write(seq(n, _ => 8)); var top := WIDTH * (d.height - HEIGHT);
      && e.height == d.height && |e.cells| == |d.cells|
      && e.Place() == (if d.Place() - n > top then d.Place() - n else top)
      && forall k | 0 <= k < |d.cells| ::
           e.cells[k] == if e.Place() <= k < d.Place() then Entry(32, d.color) else d.cells[k]
  {
    hide Entry, Document.Back, Document.Plain;
    var text := seq(n, _ => BACKSPACE);
    if n == 0 {
      BackIs(d);
    } else {
      assert text[..n - 1] == seq(n - 1, _ => BACKSPACE) && text[n - 1] == BACKSPACE;
      BackspacesBlank(d, n - 1);
      BackIs(d.Write(text[..n - 1]));
    }
  }

  /** Text without control characters. */
  predicate AllPlain(text: seq<byte>) {
    forall k | 0 <= k < |text| :: text[k] !in {8, 9, 10, 13}
  }

  /** Text behind a return is laid over what the row showed, and what it does not cover
      stays. */
  lemma ReturnOverwrites(d: Document, under: seq<byte>, over: seq<byte>)
    requires d.Inv() && d.column == 0 && AllPlain(under) && AllPlain(over) && |under| < WIDTH && |over| < WIDTH
    ensures var shown := over + if |over| < |under| then under[|over|..] else [];
      d.Write(under + [13] + over) == d.Write(shown).(column := |over|)
  {
    hide Document.Write, Document.Put, Overlaid, AllPlain;
    PlainOverlay(under, over);
    var shown := over + if |over| < |under| then under[|over|..] else [];
    var e := d.Write(under).(column := 0);
    WriteConcat(d, under + [RETURN], over);
    WriteConcat(d, under, [RETURN]);
    WriteOne(d.Write(under), RETURN);
    PutReturn(d.Write(under));
    RowOf(d, under);
    RowOf(e, over);
    RowOf(d, shown);
    OverlaidTwice(d, under, over);
  }

  lemma OverlaidTwice(d: Document, under: seq<byte>, over: seq<byte>)
    requires d.Inv() && |under| < WIDTH && |over| < WIDTH
    ensures var shown := over + if |over| < |under| then under[|over|..] else [];
      var e := d.(cells := Overlaid(d, under));
      e.Inv() && Overlaid(e, over) == Overlaid(d, shown)
  {
  }

  lemma PlainOverlay(under: seq<byte>, over: seq<byte>)
    requires AllPlain(under) && AllPlain(over)
    ensures AllPlain(over + if |over| < |under| then under[|over|..] else [])
  {
  }

  lemma PutReturn(d: Document)
    requires d.Inv()
    ensures d.Put(RETURN) == d.(column := 0)
  {
  }

  /** The cells with a text over them from the start of the cursor's row on. */
  function Overlaid(d: Document, text: seq<byte>): (cells: seq<Cell>)
    requires d.Inv() && |text| < WIDTH
    ensures |cells| == |d.cells|
    ensures forall k | 0 <= k < |cells| ::
      cells[k] ==
        if WIDTH * d.row <= k < WIDTH * d.row + |text| then Entry(text[k - WIDTH * d.row], d.color) else d.cells[k]
  {
    seq(|d.cells|, k requires 0 <= k < |d.cells| =>
      if WIDTH * d.row <= k < WIDTH * d.row + |text| then Entry(text[k - WIDTH * d.row], d.color) else d.cells[k])
  }

  lemma {:induction false} RowOf(d: Document, text: seq<byte>)
    requires d.Inv() && d.column == 0 && |text| < WIDTH && AllPlain(text)
    ensures d.Write(text) == d.(cells := Overlaid(d, text), column := |text|)
  {
    if text == [] {
      assert Overlaid(d, []) == d.cells;
    } else {
      var n := |text| - 1;
      RowOf(d, text[..n]);
      var e := d.(cells := Overlaid(d, text[..n]), column := n);
      assert Overlaid(d, text) == e.cells[e.Place() := Entry(text[n], d.color)];
      hide Overlaid;
      assert e.Put(text[n]) == e.Plain(text[n]);
    }
  }
}
