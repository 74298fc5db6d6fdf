/** The cell buffer of terminal.c, refining the document of ScreenSpec. */
module Screen {
  import opened Prelude
  import opened ScreenSpec

  /** The cells after x of them have been copied from q to p. */
  ghost function Copied(cells: seq<Cell>, p: nat, q: nat, x: nat): (r: seq<Cell>)
    requires p + x <= q && q + x <= |cells|
    ensures |r| == |cells|
  {
    cells[..p] + cells[q..q + x] + cells[p + x..]
  }

  lemma CopiedStep(cells: seq<Cell>, p: nat, q: nat, x: nat)
    requires p + x < q && q + x < |cells|
    ensures Copied(cells, p, q, x)[q + x] == cells[q + x]
    ensures Copied(cells, p, q, x)[p + x := cells[q + x]] == Copied(cells, p, q, x + 1)
  {
  }

  /** The cells after the first p have been replaced by those shift places further. */
  ghost function Moved(cells: seq<Cell>, p: nat, shift: nat): (r: seq<Cell>)
    requires p + shift <= |cells|
    ensures |r| == |cells|
  {
    cells[shift..p + shift] + cells[p..]
  }

  lemma MovedStep(cells: seq<Cell>, p: nat, shift: nat, width: nat)
    requires width <= shift && p + shift + width <= |cells|
    ensures Copied(Moved(cells, p, shift), p, p + shift, width) == Moved(cells, p + width, shift)
  {
    var moved := Moved(cells, p, shift);
    assert moved[p..] == cells[p..];
    assert moved[p + shift..p + shift + width] == cells[p + shift..p + shift + width];
  }

  lemma MovedEnds(cells: seq<Cell>, shift: nat)
    requires shift <= |cells|
    ensures Moved(cells, 0, shift) == cells
    ensures Moved(cells, |cells| - shift, shift)[..|cells| - shift] == cells[shift..]
  {
  }

  class Terminal {
    const memory: array<Cell>
    var terminalColor: byte
    var terminalRow: nat
    var terminalColumn: nat

    /** All that has been written. */
    ghost var document: Document

    ghost predicate Valid()
      reads this, memory
    {
      && memory.Length == SCREEN && document.Inv()
      && memory[..] == document.Visible()
      && terminalRow == document.row - (document.height - HEIGHT)
      && terminalColumn == document.column && terminalColor == document.color
    }

    /** `terminal_initialize`, with light grey on black. */
    constructor ()
      ensures Valid() && fresh(memory) && document == Fresh(7)
    {
      terminalRow, terminalColumn, terminalColor := 0, 0, 7;
      memory := new Cell[2000];
      document := Fresh(7);
      new;
      Clear();
    }

    /** Blanks in all cells. */
    method Clear()
      requires memory.Length == SCREEN
      modifies memory
      ensures memory[..] == Blanks(SCREEN, terminalColor)
    {
      for y := 0 to 25
        invariant forall k | 0 <= k < 80 * y :: memory[k] == Entry(SPACE, terminalColor)
      {
        for x := 0 to 80
          invariant forall k | 0 <= k < 80 * y + x :: memory[k] == Entry(SPACE, terminalColor)
        {
          memory[y * 80 + x] := Entry(SPACE, terminalColor);
        }
      }
    }

    /** `terminal_setcolor`. */
    method SetColor(color: byte)
      requires Valid()
      modifies this
      ensures Valid() && document == old(document).(color := color)
    {
      terminalColor := color;
      document := document.(color := color);
    }

    /** `terminal_putentryat`. */
    method PutEntryAt(c: byte, color: byte, x: nat, y: nat)
      requires memory.Length == SCREEN && x < 80 && y < 25
      modifies memory
      ensures memory[..] == old(memory[..])[80 * y + x := Entry(c, color)]
    {
      memory[y * 80 + x] := Entry(c, color);
    }

    /** `terminal_scroll`. */
    method Scroll(lines: int)
      requires memory.Length == SCREEN
      modifies memory
      ensures memory[..] ==
        if lines <= 0 || lines > 25 then old(memory[..])
        else old(memory[80 * lines..]) + Blanks(80 * lines, terminalColor)
    {
      if lines <= 0 {
        return;
      }
      // Both loops begin behind their end then: 25 - lines becomes a large `size_t`.
      if lines > 25 {
        return;
      }
      MoveUp(lines);
      BlankBelow(lines);
    }

    /** The first loop of `terminal_scroll`. */
    method MoveUp(lines: nat)
      requires memory.Length == SCREEN && 0 < lines <= 25
      modifies memory
      ensures memory[..SCREEN - 80 * lines] == old(memory[80 * lines..])
    {
      hide Moved, Copied;
      ghost var before := memory[..];
      MovedEnds(before, 80 * lines);
      for y := lines to 25
        invariant memory[..] == Moved(before, 80 * (y - lines), 80 * lines)
      {
        CopyRow(y - lines, y);
        MovedStep(before, 80 * (y - lines), 80 * lines, 80);
      }
    }

    method CopyRow(to: nat, from: nat)
      requires memory.Length == SCREEN && to < from < 25
      modifies memory
      ensures memory[..] == Copied(old(memory[..]), 80 * to, 80 * from, 80)
    {
      for x := 0 to 80
        invariant memory[..] == Copied(old(memory[..]), 80 * to, 80 * from, x)
      {
        CopiedStep(old(memory[..]), 80 * to, 80 * from, x);
        memory[to * 80 + x] := memory[from * 80 + x];
      }
    }

    /** The second loop of `terminal_scroll`. */
    method BlankBelow(lines: nat)
      requires memory.Length == SCREEN && 0 < lines <= 25
      modifies memory
      ensures memory[..] == old(memory[..SCREEN - 80 * lines]) + Blanks(80 * lines, terminalColor)
    {
      for y := 25 - lines to 25
        invariant memory[..SCREEN - 80 * lines] == old(memory[..SCREEN - 80 * lines])
        invariant forall k | SCREEN - 80 * lines <= k < 80 * y :: memory[k] == Entry(SPACE, terminalColor)
      {
        for x := 0 to 80
          invariant memory[..SCREEN - 80 * lines] == old(memory[..SCREEN - 80 * lines])
          invariant forall k | SCREEN - 80 * lines <= k < 80 * y + x :: memory[k] == Entry(SPACE, terminalColor)
        {
          memory[y * 80 + x] := Entry(SPACE, terminalColor);
        }
      }
    }

    /** `terminal_newline`. */
    method NewLine()
      requires Valid()
      modifies this, memory
      ensures Valid() && document == old(document).NewLine()
    {
      hide Document.Visible, Document.NewLine, Blanks;
      VisibleNewLine(document);
      terminalColumn := 0;
      terminalRow := terminalRow + 1;
      if terminalRow == 25 {
        Scroll(1);
        terminalRow := 24;
      }
      document := document.NewLine();
    }

    /** `terminal_backspace`. */
    method Backspace()
      requires Valid()
      modifies this, memory
      ensures Valid() && document == old(document).Back()
    {
      if terminalColumn > 0 {
        terminalColumn := terminalColumn - 1;
        PutEntryAt(SPACE, terminalColor, terminalColumn, terminalRow);
        MoveCursor(terminalColumn, terminalRow);
      } else if terminalRow > 0 {
        terminalRow := terminalRow - 1;
        terminalColumn := 79;
        PutEntryAt(SPACE, terminalColor, terminalColumn, terminalRow);
        MoveCursor(terminalColumn, terminalRow);
      }
      document := document.Back();
    }

    /** `terminal_move_cursor`, without the hardware cursor. */
    method MoveCursor(x: nat, y: nat)
      modifies `terminalRow, `terminalColumn
      ensures if x >= 80 || y >= 25 then terminalRow == old(terminalRow) && terminalColumn == old(terminalColumn)
              else terminalRow == y && terminalColumn == x
    {
      if x >= 80 || y >= 25 {
        return;
      }
      terminalColumn := x;
      terminalRow := y;
    }

    /** `terminal_tab`. */
    method PutTab()
      requires Valid()
      modifies this, memory
      ensures Valid() && document == old(document).Put(TAB)
      decreases 1
    {
      hide Document.Put, Document.Visible;
      for i := 0 to TAB_SIZE
        invariant Valid() && document == Spaces(old(document), i)
      {
        PutChar(SPACE);
      }
      SpacesAreTab(old(document));
    }

    /** `terminal_putchar`. */
    method PutChar(c: byte)
      requires Valid()
      modifies this, memory
      ensures Valid() && document == old(document).Put(c)
      decreases if c == TAB then 2 else 0
    {
      if c == NEWLINE {
        NewLine();
      } else if c == RETURN {
        terminalColumn := 0;
        document := document.(column := 0);
      } else if c == BACKSPACE {
        Backspace();
      } else if c == TAB {
        PutTab();
      } else {
        PutPlain(c);
      }
      MoveCursor(terminalColumn, terminalRow);
    }

    /** The printing of a character in `terminal_putchar`. */
    method PutPlain(c: byte)
      requires Valid()
      modifies this, memory
      ensures Valid() && document == old(document).Plain(c)
    {
      PutEntryAt(c, terminalColor, terminalColumn, terminalRow);
      ghost var after := document.Plain(c);
      document := document.(cells := document.cells[document.Place() := Entry(c, document.color)]);
      if terminalColumn + 1 == 80 {
        NewLine();
      } else {
        terminalColumn := terminalColumn + 1;
        document := document.(column := document.column + 1);
      }
      assert document == after;
    }

    /** `terminal_write`. */
    method Write(data: array<byte>, size: nat)
      requires Valid() && size <= data.Length && (data as object) != memory
      modifies this, memory
      ensures Valid() && document == old(document).Write(data[..size])
    {
      for i := 0 to size
        invariant Valid() && document == old(document).Write(data[..i])
      {
        PutChar(data[i]);
        assert data[..i + 1][..i] == data[..i];
      }
    }
  }

  /** A new line at the bottom scrolls the screen by one row. */
  lemma VisibleNewLine(d: Document)
    requires d.Inv()
    ensures var e := d.NewLine();
      && e.Inv() && e.column == 0 && e.color == d.color && e.row == d.row + 1
      && e.height == (if d.row + 1 == d.height then d.height + 1 else d.height)
      && e.Visible() ==
         if d.row + 1 == d.height then d.Visible()[WIDTH..] + Blanks(WIDTH, d.color) else d.Visible()
  {
    hide Blanks;
  }

  /** After some spaces. */
  ghost function Spaces(d: Document, n: nat): (r: Document)
    requires d.Inv()
    ensures r.Inv()
  {
    if n == 0 then d else Spaces(d, n - 1).Put(SPACE)
  }

  lemma SpacesAreTab(d: Document)
    requires d.Inv()
    ensures Spaces(d, TAB_SIZE) == d.Put(TAB)
  {
    TabIsFourSpaces(d);
    hide Document.Put;
    assert Spaces(d, 1) == Spaces(d, 0).Put(SPACE);
    assert Spaces(d, 2) == Spaces(d, 1).Put(SPACE);
    assert Spaces(d, 3) == Spaces(d, 2).Put(SPACE);
  }
}
