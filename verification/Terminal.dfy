/** The VGA text terminal: a buffer of 80 by 25 cells and a cursor. */
module Terminal {
  import opened Machine
  import opened TerminalLayout

  const CELLS := WIDTH * HEIGHT

  type uint16 = x: int | 0 <= x < 0x1_0000

  /** `uc | color << 8` */
  function VgaEntry(c: byte, color: byte): uint16 {
    c + 0x100 * color
  }

  function CharOf(cell: uint16): byte {
    cell % 0x100
  }

  /** The character is the low byte of a cell, the colour the high byte. */
  lemma VgaEntryLaw(c: byte, color: byte)
    ensures VgaEntry(c, color) % 256 == c && VgaEntry(c, color) / 256 == color
    ensures CharOf(VgaEntry(c, color)) == c
  {}

  /** The cells after scrolling. */
  function ScrolledCells(cells: seq<uint16>, color: byte): (cells': seq<uint16>)
    requires |cells| == CELLS
    ensures |cells'| == CELLS
  {
    cells[80..] + seq(80, _ => VgaEntry(32, color))
  }

  /** The cells after printing a character at the cursor: it is written in the current
      colour, and a full screen scrolls when its last row ends. */
  function AfterPut(cells: seq<uint16>, row: nat, column: nat, c: byte, color: byte): seq<uint16>
    requires |cells| == CELLS && row < 25 && column < 80
  {
    var written := if c == 10 then cells else cells[row * 80 + column := VgaEntry(c, color)];
    if row == 24 && (c == 10 || column == 79) then ScrolledCells(written, color) else written
  }

  class VgaTerminal {
    const buffer: array<uint16>
    var row: nat
    var column: nat
    var color: byte
    ghost var log: Text  // everything printed since the screen was last cleared

    /** The screen shows the last 25 rows of the layout of `log`, the cursor stands at its
        end, and cells nothing was written to are blank. */
    ghost predicate Valid()
      reads this, buffer
    {
      && buffer.Length == CELLS
      && row == |Layout(log)| - 1 - Top(Layout(log))
      && column == |Last(Layout(log))|
      && Shows(buffer[..], Layout(log))
    }

    /** `terminal_initialize` */
    constructor ()
      ensures Valid() && log == [] && fresh(buffer)
      ensures color == 7 && forall k :: 0 <= k < 2000 ==> buffer[k] == 0x0720
    {
      buffer := new uint16[CELLS];
      row, column, color, log := 0, 0, 7, [];
      new;
      Fill();
      ClearedShows(buffer[..]);
    }

    method SetColor(c: byte)
      modifies this`color
      ensures color == c
    {
      color := c;
    }

    /** The nested loops of `terminal_initialize` and `terminal_clear`. */
    method Fill()
      requires buffer.Length == CELLS
      modifies buffer
      ensures forall k :: 0 <= k < CELLS ==> buffer[k] == VgaEntry(BLANK, color)
    {
      for y := 0 to HEIGHT
        invariant forall k :: 0 <= k < y * WIDTH ==> buffer[k] == VgaEntry(BLANK, color)
      {
        for x := 0 to WIDTH
          invariant forall k :: 0 <= k < y * WIDTH + x ==> buffer[k] == VgaEntry(BLANK, color)
        {
          buffer[y * WIDTH + x] := VgaEntry(BLANK, color);
        }
      }
    }

    /** `terminal_clear` */
    method Clear()
      requires Valid()
      modifies this`row, this`column, this`log, buffer
      ensures Valid() && log == []
      ensures forall k :: 0 <= k < 2000 ==> buffer[k] == VgaEntry(32, color)
    {
      row, column, log := 0, 0, [];
      Fill();
      ClearedShows(buffer[..]);
    }

    /** `terminal_putentryat` */
    method PutEntryAt(c: byte, x: nat, y: nat)
      requires buffer.Length == CELLS && x < WIDTH && y < HEIGHT
      modifies buffer
      ensures buffer[..] == old(buffer[..])[y * WIDTH + x := VgaEntry(c, color)]
    {
      buffer[y * WIDTH + x] := VgaEntry(c, color);
    }

    /** The inner loop of `terminal_scroll_up`: the line at `line` takes the one below it. */
    method MoveLineUp(line: nat)
      requires buffer.Length == CELLS && line + 2 * WIDTH <= CELLS
      modifies buffer
      ensures forall k :: line <= k < line + WIDTH ==> buffer[k] == old(buffer[k + WIDTH])
      ensures forall k :: 0 <= k < CELLS && !(line <= k < line + WIDTH) ==> buffer[k] == old(buffer[k])
    {
      for x := 0 to WIDTH
        invariant forall k :: line <= k < line + x ==> buffer[k] == old(buffer[k + WIDTH])
        invariant forall k :: 0 <= k < CELLS && !(line <= k < line + x) ==> buffer[k] == old(buffer[k])
      {
        buffer[line + x] := buffer[line + WIDTH + x];
      }
    }

    /** First loop of `terminal_scroll_up`: every line but the last takes the one below it. */
    method MoveLinesUp()
      requires buffer.Length == CELLS
      modifies buffer
      ensures forall k :: 0 <= k < CELLS - WIDTH ==> buffer[k] == old(buffer[k + WIDTH])
    {
      for y := 0 to HEIGHT - 1
        invariant forall k :: 0 <= k < y * WIDTH ==> buffer[k] == old(buffer[k + WIDTH])
        invariant forall k :: y * WIDTH <= k < CELLS ==> buffer[k] == old(buffer[k])
      {
        MoveLineUp(y * WIDTH);
      }
    }

    /** Second loop of `terminal_scroll_up`: the bottom line is blanked. */
    method BlankBottomLine()
      requires buffer.Length == CELLS
      modifies buffer
      ensures forall k :: 0 <= k < CELLS - WIDTH ==> buffer[k] == old(buffer[k])
      ensures forall k :: CELLS - WIDTH <= k < CELLS ==> buffer[k] == VgaEntry(BLANK, color)
    {
      for x := 0 to WIDTH
        invariant forall k :: 0 <= k < CELLS - WIDTH ==> buffer[k] == old(buffer[k])
        invariant forall k :: CELLS - WIDTH <= k < CELLS - WIDTH + x ==> buffer[k] == VgaEntry(BLANK, color)
      {
        buffer[(HEIGHT - 1) * WIDTH + x] := VgaEntry(BLANK, color);
      }
    }

    /** `terminal_scroll_up`: cells move with their colours. */
    method ScrollUp()
      requires buffer.Length == CELLS
      modifies buffer
      ensures forall k :: 0 <= k < CELLS - WIDTH ==> buffer[k] == old(buffer[k + WIDTH])
      ensures forall k :: CELLS - WIDTH <= k < CELLS ==> buffer[k] == VgaEntry(BLANK, color)
      ensures Scrolled(old(buffer[..]), buffer[..])
      ensures buffer[..] == ScrolledCells(old(buffer[..]), color)
    {
      ghost var cells := buffer[..];
      MoveLinesUp();
      BlankBottomLine();
    }

    /** The two places in `terminal_putchar` that start a new row. */
    method NextRow()
      requires buffer.Length == CELLS && row < HEIGHT
      modifies this`row, this`column, buffer
      ensures column == 0 && row == Min(old(row) + 1, HEIGHT - 1)
      ensures if old(row) == HEIGHT - 1
              then Scrolled(old(buffer[..]), buffer[..]) && buffer[..] == ScrolledCells(old(buffer[..]), color)
              else buffer[..] == old(buffer[..])
    {
      column := 0;
      row := row + 1;
      if row == HEIGHT {
        ScrollUp();
        row := HEIGHT - 1;
      }
    }

    /** `terminal_putchar` */
    method PutChar(c: byte)
      requires Valid()
      modifies this`row, this`column, this`log, buffer
      ensures Valid() && log == old(log) + [c]
      ensures old(row) < 25 && old(column) < 80
      ensures buffer[..] == AfterPut(old(buffer[..]), old(row), old(column), c, color)
    {
      hide Shows, Layout, Scrolled, ShownAt, WrapLine, LineEnd, ScrolledCells;
      ghost var rows, cells := Layout(log), buffer[..];
      LayoutStep(log, c);
      LayoutWidths(log);
      log := log + [c];
      if c == NEWLINE {
        NextRow();
        NewRowShows(cells, rows, buffer[..]);
        return;
      }
      PutEntryAt(c, column, row);
      ghost var wide := Front(rows) + [Last(rows) + [c]];
      PutShows(cells, rows, buffer[..], c, color);
      cells := buffer[..];
      column := column + 1;
      if column == WIDTH {
        NextRow();
        NewRowShows(cells, wide, buffer[..]);
        assert wide + [[]] == Extend(rows, c);
      }
    }

    /** `terminal_write` */
    method Write(data: seq<byte>)
      requires Valid()
      modifies this`row, this`column, this`log, buffer
      ensures Valid() && log == old(log) + data
    {
      hide Shows, Layout, AfterPut;
      for i := 0 to |data|
        invariant Valid() && log == old(log) + data[..i]
      {
        PutChar(data[i]);
      }
    }

    /** The cursor part of `shell_backspace`: step back, write a blank, step back. Unless
        the cursor is at the start of a row, it takes back the last character printed. */
    method EraseLast()
      requires Valid()
      modifies this`row, this`column, this`log, buffer
      ensures Valid()
      ensures log == if old(column) > 0 then old(log)[..|old(log)| - 1] else old(log)
      ensures old(row) < 25 && old(column) < 80
      ensures buffer[..] == if old(column) > 0
                            then old(buffer[..])[old(row) * 80 + old(column) - 1 := VgaEntry(32, color)]
                            else old(buffer[..])
    {
      hide Shows, Layout, Scrolled, ShownAt, WrapLine, LineEnd;
      if column > 0 {
        LayoutWidths(log);
        LastCharacter(log);
        ghost var text, c := log[..|log| - 1], log[|log| - 1];
        ghost var cells := buffer[..];
        column := column - 1;
        PutEntryAt(BLANK, column, row);
        column := column + 1;  // still inside the row, so writing the blank does not wrap
        column := column - 1;
        EraseShows(cells, Layout(text), buffer[..], c, color);
        log := text;
      }
    }
  }

  /** Each line shows what the line below showed; the bottom line is blank. */
  ghost predicate Scrolled(cells: seq<uint16>, cells': seq<uint16>) {
    && |cells| == CELLS && |cells'| == CELLS
    && forall k :: 0 <= k < CELLS ==>
         CharOf(cells'[k]) == if k < CELLS - WIDTH then CharOf(cells[k + WIDTH]) else BLANK
  }

  /** With the cursor inside a row, the last thing printed was the character before it. */
  lemma LastCharacter(text: Text)
    requires |Last(Layout(text))| > 0
    ensures |text| > 0
    ensures var init, c := text[..|text| - 1], text[|text| - 1];
      c != NEWLINE && Layout(text) == Extend(Layout(init), c) && |Last(Layout(init))| + 1 < WIDTH
  {
    if |text| > 0 {
      var init, c := text[..|text| - 1], text[|text| - 1];
      assert text == init + [c];
      LayoutStep(init, c);
      LayoutWidths(init);
    }
  }

  /** Blanking the last character of the layout shows the layout without it. */
  lemma EraseShows(cells: seq<uint16>, rows: seq<Text>, cells': seq<uint16>, c: byte, color: byte)
    requires |rows| > 0 && c != NEWLINE && |Last(rows)| + 1 < WIDTH && Shows(cells, Extend(rows, c))
    requires cells' == cells[(|rows| - 1 - Top(rows)) * WIDTH + |Last(rows)| := VgaEntry(BLANK, color)]
    ensures Shows(cells', rows)
  {
    var y, x := |rows| - 1 - Top(rows), |Last(rows)|;
    assert CharOf(VgaEntry(BLANK, color)) == BLANK;
    forall k | 0 <= k < CELLS ensures CharOf(cells'[k]) == ShownAt(rows, k) {
      assert k == y * WIDTH + x <==> k / WIDTH == y && k % WIDTH == x;
    }
  }

  ghost predicate Shows(cells: seq<uint16>, rows: seq<Text>) {
    |cells| == CELLS && forall k :: 0 <= k < CELLS ==> CharOf(cells[k]) == ShownAt(rows, k)
  }

  lemma ClearedShows(cells: seq<uint16>)
    requires |cells| == CELLS && forall k :: 0 <= k < CELLS ==> CharOf(cells[k]) == BLANK
    ensures Shows(cells, Layout([])) && Layout([]) == [[]]
  {}

  /** Writing at the cursor shows the layout with that character at its end. */
  lemma PutShows(cells: seq<uint16>, rows: seq<Text>, cells': seq<uint16>, c: byte, color: byte)
    requires |rows| > 0 && |Last(rows)| < WIDTH && Shows(cells, rows)
    requires cells' == cells[(|rows| - 1 - Top(rows)) * WIDTH + |Last(rows)| := VgaEntry(c, color)]
    ensures Shows(cells', Front(rows) + [Last(rows) + [c]])
  {
    var rows' := Front(rows) + [Last(rows) + [c]];
    var y, x := |rows| - 1 - Top(rows), |Last(rows)|;
    assert CharOf(VgaEntry(c, color)) == c;
    forall k | 0 <= k < CELLS ensures CharOf(cells'[k]) == ShownAt(rows', k) {
      assert k == y * WIDTH + x <==> k / WIDTH == y && k % WIDTH == x;
    }
  }

  /** A new empty row at the end scrolls the window when the screen is full. */
  lemma NewRowShows(cells: seq<uint16>, rows: seq<Text>, cells': seq<uint16>)
    requires |rows| > 0 && Shows(cells, rows)
    requires if |rows| - Top(rows) == HEIGHT then Scrolled(cells, cells') else cells' == cells
    ensures Shows(cells', rows + [[]])
  {
    var rows' := rows + [[]];
    forall k | 0 <= k < CELLS ensures CharOf(cells'[k]) == ShownAt(rows', k) {
      if |rows| - Top(rows) == HEIGHT {
        assert (k + WIDTH) / WIDTH == k / WIDTH + 1 && (k + WIDTH) % WIDTH == k % WIDTH;
        if k < CELLS - WIDTH {
          assert CharOf(cells[k + WIDTH]) == ShownAt(rows, k + WIDTH);
        }
      }
    }
  }
}
