/*
 * The VGA text-mode terminal (drivers/video/vga_text.c): a WIDTH x HEIGHT
 * array of 16-bit cells (character in the low byte, attribute in the high
 * byte), a row/column cursor, and the current attribute. The screen is the
 * 80x25 of VGA text mode. Port I/O to the CRT controller is left out; the
 * cursor index it would be given is modelled.
 */
module VgaText {
  import opened Common

  const WIDTH: nat := 80
  const HEIGHT: nat := 25
  const SIZE: nat := WIDTH * HEIGHT
  const BLANK: byte := 32
  const NEWLINE: byte := 10
  const LIGHT_GREY: nat := 7
  const BLACK: nat := 0

  /** vga_entry_color: foreground in the low nibble, background in the high nibble. */
  function EntryColor(fg: nat, bg: nat): (a: byte)
    requires fg < 16 && bg < 16
    ensures a % 16 == fg && a / 16 == bg
  {
    fg + 16 * bg
  }

  /** vga_entry: the character in the low byte, the attribute in the high byte. */
  function Entry(uc: byte, color: byte): (e: u16)
    ensures e % 256 == uc && e / 256 == color
  {
    uc + 256 * color
  }

  /** The sum in EntryColor is the C's `fg | bg << 4`: the shifted fields do not overlap. */
  lemma ColorIsOr(fg: nat, bg: nat)
    requires fg < 16 && bg < 16
    ensures EntryColor(fg, bg) == BitOr(16 * bg, fg, 8)
  {
    Pow2Values();
    Pow2Add(4, 4);
    BitOrDisjoint(16 * bg, fg, bg, 4, 8);
  }

  /** The sum in Entry is the C's `uc | color << 8`. */
  lemma EntryIsOr(uc: byte, color: byte)
    ensures Entry(uc, color) == BitOr(256 * color, uc, 16)
  {
    Pow2Values();
    Pow2Add(4, 4);
    Pow2Add(8, 8);
    BitOrDisjoint(256 * color, uc, color, 8, 16);
  }

  /** A row of blanks in the given attribute. */
  function Blanks(n: nat, color: byte): (r: seq<u16>)
    ensures |r| == n && forall i :: 0 <= i < n ==> r[i] == Entry(BLANK, color)
  {
    seq(n, _ => Entry(BLANK, color))
  }

  /** The cells after terminal_scroll: every row moves up one, and the last row is blank. */
  function Scrolled(cells: seq<u16>, color: byte): (r: seq<u16>)
    requires WIDTH <= |cells|
    ensures |r| == |cells|
    ensures forall i :: 0 <= i < |cells| - WIDTH ==> r[i] == cells[i + WIDTH]
    ensures forall i :: |cells| - WIDTH <= i < |cells| ==> r[i] == Entry(BLANK, color)
  {
    cells[WIDTH..] + Blanks(WIDTH, color)
  }

  /** One step of terminal_scroll's copy: with the rows before `start` already moved up, moving the next one up. */
  lemma RowMovedUp(before: seq<u16>, cur: seq<u16>, start: nat)
    requires |before| == SIZE && start + 2 * WIDTH <= SIZE
    requires cur == before[WIDTH..WIDTH + start] + before[start..]
    ensures cur[..start] + cur[start + WIDTH..start + 2 * WIDTH] + cur[start + WIDTH..]
      == before[WIDTH..WIDTH + start + WIDTH] + before[start + WIDTH..]
  {
    assert cur[..start] == before[WIDTH..WIDTH + start];
    assert cur[start + WIDTH..start + 2 * WIDTH] == before[start + WIDTH..start + 2 * WIDTH];
    assert cur[start + WIDTH..] == before[start + WIDTH..];
    assert before[WIDTH..WIDTH + start + WIDTH] == before[WIDTH..WIDTH + start] + before[start + WIDTH..start + 2 * WIDTH];
  }

  /** The end of terminal_scroll: all rows moved up, then the last one blanked. */
  lemma LastRowBlanked(before: seq<u16>, cur: seq<u16>, color: byte)
    requires |before| == SIZE
    requires cur == before[WIDTH..WIDTH + (SIZE - WIDTH)] + before[SIZE - WIDTH..]
    ensures cur[..SIZE - WIDTH] + Blanks(WIDTH, color) + cur[SIZE..] == Scrolled(before, color)
  {
    assert cur[..SIZE - WIDTH] == before[WIDTH..];
  }

  lemma CellIndex(x: nat, y: nat)
    requires x < WIDTH && y < HEIGHT
    ensures y * WIDTH + x < SIZE
  {
  }

  /** The cells, the cursor row and the cursor column. */
  datatype Screen = Screen(cells: seq<u16>, row: nat, column: nat)

  /** The cells fill the screen and the cursor is on it. */
  predicate Fits(s: Screen)
  {
    |s.cells| == SIZE && s.row < HEIGHT && s.column < WIDTH
  }

  /** Column 0 of the next row, scrolling when that row would be off the bottom. */
  function NextRow(s: Screen, color: byte): (r: Screen)
    requires Fits(s)
    ensures Fits(r) && r.column == 0
    ensures r.row == if s.row + 1 == HEIGHT then HEIGHT - 1 else s.row + 1
  {
    CellIndex(0, s.row);
    if s.row + 1 == HEIGHT then Screen(Scrolled(s.cells, color), HEIGHT - 1, 0)
    else Screen(s.cells, s.row + 1, 0)
  }

  /** terminal_putchar: '\n' moves to the next row; any other byte is stored at the cursor, which then advances and wraps. */
  function Typed(s: Screen, color: byte, c: byte): (r: Screen)
    requires Fits(s)
    ensures Fits(r)
  {
    if c == NEWLINE then NextRow(s, color)
    else
      CellIndex(s.column, s.row);
      var stored := s.(cells := s.cells[s.row * WIDTH + s.column := Entry(c, color)]);
      if s.column + 1 == WIDTH then NextRow(stored, color)
      else stored.(column := s.column + 1)
  }

  /** A byte other than '\n' lands in the cell under the cursor: there, or a row higher when the screen scrolled. No other cell changes, apart from the scroll. */
  lemma TypedStores(s: Screen, color: byte, c: byte)
    requires Fits(s) && c != NEWLINE
    ensures var r := Typed(s, color, c);
      var i := s.row * WIDTH + s.column;
      if s.column + 1 == WIDTH && s.row + 1 == HEIGHT then
        && i >= WIDTH && r.cells[i - WIDTH] == Entry(c, color)
        && (forall k :: 0 <= k < |s.cells| - WIDTH && k != i - WIDTH ==> r.cells[k] == s.cells[k + WIDTH])
      else
        && r.cells[i] == Entry(c, color)
        && (forall k :: 0 <= k < |s.cells| && k != i ==> r.cells[k] == s.cells[k])
  {
    CellIndex(s.column, s.row);
    if s.column + 1 == WIDTH && s.row + 1 == HEIGHT {
      assert s.row * WIDTH + s.column >= WIDTH;
    }
  }

  /** terminal_write: each byte in turn. */
  function Written(s: Screen, color: byte, data: seq<byte>): (r: Screen)
    requires Fits(s)
    ensures Fits(r)
    decreases |data|
  {
    if data == [] then s else Written(Typed(s, color, data[0]), color, data[1..])
  }

  lemma {:induction false} WrittenAppend(s: Screen, color: byte, data: seq<byte>, c: byte)
    requires Fits(s)
    ensures Written(s, color, data + [c])
      == Typed(Written(s, color, data), color, c)
    decreases |data|
  {
    if data == [] {
      assert [] + [c] == [c];
    } else {
      assert (data + [c])[1..] == data[1..] + [c];
      WrittenAppend(Typed(s, color, data[0]), color, data[1..], c);
    }
  }

  /** terminal_backspace: one column left, blanking that cell; never to the previous row. */
  function Erased(s: Screen, color: byte): (r: Screen)
    requires Fits(s)
    ensures Fits(r) && r.row == s.row
    ensures s.column == 0 ==> r == s
    ensures s.column > 0 ==> r.column == s.column - 1 && r.cells[s.row * WIDTH + r.column] == Entry(BLANK, color)
  {
    CellIndex(s.column, s.row);
    if s.column > 0 then s.(column := s.column - 1, cells := s.cells[s.row * WIDTH + s.column - 1 := Entry(BLANK, color)])
    else s
  }

  class Terminal {
    /** The memory-mapped text buffer, row after row. */
    const buffer: array<u16>
    var row: nat
    var column: nat
    var color: byte

    predicate Valid()
      reads this, buffer
    {
      buffer.Length == SIZE && row < HEIGHT && column < WIDTH
    }

    function View(): Screen
      reads this, buffer
    {
      Screen(buffer[..], row, column)
    }

    /** terminal_update_cursor's position: row * WIDTH + column, truncated to 16 bits as the C's uint16_t does. */
    function CursorIndex(): (pos: u16)
      reads this, buffer
      requires Valid()
      ensures pos == row * WIDTH + column && pos < SIZE
    {
      CellIndex(column, row);
      (row * WIDTH + column) % U16_LIMIT
    }

    /** The statics before terminal_initialize: cursor at the origin, attribute 0. */
    constructor ()
      ensures Valid() && row == 0 && column == 0 && color == 0
    {
      buffer := new u16[SIZE];
      row, column, color := 0, 0, 0;
    }

    /** terminal_setcolor. */
    method SetColor(c: byte)
      modifies `color
      ensures color == c
    {
      color := c;
    }

    /** Blank the WIDTH cells from start on, in the current attribute. */
    method BlankRow(start: nat)
      requires start + WIDTH <= buffer.Length
      modifies buffer
      ensures buffer[..] == old(buffer[..])[..start] + Blanks(WIDTH, color) + old(buffer[..])[start + WIDTH..]
    {
      var x := 0;
      while x < WIDTH
        invariant x <= WIDTH
        invariant buffer[..] == old(buffer[..])[..start] + Blanks(x, color) + old(buffer[..])[start + x..]
      {
        buffer[start + x] := Entry(BLANK, color);
        x := x + 1;
      }
    }

    /** terminal_clear: every cell blank in the current attribute, cursor at the origin. */
    method Clear()
      requires Valid()
      modifies this, buffer
      ensures Valid() && color == old(color)
      ensures View() == Screen(Blanks(SIZE, color), 0, 0)
    {
      row, column := 0, 0;
      var y := 0;
      while y < HEIGHT
        invariant y <= HEIGHT
        invariant Valid() && row == 0 && column == 0 && color == old(color)
        invariant buffer[..] == Blanks(y * WIDTH, color) + old(buffer[..])[y * WIDTH..]
      {
        CellIndex(0, y);
        BlankRow(y * WIDTH);
        assert (y + 1) * WIDTH == y * WIDTH + WIDTH;
        y := y + 1;
      }
      assert y * WIDTH == SIZE;
    }

    /** terminal_initialize: light grey on black, then a clear. */
    method Initialize()
      requires Valid()
      modifies this, buffer
      ensures Valid() && color == EntryColor(LIGHT_GREY, BLACK)
      ensures View() == Screen(Blanks(SIZE, color), 0, 0)
    {
      color := EntryColor(LIGHT_GREY, BLACK);
      Clear();
    }

    /** terminal_putentryat: one cell, whatever the cursor. */
    method PutEntryAt(c: byte, attr: byte, x: nat, y: nat)
      requires Valid() && x < WIDTH && y < HEIGHT
      modifies buffer
      ensures y * WIDTH + x < buffer.Length
      ensures buffer[..] == old(buffer[..])[y * WIDTH + x := Entry(c, attr)]
    {
      CellIndex(x, y);
      buffer[y * WIDTH + x] := Entry(c, attr);
    }

    /** Copy the row after `start` over the row at `start`. */
    method CopyRowUp(start: nat)
      requires start + 2 * WIDTH <= buffer.Length
      modifies buffer
      ensures buffer[..] == old(buffer[..])[..start] + old(buffer[..])[start + WIDTH..start + 2 * WIDTH] + old(buffer[..])[start + WIDTH..]
    {
      var x := 0;
      while x < WIDTH
        invariant x <= WIDTH
        invariant buffer[..] == old(buffer[..])[..start] + old(buffer[..])[start + WIDTH..start + WIDTH + x] + old(buffer[..])[start + x..]
      {
        buffer[start + x] := buffer[start + WIDTH + x];
        x := x + 1;
      }
    }

    /** terminal_scroll: every row moves up one and the last row is blanked; the cursor stays. */
    method Scroll()
      requires buffer.Length == SIZE
      modifies buffer
      ensures buffer[..] == Scrolled(old(buffer[..]), color)
    {
      ghost var before := buffer[..];
      var y := 0;
      ghost var start := 0;
      while y < HEIGHT - 1
        invariant y <= HEIGHT - 1 && start == y * WIDTH
        invariant buffer[..] == before[WIDTH..WIDTH + start] + before[start..]
      {
        ghost var cur := buffer[..];
        CopyRowUp(y * WIDTH);
        RowMovedUp(before, cur, start);
        y := y + 1;
        start := start + WIDTH;
      }
      ghost var cur := buffer[..];
      BlankRow(y * WIDTH);
      LastRowBlanked(before, cur, color);
    }

    /** The '\n' step of terminal_putchar, also taken when the column wraps. */
    method NewRow()
      requires Valid()
      modifies `row, `column, buffer
      ensures Valid() && View() == NextRow(old(View()), color)
    {
      column := 0;
      row := row + 1;
      if row == HEIGHT {
        Scroll();
        row := HEIGHT - 1;
      }
    }

    /** terminal_putchar. */
    method PutChar(c: byte)
      requires Valid()
      modifies `row, `column, buffer
      ensures Valid() && View() == Typed(old(View()), color, c)
    {
      if c == NEWLINE {
        NewRow();
        return;
      }
      PutEntryAt(c, color, column, row);
      column := column + 1;
      if column == WIDTH {
        column := WIDTH - 1;
        NewRow();
      }
    }

    /** terminal_write: every byte of data through terminal_putchar. */
    method Write(data: seq<byte>)
      requires Valid()
      modifies `row, `column, buffer
      ensures Valid() && View() == Written(old(View()), color, data)
    {
      var i := 0;
      while i < |data|
        invariant i <= |data|
        invariant Valid() && View() == Written(old(View()), color, data[..i])
      {
        WrittenAppend(old(View()), color, data[..i], data[i]);
        assert data[..i + 1] == data[..i] + [data[i]];
        PutChar(data[i]);
        i := i + 1;
      }
      assert data[..i] == data;
    }

    /** terminal_backspace. */
    method Backspace()
      requires Valid()
      modifies `column, buffer
      ensures Valid() && View() == Erased(old(View()), color)
    {
      if column > 0 {
        column := column - 1;
        PutEntryAt(BLANK, color, column, row);
      }
    }
  }
}
