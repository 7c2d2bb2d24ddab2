/** The console viewport: a ring of text lines, shown through a framebuffer that is scrolled
    instead of repainted. */
module Console {
  import opened Common
  import opened Bits
  import opened Framebuffer
  import opened Terminal

  const CHAR_WIDTH: nat := 8
  const CHAR_HEIGHT: nat := 16
  const MAX_ROWS: nat := 67

  /** Where the glyph of a character has ink. */
  type Font = (byte, nat, nat) -> bool

  /** Different lines that the ring can hold together. */
  predicate Near(a: nat, b: nat) {
    a < b < a + SCROLLBACK || b < a < b + SCROLLBACK
  }

  lemma RowAbove(y: nat, row: nat)
    requires y < row * CHAR_HEIGHT
    ensures y / CHAR_HEIGHT < row
  {
  }

  /** Such lines have different slots. */
  lemma SlotsApart(a: nat, b: nat, c: nat, d: nat)
    requires c < MAX_COLUMNS && d < MAX_COLUMNS && Near(a, b)
    ensures CellIndex(a, c) != CellIndex(b, d)
  {
    if a < b { SlotsDiffer(a, b); } else { SlotsDiffer(b, a); }
  }

  /** Pixel (i, j) of a cell. */
  function CellPixel(font: Font, c: Cell, i: nat, j: nat): Pixel {
    if c.character != BLANK && font(c.character, i, j) then c.foreground else c.background
  }

  class Console {
    const screen: Screen
    const font: Font
    const columns: nat
    const rows: nat
    const cells: array<Cell>
    var cursorLine: nat
    var cursorX: nat
    var viewTop: nat
    var foreground: Pixel
    var background: Pixel
    const empty: Cell

    /** On a screen cleared to the default background the fresh console shows its blank lines. */
    constructor (screen: Screen, font: Font, empty: Cell)
      requires screen.Valid() && empty.character == BLANK
      ensures Shape() && this.screen == screen && this.font == font && this.empty == empty && fresh(cells)
      ensures foreground == empty.foreground && background == empty.background && cursorX == 0
      ensures columns == Min(screen.width / CHAR_WIDTH, MAX_COLUMNS) && rows == Min(screen.height / CHAR_HEIGHT, MAX_ROWS)
      ensures cursorLine == 0 && viewTop == 0 && forall line: nat, c: nat :: c < MAX_COLUMNS ==> CellAt(line, c) == empty
      ensures (forall y, x :: 0 <= y < screen.height && 0 <= x < screen.width ==> screen.back[y, x] == empty.background) ==> Valid()
    {
      this.screen, this.font, this.empty := screen, font, empty;
      columns, rows := Min(screen.width / CHAR_WIDTH, MAX_COLUMNS), Min(screen.height / CHAR_HEIGHT, MAX_ROWS);
      cells := new Cell[MAX_COLUMNS * SCROLLBACK](_ => empty);
      cursorLine, cursorX, viewTop := 0, 0, 0;
      foreground, background := empty.foreground, empty.background;
    }

    ghost predicate Shape()
      reads this, screen, screen.front, screen.back
    {
      && screen.Valid() && cells.Length == MAX_COLUMNS * SCROLLBACK && empty.character == BLANK
      && columns <= MAX_COLUMNS && columns * CHAR_WIDTH <= screen.width
      && rows <= MAX_ROWS && rows * CHAR_HEIGHT <= screen.height
    }

    function LiveViewTop(): nat
      reads this
    {
      var above := if rows == 0 then 0 else rows - 1;
      if cursorLine < above then 0 else cursorLine - above
    }

    function OldestValidLine(): nat
      reads this
    {
      if cursorLine < SCROLLBACK then 0 else cursorLine - (SCROLLBACK - 1)
    }

    /** The live view ends with the cursor's line once the screen is full, and the history reaches as far back as the ring. */
    lemma CursorInView()
      ensures rows > 0 ==> LiveViewTop() <= cursorLine < LiveViewTop() + rows && (LiveViewTop() > 0 ==> cursorLine == LiveViewTop() + rows - 1)
      ensures cursorLine < OldestValidLine() + SCROLLBACK && (OldestValidLine() > 0 ==> cursorLine == OldestValidLine() + SCROLLBACK - 1)
    {
    }

    function CellAt(line: nat, column: nat): Cell
      requires cells.Length == MAX_COLUMNS * SCROLLBACK && column < MAX_COLUMNS
      reads cells
    {
      cells[CellIndex(line, column)]
    }

    /** What a full repaint puts at a pixel of the text area, with line `top` in the first row. */
    function Painted(top: nat, y: nat, x: nat): Pixel
      requires cells.Length == MAX_COLUMNS * SCROLLBACK && x < MAX_COLUMNS * CHAR_WIDTH
      reads cells
    {
      CellPixel(font, CellAt(top + y / CHAR_HEIGHT, x / CHAR_WIDTH), y % CHAR_HEIGHT, x % CHAR_WIDTH)
    }

    /** Pixel rows `from` to `to` show the lines from `top` on. */
    ghost predicate Shows(top: nat, from: nat, to: nat)
      requires Shape()
      reads this, cells, screen, screen.front, screen.back
    {
      to <= rows * CHAR_HEIGHT &&
      forall y, x :: from <= y < to && 0 <= x < columns * CHAR_WIDTH ==> screen.back[y, x] == Painted(top, y, x)
    }

    function Layout(): Grid
      reads this
    {
      Grid(columns, rows, foreground, background, empty)
    }

    /** The text behind the screen. */
    function Text(): Term
      requires cells.Length == MAX_COLUMNS * SCROLLBACK
      reads this, cells
    {
      Term(cursorLine, cursorX, cells[..])
    }

    /** The text area shows the viewport, which lies within the history. */
    ghost predicate Valid()
      reads this, cells, screen, screen.front, screen.back
    {
      Shape() && OldestValidLine() <= viewTop <= LiveViewTop() && Shows(viewTop, 0, rows * CHAR_HEIGHT)
    }

    /** Moving the view by `k` lines moves the painted picture by `k` text rows. */
    lemma PaintedShift(top: nat, k: nat, y: nat, x: nat)
      requires cells.Length == MAX_COLUMNS * SCROLLBACK && x < MAX_COLUMNS * CHAR_WIDTH
      ensures Painted(top, y + k * CHAR_HEIGHT, x) == Painted(top + k, y, x)
    {
      assert (y + k * CHAR_HEIGHT) / CHAR_HEIGHT == y / CHAR_HEIGHT + k;
      assert (y + k * CHAR_HEIGHT) % CHAR_HEIGHT == y % CHAR_HEIGHT;
      assert top + (y + k * CHAR_HEIGHT) / CHAR_HEIGHT == (top + k) + y / CHAR_HEIGHT;
    }
  
    // ---- painting --------------------------------------------------------------------------------

    /** Inks the set bits of a glyph. */
    method DrawChar(x: nat, y: nat, ch: byte, color: Pixel)
      requires screen.Valid()
      modifies screen, screen.back
      ensures screen.Valid()
      ensures forall py, px :: 0 <= py < screen.height && 0 <= px < screen.width ==>
                screen.back[py, px] ==
                if y <= py < y + CHAR_HEIGHT && x <= px < x + CHAR_WIDTH && font(ch, py - y, px - x) then color else old(screen.back[py, px])
    {
      for row := 0 to CHAR_HEIGHT
        invariant screen.Valid()
        invariant forall py, px :: 0 <= py < screen.height && 0 <= px < screen.width ==>
                    screen.back[py, px] ==
                    if y <= py < y + row && x <= px < x + CHAR_WIDTH && font(ch, py - y, px - x) then color else old(screen.back[py, px])
      {
        for col := 0 to CHAR_WIDTH
          invariant screen.Valid()
          invariant forall py, px :: 0 <= py < screen.height && 0 <= px < screen.width ==>
                      screen.back[py, px] ==
                      if y <= py < y + CHAR_HEIGHT && x <= px < x + CHAR_WIDTH && (py < y + row || (py == y + row && px < x + col)) && font(ch, py - y, px - x)
                      then color else old(screen.back[py, px])
        {
          if font(ch, row, col) { screen.PutPixel(x + col, y + row, color); }
        }
      }
    }

    /** Paints one cell, background first. */
    method PaintCell(c: Cell, x: nat, y: nat)
      requires screen.Valid()
      modifies screen, screen.back
      ensures screen.Valid()
      ensures forall py, px :: 0 <= py < screen.height && 0 <= px < screen.width ==>
                screen.back[py, px] ==
                if y <= py < y + CHAR_HEIGHT && x <= px < x + CHAR_WIDTH then CellPixel(font, c, py - y, px - x) else old(screen.back[py, px])
    {
      screen.DrawRect(x, y, CHAR_WIDTH, CHAR_HEIGHT, c.background);
      if c.character != BLANK { DrawChar(x, y, c.character, c.foreground); }
    }

    lemma InBox(row: nat, column: nat, y: nat, x: nat)
      requires cells.Length == MAX_COLUMNS * SCROLLBACK && column < MAX_COLUMNS
      requires row * CHAR_HEIGHT <= y < row * CHAR_HEIGHT + CHAR_HEIGHT && column * CHAR_WIDTH <= x < column * CHAR_WIDTH + CHAR_WIDTH
      ensures forall top: nat :: Painted(top, y, x) ==
                CellPixel(font, CellAt(top + row, column), y - row * CHAR_HEIGHT, x - column * CHAR_WIDTH)
    {
      assert y / CHAR_HEIGHT == row && y % CHAR_HEIGHT == y - row * CHAR_HEIGHT;
      assert x / CHAR_WIDTH == column && x % CHAR_WIDTH == x - column * CHAR_WIDTH;
    }

    /** `render_row`: the row shows its line; nothing else changes. */
    method RenderRow(row: nat)
      requires Shape()
      modifies screen, screen.back
      ensures Shape()
      ensures row < rows ==> Shows(viewTop, row * CHAR_HEIGHT, row * CHAR_HEIGHT + CHAR_HEIGHT)
      ensures forall y, x :: 0 <= y < screen.height && 0 <= x < screen.width && !(row < rows && row * CHAR_HEIGHT <= y < row * CHAR_HEIGHT + CHAR_HEIGHT) ==>
                screen.back[y, x] == old(screen.back[y, x])
    {
      hide Screen.Agree, Painted, CellPixel;
      if row >= rows { return; }
      var y0 := row * CHAR_HEIGHT;
      for column := 0 to columns
        invariant Shape()
        invariant forall y, x :: y0 <= y < y0 + CHAR_HEIGHT && 0 <= x < column * CHAR_WIDTH ==> screen.back[y, x] == Painted(viewTop, y, x)
        invariant forall y, x :: 0 <= y < screen.height && 0 <= x < screen.width && !(y0 <= y < y0 + CHAR_HEIGHT) ==>
                    screen.back[y, x] == old(screen.back[y, x])
      {
        var x0 := column * CHAR_WIDTH;
        forall y, x | y0 <= y < y0 + CHAR_HEIGHT && x0 <= x < x0 + CHAR_WIDTH
          ensures Painted(viewTop, y, x) == CellPixel(font, CellAt(viewTop + row, column), y - y0, x - x0)
        {
          InBox(row, column, y, x);
        }
        PaintCell(CellAt(viewTop + row, column), x0, y0);
      }
    }

    /** `render`. */
    method Render()
      requires Shape()
      modifies screen, screen.back
      ensures Shape() && Shows(viewTop, 0, rows * CHAR_HEIGHT)
    {
      hide Screen.Agree, Painted, CellPixel;
      RenderRows(0, rows);
    }

    /** Repaints the rows from `first` to `last`. */
    method RenderRows(first: nat, last: nat)
      requires Shape() && first <= last <= rows
      modifies screen, screen.back
      ensures Shape() && Shows(viewTop, first * CHAR_HEIGHT, last * CHAR_HEIGHT)
      ensures forall y, x :: 0 <= y < screen.height && 0 <= x < screen.width && !(first * CHAR_HEIGHT <= y < last * CHAR_HEIGHT) ==>
                screen.back[y, x] == old(screen.back[y, x])
    {
      hide Screen.Agree, Painted, CellPixel;
      for row := first to last
        invariant Shape() && Shows(viewTop, first * CHAR_HEIGHT, row * CHAR_HEIGHT)
        invariant forall y, x :: 0 <= y < screen.height && 0 <= x < screen.width && !(first * CHAR_HEIGHT <= y < row * CHAR_HEIGHT) ==>
                    screen.back[y, x] == old(screen.back[y, x])
      {
        RenderRow(row);
      }
    }

    // ---- scrolling ---------------------------------------------------------------------------------

    /** Towards older lines. The pixels move down and only the uncovered rows are painted, yet the
        text area ends up as a full repaint would leave it. */
    method ScrollUp(lines: nat)
      requires Valid()
      modifies this`viewTop, screen, screen.back
      ensures Valid()
      ensures viewTop == if rows == 0 then old(viewTop) else Max(OldestValidLine(), old(viewTop) - Min(lines, old(viewTop)))
    {
      hide Screen.Agree, Painted, CellPixel;
      if lines == 0 || rows == 0 { return; }
      var live, oldest := LiveViewTop(), OldestValidLine();
      var offset := live - viewTop;
      var offset' := Min(offset + lines, live - oldest);
      var actual := offset' - offset;
      if actual == 0 { return; }
      var was := viewTop;
      viewTop := live - offset';
      var visible := Min(actual, rows);
      screen.ScrollDown(visible * CHAR_HEIGHT, background);
      ghost var shift := visible * CHAR_HEIGHT;
      if visible < rows {
        forall y, x | shift <= y < rows * CHAR_HEIGHT && 0 <= x < columns * CHAR_WIDTH ensures screen.back[y, x] == Painted(viewTop, y, x) {
          PaintedShift(viewTop, visible, y - shift, x);
        }
      }
      assert Shows(viewTop, shift, rows * CHAR_HEIGHT);
      RenderRows(0, visible);
    }

    /** Towards the live line, likewise. */
    method ScrollDown(lines: nat)
      requires Valid()
      modifies this`viewTop, screen, screen.back
      ensures Valid()
      ensures viewTop == if rows == 0 then old(viewTop) else Min(old(viewTop) + lines, LiveViewTop())
    {
      hide Screen.Agree, Painted, CellPixel;
      if lines == 0 || rows == 0 { return; }
      var was := viewTop;
      var view := Min(viewTop + lines, LiveViewTop());
      var actual := view - was;
      if actual == 0 { return; }
      viewTop := view;
      var visible := Min(actual, rows);
      screen.ScrollUp(visible * CHAR_HEIGHT, background);
      var first := rows - visible;
      ghost var shift := visible * CHAR_HEIGHT;
      if visible < rows {
        forall y, x | 0 <= y < first * CHAR_HEIGHT && 0 <= x < columns * CHAR_WIDTH ensures screen.back[y, x] == Painted(viewTop, y, x) {
          PaintedShift(was, visible, y, x);
        }
      }
      assert Shows(viewTop, 0, first * CHAR_HEIGHT);
      RenderRows(first, rows);
    }
  
    // ---- output ------------------------------------------------------------------------------------

    /** Back to the live view. */
    method FollowBottom()
      requires Shape()
      modifies this`viewTop, screen, screen.back
      ensures Shape() && viewTop == LiveViewTop()
      ensures Valid() <==> old(Valid()) || old(viewTop) != LiveViewTop()
    {
      hide Screen.Agree, Painted, CellPixel;
      if viewTop == LiveViewTop() { return; }
      viewTop := LiveViewTop();
      Render();
    }

    method ClearLine(line: nat)
      requires cells.Length == MAX_COLUMNS * SCROLLBACK
      modifies cells
      ensures forall other: nat, c: nat :: c < MAX_COLUMNS && Near(other, line) ==> CellAt(other, c) == old(CellAt(other, c))
      ensures forall c: nat :: c < MAX_COLUMNS ==> CellAt(line, c) == empty
      ensures cells[..] == Blanked(old(cells[..]), line, empty)
      ensures forall top: nat, y: nat, x: nat :: x < MAX_COLUMNS * CHAR_WIDTH && Near(top + y / CHAR_HEIGHT, line) ==>
                Painted(top, y, x) == old(Painted(top, y, x))
    {
      var start := CellIndex(line, 0);
      forall c | 0 <= c < MAX_COLUMNS { cells[start + c] := empty; }
      forall other: nat, c: nat | c < MAX_COLUMNS && Near(other, line) ensures CellAt(other, c) == old(CellAt(other, c)) {
        forall d: nat | d < MAX_COLUMNS ensures CellIndex(other, c) != CellIndex(line, d) { SlotsApart(other, line, c, d); }
      }
      hide CellIndex;
    }

    method SetCell(line: nat, column: nat, cell: Cell)
      requires cells.Length == MAX_COLUMNS * SCROLLBACK && column < MAX_COLUMNS
      modifies cells
      ensures CellAt(line, column) == cell && cells[..] == old(cells[..])[CellIndex(line, column) := cell]
      ensures forall other: nat, c: nat :: c < MAX_COLUMNS && (Near(other, line) || (other == line && c != column)) ==>
                CellAt(other, c) == old(CellAt(other, c))
      ensures forall top: nat, y: nat, x: nat ::
                (x < MAX_COLUMNS * CHAR_WIDTH && (Near(top + y / CHAR_HEIGHT, line) || (top + y / CHAR_HEIGHT == line && x / CHAR_WIDTH != column))) ==>
                Painted(top, y, x) == old(Painted(top, y, x))
    {
      cells[CellIndex(line, column)] := cell;
      forall other: nat, c: nat | c < MAX_COLUMNS && (Near(other, line) || (other == line && c != column))
        ensures CellAt(other, c) == old(CellAt(other, c))
      {
        if other != line { SlotsApart(other, line, c, column); }
      }
      hide CellIndex;
    }

    /** Moves the picture up by one row: all rows but the last now show the view one line on. */
    method FeedPixels()
      requires Shape() && rows > 0
      modifies screen, screen.back
      ensures Shape() && (old(Valid()) ==> Shows(viewTop + 1, 0, (rows - 1) * CHAR_HEIGHT))
    {
      hide Screen.Agree, Painted, CellPixel, CellAt;
      ghost var right := Valid();
      screen.ScrollUp(CHAR_HEIGHT, background);
      forall y, x | right && 0 <= y < (rows - 1) * CHAR_HEIGHT && 0 <= x < columns * CHAR_WIDTH
        ensures screen.back[y, x] == Painted(viewTop + 1, y, x)
      {
        PaintedShift(viewTop, 1, y, x);
      }
    }

    /** A line feed at the live view. At the bottom the pixels move up by one row, the ring slot of
        the oldest line is blanked and reused, and only the last row is painted; the screen still
        shows what a full repaint would, and every other line of the history is kept. */
    method Newline()
      requires Shape() && viewTop == LiveViewTop()
      modifies this, cells, screen, screen.back
      ensures Shape() && (old(Valid()) ==> Valid()) && viewTop == LiveViewTop() && background == old(background) && foreground == old(foreground)
      ensures Text() == Feed(old(Layout()), old(Text()))
      ensures cursorX == 0 && cursorLine == old(cursorLine) + (if rows == 0 then 0 else 1)
      ensures forall line: nat, c: nat :: c < MAX_COLUMNS && OldestValidLine() <= line < cursorLine ==> CellAt(line, c) == old(CellAt(line, c))
      ensures 0 < rows <= cursorLine ==> forall c: nat :: c < MAX_COLUMNS ==> CellAt(cursorLine, c) == empty
    {
      hide Screen.Agree, Painted, CellPixel, CellAt, CellIndex, Blanked;
      ghost var right := Valid();
      cursorX := 0;
      if rows == 0 { return; }
      if cursorLine + 1 < rows {
        cursorLine := cursorLine + 1;
        return;
      }
      FeedPixels();
      cursorLine := cursorLine + 1;
      viewTop := LiveViewTop();
      ClearLine(cursorLine);
      forall y, x | right && 0 <= y < (rows - 1) * CHAR_HEIGHT && 0 <= x < columns * CHAR_WIDTH
        ensures screen.back[y, x] == Painted(viewTop, y, x)
      {
        RowAbove(y, rows - 1);
        assert Near(viewTop + y / CHAR_HEIGHT, cursorLine);
      }
      assert right ==> Shows(viewTop, 0, (rows - 1) * CHAR_HEIGHT);
      RenderRow(rows - 1);
    }

    /** Repaints one cell of the view. */
    method RenderCell(row: nat, column: nat)
      requires Shape()
      modifies screen, screen.back
      ensures Shape()
      ensures forall y, x :: 0 <= y < rows * CHAR_HEIGHT && 0 <= x < columns * CHAR_WIDTH ==>
                screen.back[y, x] == if y / CHAR_HEIGHT == row && x / CHAR_WIDTH == column then Painted(viewTop, y, x) else old(screen.back[y, x])
    {
      hide Screen.Agree, Painted, CellPixel;
      if row >= rows || column >= columns { return; }
      var x0, y0 := column * CHAR_WIDTH, row * CHAR_HEIGHT;
      forall y, x | y0 <= y < y0 + CHAR_HEIGHT && x0 <= x < x0 + CHAR_WIDTH
        ensures Painted(viewTop, y, x) == CellPixel(font, CellAt(viewTop + row, column), y - y0, x - x0)
      {
        InBox(row, column, y, x);
      }
      PaintCell(CellAt(viewTop + row, column), x0, y0);
    }

    /** Sets the cell at the cursor and paints it. */
    method PutCell(cell: Cell)
      requires Shape() && viewTop == LiveViewTop() && cursorX < MAX_COLUMNS
      modifies cells, screen, screen.back
      ensures Shape() && CellAt(cursorLine, cursorX) == cell && Text() == Put(old(Text()), cell)
      ensures forall line: nat, c: nat :: c < MAX_COLUMNS && (Near(line, cursorLine) || (line == cursorLine && c != cursorX)) ==>
                CellAt(line, c) == old(CellAt(line, c))
      ensures forall y, x :: 0 <= y < rows * CHAR_HEIGHT && 0 <= x < columns * CHAR_WIDTH ==>
                if (y / CHAR_HEIGHT, x / CHAR_WIDTH) == (cursorLine - viewTop, cursorX)
                then screen.back[y, x] == Painted(viewTop, y, x)
                else screen.back[y, x] == old(screen.back[y, x]) && Painted(viewTop, y, x) == old(Painted(viewTop, y, x))
    {
      hide Screen.Agree, Painted, CellPixel, CellAt, CellIndex;
      SetCell(cursorLine, cursorX, cell);
      RenderCell(cursorLine - viewTop, cursorX);
      forall y: nat | y < rows * CHAR_HEIGHT
        ensures viewTop + y / CHAR_HEIGHT == cursorLine || Near(viewTop + y / CHAR_HEIGHT, cursorLine)
      {
        RowAbove(y, rows);
      }
    }

    /** A printable character at the cursor. */
    method WriteCell(character: byte)
      requires Shape() && viewTop == LiveViewTop() && cursorX <= columns
      modifies this, cells, screen, screen.back
      ensures Shape() && (old(Valid()) ==> Valid()) && viewTop == LiveViewTop() && cursorX <= columns
      ensures Text() == Print(old(Layout()), old(Text()), character)
      ensures rows > 0 && old(cursorX) < columns ==>
                && CellAt(old(cursorLine), old(cursorX)) == Cell(character, old(foreground), old(background))
                && (cursorLine, cursorX) == if old(cursorX) + 1 < columns then (old(cursorLine), old(cursorX) + 1) else (old(cursorLine) + 1, 0)
      ensures forall line: nat, c: nat :: (c < MAX_COLUMNS && OldestValidLine() <= line <= old(cursorLine) && (line, c) != (old(cursorLine), old(cursorX))) ==>
                CellAt(line, c) == old(CellAt(line, c))
      ensures foreground == old(foreground) && background == old(background)
      ensures cursorX == 0 && 0 < rows <= cursorLine && 0 < columns ==> forall c: nat :: c < MAX_COLUMNS ==> CellAt(cursorLine, c) == empty
    {
      hide Screen.Agree, Painted, CellPixel, CellAt, CellIndex, Blanked, Feed, Put;
      if columns == 0 || rows == 0 { return; }
      if cursorX >= columns { Newline(); }
      PutCell(Cell(character, foreground, background));
      cursorX := cursorX + 1;
      if cursorX >= columns { Newline(); }
    }

    /** A line with ink in its first cell looks different from an empty one. */
    lemma LooksDifferent(a: nat, b: nat, i: nat, j: nat)
      requires cells.Length == MAX_COLUMNS * SCROLLBACK && i < CHAR_HEIGHT && j < CHAR_WIDTH && CellAt(b, 0) == empty
      requires CellAt(a, 0).character != BLANK == empty.character && font(CellAt(a, 0).character, i, j) && CellAt(a, 0).foreground != empty.background
      ensures Painted(a, i, j) != Painted(b, i, j)
    {
      hide CellAt;
      assert i / CHAR_HEIGHT == 0 && j / CHAR_WIDTH == 0 && i % CHAR_HEIGHT == i && j % CHAR_WIDTH == j;
    }

    // ---- backspace and clear ---------------------------------------------------------------------

    /** Whether a backspace leaves the live view in place, or moves it to one that looks the same:
        from row to row every line looks like the next, but for the cell to be erased. */
    ghost predicate KeepsPicture()
      requires Shape()
      reads this, cells, screen, screen.front, screen.back
    {
      cursorX > 0 || rows == 0 || cursorLine < rows ||
      forall y, x :: 0 <= y < rows * CHAR_HEIGHT && 0 <= x < columns * CHAR_WIDTH && (y / CHAR_HEIGHT, x / CHAR_WIDTH) != (rows - 1, columns - 1) ==>
        Painted(LiveViewTop() - 1, y, x) == Painted(LiveViewTop(), y, x)
    }

    /** Erases the cell before the cursor. Across a line start the view may move by one line, and
        only the erased cell is painted: the screen is right exactly if the picture is kept. */
    method Backspace()
      requires Shape() && viewTop == LiveViewTop() && cursorX <= columns
      modifies this`cursorX, this`cursorLine, this`viewTop, cells, screen, screen.back
      ensures Shape() && viewTop == LiveViewTop() && cursorX <= columns
      ensures old(Valid()) ==> (Valid() <==> old(KeepsPicture()))
      ensures Text() == Erase(old(Layout()), old(Text()))
      ensures (cursorLine, cursorX) ==
        if old(cursorX) > 0 then (old(cursorLine), old(cursorX) - 1)
        else if old(cursorLine) > 0 then (old(cursorLine) - 1, if columns == 0 then 0 else columns - 1)
        else (0, 0)
      ensures (cursorLine, cursorX) != (old(cursorLine), old(cursorX)) ==> CellAt(cursorLine, cursorX) == empty
      ensures forall line: nat, c: nat :: c < MAX_COLUMNS && (Near(line, cursorLine) || (line == cursorLine && c != cursorX)) ==>
                CellAt(line, c) == old(CellAt(line, c))
    {
      hide Screen.Agree, Painted, CellPixel, CellAt, CellIndex;
      if cursorX == 0 {
        if cursorLine == 0 { return; }
        cursorLine := cursorLine - 1;
        viewTop := LiveViewTop();
        cursorX := if columns == 0 then 0 else columns - 1;
      } else {
        cursorX := cursorX - 1;
      }
      PutCell(empty);
    }

    /** `clear`: everything is blank; the screen shows it exactly if the current background is the
        one blank cells have. */
    method Clear()
      requires Shape()
      modifies this`cursorX, this`cursorLine, this`viewTop, cells, screen, screen.back
      ensures Shape() && (cursorLine, cursorX, viewTop) == (0, 0, 0)
      ensures forall line: nat, c: nat :: c < MAX_COLUMNS ==> CellAt(line, c) == empty
      ensures Valid() <==> rows == 0 || columns == 0 || background == empty.background
    {
      forall i | 0 <= i < cells.Length { cells[i] := empty; }
      cursorX, cursorLine, viewTop := 0, 0, 0;
      screen.Clear(background);
      if rows > 0 && columns > 0 {
        assert screen.back[0, 0] == background && Painted(0, 0, 0) == empty.background;
      }
    }

    /** `put_char`: the text changes as a terminal's does, and the screen stays as a full repaint of the live view
        would leave it, but for a backspace that moves the view. */
    method PutChar(character: byte)
      requires Shape() && cursorX <= columns
      modifies this, cells, screen, screen.back
      ensures Shape() && viewTop == LiveViewTop() && cursorX <= columns && Layout() == old(Layout())
      ensures old(Valid()) ==> (Valid() <==> character != BACKSPACE || old(KeepsPicture()))
      ensures Text() == Typed(old(Layout()), old(Text()), character)
    {
      hide Screen.Agree, Painted, CellPixel, CellAt, CellIndex;
      FollowBottom();
      if character == 10 {
        Newline();
      } else if character == 13 {
        cursorX := 0;
      } else if character == 9 {
        var tab := (cursorX / TAB_SIZE + 1) * TAB_SIZE;
        if tab >= columns { Newline(); } else { cursorX := tab; }
      } else if character == BACKSPACE {
        Backspace();
      } else if 0x20 <= character <= 0x7e {
        WriteCell(character);
      }
    }

    /** `write_str`: the text is what the terminal makes of the whole string; without a backspace in it the screen shows that. */
    method WriteStr(text: seq<byte>)
      requires Shape() && cursorX <= columns
      modifies this, cells, screen, screen.back
      ensures Shape() && cursorX <= columns && Layout() == old(Layout())
      ensures Text() == TypedAll(old(Layout()), old(Text()), text)
      ensures text != [] ==> viewTop == LiveViewTop()
      ensures old(Valid()) && BACKSPACE !in text ==> Valid()
    {
      hide Screen.Agree, Painted, CellPixel, CellAt, CellIndex, Typed, Shows;
      for i := 0 to |text|
        invariant Shape() && cursorX <= columns && Layout() == old(Layout())
        invariant Text() == TypedAll(old(Layout()), old(Text()), text[..i])
        invariant i > 0 ==> viewTop == LiveViewTop()
        invariant old(Valid()) && BACKSPACE !in text ==> Valid()
      {
        assert text[..i + 1][..i] == text[..i];
        PutChar(text[i]);
      }
      assert text[..|text|] == text;
    }
  }

  /** One row of two columns: "AB" fills the row, and the backspace that takes back the "B" leaves
      the "A" off the screen. */
  method StaleAfterBackspace(font: Font, empty: Cell, i: nat, j: nat) returns (c: Console)
    requires empty.character == BLANK && empty.foreground != empty.background
    requires i < CHAR_HEIGHT && j < CHAR_WIDTH && font(65, i, j)
    ensures c.Shape() && c.viewTop == c.LiveViewTop() && !c.Valid()
  {
    hide Screen.Agree, CellIndex, Blanked, Feed, Put, Print, Erase, Console.Painted, CellPixel, Console.CellAt;
    var front := new Pixel[16, 16];
    var screen := new Screen(16, 16, front, empty.background);
    c := new Console(screen, font, empty);
    assert c.Valid();
    c.WriteCell(65);
    c.WriteCell(66);
    assert c.CellAt(0, 0) == Cell(65, empty.foreground, empty.background) && c.CellAt(1, 0) == empty;
    c.LooksDifferent(0, 1, i, j);
    c.Backspace();
  }
}
