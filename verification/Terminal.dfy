/** What a string does to the text of a terminal: the console's lines without its pixels. */
module Terminal {
  import opened Common
  import opened Bits
  import opened Framebuffer

  const MAX_COLUMNS: nat := 240
  const SCROLLBACK: nat := 402
  const BLANK: byte := 32
  const BACKSPACE: byte := 8
  const TAB_SIZE: nat := 4

  datatype Cell = Cell(character: byte, foreground: Pixel, background: Pixel)

  /** Slot of a line's cell in the ring. */
  function CellIndex(line: nat, column: nat): (i: nat)
    requires column < MAX_COLUMNS
    ensures i < MAX_COLUMNS * SCROLLBACK
  {
    line % SCROLLBACK * MAX_COLUMNS + column
  }

  type Ring = s: seq<Cell> | |s| == MAX_COLUMNS * SCROLLBACK ghost witness seq(MAX_COLUMNS * SCROLLBACK, _ => Cell(BLANK, 0, 0))

  /** Size and colours. */
  datatype Grid = Grid(columns: nat, rows: nat, foreground: Pixel, background: Pixel, empty: Cell)

  /** The cursor and the cells of the last lines. */
  datatype Term = Term(line: nat, col: nat, cells: Ring)

  ghost predicate Fits(g: Grid, t: Term) { g.columns <= MAX_COLUMNS && t.col <= g.columns }

  function At(t: Term, line: nat, column: nat): Cell
    requires column < MAX_COLUMNS
  {
    t.cells[CellIndex(line, column)]
  }

  predicate SameSlot(a: nat, b: nat) { a % SCROLLBACK == b % SCROLLBACK }

  lemma SameIndex(a: nat, c: nat, b: nat, d: nat)
    requires c < MAX_COLUMNS && d < MAX_COLUMNS
    ensures CellIndex(a, c) == CellIndex(b, d) <==> SameSlot(a, b) && c == d
  {
  }

  function Blanked(cells: Ring, line: nat, empty: Cell): Ring {
    var start := CellIndex(line, 0);
    cells[..start] + seq(MAX_COLUMNS, _ => empty) + cells[start + MAX_COLUMNS..]
  }

  lemma BlankedAt(cells: Ring, line: nat, empty: Cell, l: nat, c: nat)
    requires c < MAX_COLUMNS
    ensures Blanked(cells, line, empty)[CellIndex(l, c)] == if SameSlot(l, line) then empty else cells[CellIndex(l, c)]
  {
  }

  // ---- one byte ---------------------------------------------------------------------------------------

  /** The next line: a blank one at the bottom, the one below as it is where there is still room. */
  function Feed(g: Grid, t: Term): Term {
    if g.rows == 0 then t.(col := 0)
    else Term(t.line + 1, 0, if t.line + 1 < g.rows then t.cells else Blanked(t.cells, t.line + 1, g.empty))
  }

  function Put(t: Term, cell: Cell): Term
    requires t.col < MAX_COLUMNS
  {
    t.(cells := t.cells[CellIndex(t.line, t.col) := cell])
  }

  function Print(g: Grid, t: Term, character: byte): Term
    requires Fits(g, t)
  {
    if g.columns == 0 || g.rows == 0 then t
    else
      var u := if t.col >= g.columns then Feed(g, t) else t;
      var v := Put(u, Cell(character, g.foreground, g.background)).(col := u.col + 1);
      if v.col >= g.columns then Feed(g, v) else v
  }

  function Erase(g: Grid, t: Term): Term
    requires Fits(g, t)
  {
    if t.col > 0 then Put(t.(col := t.col - 1), g.empty)
    else if t.line > 0 then Put(t.(line := t.line - 1, col := if g.columns == 0 then 0 else g.columns - 1), g.empty)
    else t
  }

  function Typed(g: Grid, t: Term, character: byte): (u: Term)
    requires Fits(g, t)
    ensures Fits(g, u)
  {
    if character == 10 then Feed(g, t)
    else if character == 13 then t.(col := 0)
    else if character == 9 then
      var tab := (t.col / TAB_SIZE + 1) * TAB_SIZE;
      if tab >= g.columns then Feed(g, t) else t.(col := tab)
    else if character == BACKSPACE then Erase(g, t)
    else if 0x20 <= character <= 0x7e then Print(g, t, character)
    else t
  }

  /** A string, byte by byte. */
  function TypedAll(g: Grid, t: Term, text: seq<byte>): (u: Term)
    requires Fits(g, t)
    ensures Fits(g, u)
  {
    if text == [] then t else Typed(g, TypedAll(g, t, text[..|text| - 1]), text[|text| - 1])
  }

  predicate Printable(c: byte) { 0x20 <= c <= 0x7e }

  /** The cells of every line but `line`, and of those that share its slot, are as before. */
  ghost predicate OtherLines(t: Term, u: Term, line: nat) {
    forall l: nat, c: nat :: c < MAX_COLUMNS && !SameSlot(l, line) ==> At(u, l, c) == At(t, l, c)
  }

  /** A printable byte stands where the cursor was, and the cursor goes on, over the end of the line if need be. Every other
      cell is kept, but for those of a new line at the bottom, which are blank. */
  lemma PrintableByte(g: Grid, t: Term, character: byte)
    requires 0x20 <= character <= 0x7e && Fits(g, t) && t.col < g.columns && g.rows > 0
    ensures var u := Typed(g, t, character);
            && At(u, t.line, t.col) == Cell(character, g.foreground, g.background)
            && (u.line, u.col) == (t.line + (t.col + 1) / g.columns, (t.col + 1) % g.columns)
            && (forall l: nat, c: nat :: c < MAX_COLUMNS && !(SameSlot(l, t.line) && c == t.col) ==>
                  At(u, l, c) == if u.line > t.line && u.line >= g.rows && SameSlot(l, u.line) then g.empty else At(t, l, c))
  {
    var u := Typed(g, t, character);
    var v := Put(t, Cell(character, g.foreground, g.background));
    hide CellIndex, Blanked;
    forall l: nat, c: nat | c < MAX_COLUMNS
      ensures At(v, l, c) == if SameSlot(l, t.line) && c == t.col then Cell(character, g.foreground, g.background) else At(t, l, c)
      ensures Blanked(v.cells, t.line + 1, g.empty)[CellIndex(l, c)] == if SameSlot(l, t.line + 1) then g.empty else At(v, l, c)
    {
      SameIndex(l, c, t.line, t.col);
      BlankedAt(v.cells, t.line + 1, g.empty, l, c);
    }
    NextColumn(g.columns, t.col);
  }

  lemma NextColumn(columns: nat, col: nat)
    requires col < columns
    ensures (col + 1) / columns == (if col + 1 == columns then 1 else 0) && (col + 1) % columns == if col + 1 == columns then 0 else col + 1
  {
  }

  /** A line feed goes to the start of the next line, which is blank at the bottom of the screen; no other line changes. */
  lemma LineFeed(g: Grid, t: Term)
    requires Fits(g, t) && g.rows > 0
    ensures var u := Typed(g, t, 10);
            && (u.line, u.col) == (t.line + 1, 0) && OtherLines(t, u, u.line)
            && forall c: nat :: c < MAX_COLUMNS ==> At(u, u.line, c) == if u.line < g.rows then At(t, u.line, c) else g.empty
  {
    hide CellIndex, Blanked;
    forall l: nat, c: nat | c < MAX_COLUMNS
      ensures Blanked(t.cells, t.line + 1, g.empty)[CellIndex(l, c)] == if SameSlot(l, t.line + 1) then g.empty else At(t, l, c)
    {
      BlankedAt(t.cells, t.line + 1, g.empty, l, c);
    }
  }

  /** A carriage return goes to the start of the line; bytes that are no control character known here and not printable do nothing. */
  lemma NoText(g: Grid, t: Term, character: byte)
    requires Fits(g, t)
    ensures Typed(g, t, 13) == Term(t.line, 0, t.cells)
    ensures character !in {8, 9, 10, 13} && !(0x20 <= character <= 0x7e) ==> Typed(g, t, character) == t
  {
  }

  /** A tab goes to the next multiple of four, or to the next line if there is none. */
  lemma TabStop(g: Grid, t: Term, stop: nat)
    requires Fits(g, t) && t.col < stop <= t.col + 4 && stop % 4 == 0
    ensures Typed(g, t, 9) == if stop < g.columns then Term(t.line, stop, t.cells) else Typed(g, t, 10)
  {
  }

  /** A backspace after a printable byte brings the cursor back to where it was, also across the end of the line, and
      leaves an empty cell there. */
  lemma BackspaceUndoes(g: Grid, t: Term, character: byte)
    requires 0x20 <= character <= 0x7e && Fits(g, t) && t.col < g.columns && g.rows > 0
    ensures var u := Typed(g, Typed(g, t, character), 8);
            (u.line, u.col) == (t.line, t.col) && At(u, t.line, t.col) == g.empty && OtherColumns(g, t, u)
  {
    hide Typed;
    var v := Typed(g, t, character);
    PrintableByte(g, t, character);
    NextColumn(g.columns, t.col);
    BackspaceByte(g, v);
  }

  /** All cells but the one at the cursor are as before, except on the next line. */
  ghost predicate OtherColumns(g: Grid, t: Term, u: Term) {
    forall l: nat, c: nat :: c < MAX_COLUMNS && !(SameSlot(l, t.line) && c == t.col) && !SameSlot(l, t.line + 1) ==> At(u, l, c) == At(t, l, c)
  }

  /** A backspace goes to the cell before the cursor, over the start of the line if there is a line above, and empties it. */
  lemma BackspaceByte(g: Grid, t: Term)
    requires Fits(g, t) && g.columns > 0 && (t.line > 0 || t.col > 0)
    ensures var u := Typed(g, t, 8);
            && (u.line, u.col) == (if t.col > 0 then (t.line, t.col - 1) else (t.line - 1, g.columns - 1))
            && forall l: nat, c: nat :: c < MAX_COLUMNS ==> At(u, l, c) == if SameSlot(l, u.line) && c == u.col then g.empty else At(t, l, c)
  {
    var u := Typed(g, t, 8);
    hide CellIndex;
    forall l: nat, c: nat | c < MAX_COLUMNS ensures At(u, l, c) == if SameSlot(l, u.line) && c == u.col then g.empty else At(t, l, c) {
      SameIndex(l, c, u.line, u.col);
    }
  }

  // ---- a whole string ----------------------------------------------------------------------------------

  /** Where the byte `i` places after column `col` of line `line` goes. */
  function LineOf(g: Grid, t: Term, i: nat): nat
    requires g.columns > 0
  {
    DivIsNat(t.col + i, g.columns);
    t.line + (t.col + i) / g.columns
  }

  lemma DivIsNat(a: nat, b: nat)
    requires b > 0
    ensures a / b >= 0
  {
  }

  function ColumnOf(g: Grid, t: Term, i: nat): (c: nat)
    requires g.columns > 0
    ensures c < g.columns
  {
    (t.col + i) % g.columns
  }

  /** The cell of byte `i` has not been reused since. */
  predicate StillKept(g: Grid, t: Term, n: nat, i: nat)
    requires g.columns > 0
  {
    LineOf(g, t, n) < LineOf(g, t, i) + SCROLLBACK
  }

  /** A printable string is laid out row by row: byte `i` stands at the cell `i` places after the cursor, counted over line
      ends, as long as the ring still holds that line; and the cursor ends after the last. */
  lemma {:induction false} Wrapped(g: Grid, t: Term, text: seq<byte>)
    requires Fits(g, t) && t.col < g.columns && g.rows > 0 && forall c <- text :: Printable(c)
    ensures var u := TypedAll(g, t, text);
            && (u.line, u.col) == (LineOf(g, t, |text|), ColumnOf(g, t, |text|))
            && forall i: nat :: i < |text| && StillKept(g, t, |text|, i) ==>
                 At(u, LineOf(g, t, i), ColumnOf(g, t, i)) == Cell(text[i], g.foreground, g.background)
    decreases |text|
  {
    hide Typed, LineOf, ColumnOf, CellIndex;
    var u := TypedAll(g, t, text);
    if text == [] {
      Places(g, t, 0);
    } else {
      var n := |text| - 1;
      var s := text[..n];
      Wrapped(g, t, s);
      var v := TypedAll(g, t, s);
      assert text[n] in text && forall c <- s :: c in text;
      PrintableByte(g, v, text[n]);
      Places(g, t, n);
      forall i: nat | i < |text| && StillKept(g, t, |text|, i)
        ensures At(u, LineOf(g, t, i), ColumnOf(g, t, i)) == Cell(text[i], g.foreground, g.background)
      {
        if i < n { EarlierStays(g, t, n, i); }
      }
    }
  }

  lemma Places(g: Grid, t: Term, n: nat)
    requires Fits(g, t) && t.col < g.columns
    ensures LineOf(g, t, 0) == t.line && ColumnOf(g, t, 0) == t.col
    ensures LineOf(g, t, n + 1) == LineOf(g, t, n) + (ColumnOf(g, t, n) + 1) / g.columns
    ensures ColumnOf(g, t, n + 1) == (ColumnOf(g, t, n) + 1) % g.columns
    ensures LineOf(g, t, n) <= LineOf(g, t, n + 1) <= LineOf(g, t, n) + 1
  {
    var a, w := t.col + n, g.columns;
    Euclid(a, w);
    NextColumn(w, a % w);
    if a % w + 1 == w { Quotient(a + 1, w, a / w + 1, 0); } else { Quotient(a + 1, w, a / w, a % w + 1); }
    Quotient(t.col, w, 0, t.col);
  }

  lemma Euclid(a: nat, w: nat)
    requires w > 0
    ensures a == a / w * w + a % w && 0 <= a % w < w && a / w >= 0
  {
  }

  lemma Quotient(a: nat, w: nat, q: nat, r: nat)
    requires w > 0 && a == q * w + r && r < w
    ensures a / w == q && a % w == r
  {
    Euclid(a, w);
    var p := a / w;
    if p < q { Multiples(p + 1, q, w); }
    if q < p { Multiples(q + 1, p, w); }
  }

  lemma Multiples(a: nat, b: nat, w: nat)
    requires a <= b
    ensures a * w <= b * w
  {
  }

  /** Different bytes of the string go to different cells while the ring holds both lines. */
  lemma EarlierStays(g: Grid, t: Term, n: nat, i: nat)
    requires Fits(g, t) && t.col < g.columns && i < n && StillKept(g, t, n + 1, i)
    ensures StillKept(g, t, n, i)
    ensures !(SameSlot(LineOf(g, t, i), LineOf(g, t, n)) && ColumnOf(g, t, i) == ColumnOf(g, t, n))
    ensures LineOf(g, t, n + 1) > LineOf(g, t, n) ==> !SameSlot(LineOf(g, t, i), LineOf(g, t, n + 1))
  {
    hide SameSlot;
    Places(g, t, n);
    Ordered(g, t, i, n);
    var a, b := LineOf(g, t, i), LineOf(g, t, n);
    if a < b { SlotsDiffer(a, b); }
    if a < b + 1 { if b + 1 < a + SCROLLBACK { SlotsDiffer(a, b + 1); } }
  }

  lemma Ordered(g: Grid, t: Term, i: nat, n: nat)
    requires g.columns > 0 && i < n
    ensures LineOf(g, t, i) <= LineOf(g, t, n)
    ensures LineOf(g, t, i) == LineOf(g, t, n) ==> ColumnOf(g, t, i) < ColumnOf(g, t, n)
  {
    var w := g.columns;
    Euclid(t.col + i, w);
    Euclid(t.col + n, w);
    var p, q := (t.col + i) / w, (t.col + n) / w;
    if q < p { Multiples(q + 1, p, w); }
  }

  lemma SlotsDiffer(a: nat, b: nat)
    requires a < b < a + SCROLLBACK
    ensures !SameSlot(a, b)
  {
    var q := a / SCROLLBACK;
    assert a == q * SCROLLBACK + a % SCROLLBACK;
    assert b / SCROLLBACK == q || b / SCROLLBACK == q + 1;
  }
}
