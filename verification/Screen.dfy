/** One text screen on its own: 25 rows of 80 cells at the start of a 4 KB page, and a cursor.
    The main result shows it to be a window sliding down an endless sheet of paper. */
module Screens {
  import opened Prelude

  const COLS := 80
  const ROWS := 25
  const CELLS := 2000
  const PAGE := 2048  // cells in a 4096-byte page; the last 48 are never displayed

  datatype Cell = Cell(ch: byte, attr: byte)
  datatype Screen = Screen(page: seq<Cell>, x: int, y: int)

  predicate OnScreen(s: Screen) {
    |s.page| == PAGE && 0 <= s.x < COLS && 0 <= s.y < ROWS
  }

  function Blank(attr: byte): Cell { Cell(SPACE, attr) }

  predicate IsNewline(c: byte) { c == NEWLINE || c == 13 }

  /** Rows 1..24 move up one, row 24 becomes blank. */
  function Shifted(page: seq<Cell>, attr: byte): (r: seq<Cell>)
    requires |page| == PAGE
    ensures |r| == PAGE
  {
    seq(PAGE, i requires 0 <= i < PAGE =>
      if i < CELLS - COLS then page[i + COLS] else if i < CELLS then Blank(attr) else page[i])
  }

  function NextRow(s: Screen, attr: byte): (r: Screen)
    requires OnScreen(s)
    ensures OnScreen(r)
  {
    if s.y == ROWS - 1 then Screen(Shifted(s.page, attr), 0, ROWS - 1) else s.(x := 0, y := s.y + 1)
  }

  function Offset(s: Screen): int { COLS * s.y + s.x }

  function Put(s: Screen, attr: byte, c: byte): (r: Screen)
    requires OnScreen(s)
    ensures OnScreen(r)
  {
    if IsNewline(c) then NextRow(s, attr)
    else
      var w := s.(page := s.page[Offset(s) := Cell(c, attr)]);
      if s.x == COLS - 1 then NextRow(w, attr) else w.(x := s.x + 1)
  }

  function PutAll(s: Screen, attr: byte, cs: seq<byte>): (r: Screen)
    requires OnScreen(s)
    ensures OnScreen(r)
  {
    if cs == [] then s else Put(PutAll(s, attr, cs[..|cs| - 1]), attr, cs[|cs| - 1])
  }

  /** A cleared screen, whatever the hidden tail of the page holds. */
  function Cleared(s: Screen, attr: byte): (r: Screen)
    requires |s.page| == PAGE
    ensures OnScreen(r)
  {
    Screen(seq(CELLS, _ => Blank(attr)) + s.page[CELLS..], 0, 0)
  }

  /** Backspace: blank the cell before the cursor and stand on it. */
  function Erase(s: Screen, attr: byte): (r: Screen)
    requires OnScreen(s)
    ensures OnScreen(r)
  {
    if Offset(s) == 0 then s else
      var o := Offset(s) - 1;
      Screen(s.page[o := Blank(attr)], o % COLS, o / COLS)
  }

  /** `terminal_write` skips NUL bytes. */
  function WithoutNul(cs: seq<byte>): seq<byte> {
    if cs == [] then []
    else if cs[|cs| - 1] == NUL then WithoutNul(cs[..|cs| - 1])
    else WithoutNul(cs[..|cs| - 1]) + [cs[|cs| - 1]]
  }

  /** It skips nothing else: this is the only function that respects concatenation and does so byte by
      byte. */
  lemma {:induction false} WithoutNulIsByByte(a: seq<byte>, b: seq<byte>, c: byte)
    ensures WithoutNul(a + b) == WithoutNul(a) + WithoutNul(b)
    ensures WithoutNul([c]) == if c == 0 then [] else [c]
    ensures NUL !in WithoutNul(a)
  {
    if b == [] {
      assert a + b == a;
      if a != [] { WithoutNulIsByByte(a[..|a| - 1], [], c); }
    } else {
      var n := |b| - 1;
      assert (a + b)[..|a + b| - 1] == a + b[..n];
      WithoutNulIsByByte(a, b[..n], c);
    }
  }

  // ---------- what one byte does to the cursor, and how it is undone ----------

  /** A byte starts a row exactly if it is a line feed or a carriage return or fills the last column;
      below the last row there is no further one. */
  lemma CursorAfterByte(s: Screen, attr: byte, c: byte)
    requires OnScreen(s)
    ensures var r := Put(s, attr, c);
            && (r.x == 0 <==> c == 10 || c == 13 || s.x == 79)
            && (r.x != 0 ==> r.x == s.x + 1 && r.y == s.y)
            && (r.x == 0 ==> r.y == if s.y == 24 then 24 else s.y + 1)
  {
  }

  /** Erasing undoes a character exactly if it was put on a blank cell. */
  lemma EraseUndoesPutIff(s: Screen, attr: byte, c: byte)
    requires OnScreen(s) && !IsNewline(c) && Offset(s) < CELLS - 1
    ensures Erase(Put(s, attr, c), attr) == s <==> s.page[Offset(s)] == Cell(32, attr)
  {
    var r, o := Put(s, attr, c), Offset(s);
    assert Offset(r) == o + 1;
    if s.page[o] == Cell(32, attr) {
      assert r.page[o := Blank(attr)] == s.page;
    } else {
      assert Erase(r, attr).page[o] == Cell(32, attr);
    }
  }

  function Erases(s: Screen, attr: byte, n: nat): (r: Screen)
    requires OnScreen(s)
    ensures OnScreen(r)
    decreases n
  {
    if n == 0 then s else Erases(Erase(s, attr), attr, n - 1)
  }

  ghost predicate BlankFrom(s: Screen, attr: byte, o: int) {
    OnScreen(s) && 0 <= o && forall k :: o <= k < CELLS ==> s.page[k] == Cell(32, attr)
  }

  /** Text on the blank rest of a screen does not scroll, and leaves what is behind it blank. */
  lemma {:induction false} TextOnBlankCells(s: Screen, attr: byte, cs: seq<byte>)
    requires BlankFrom(s, attr, Offset(s)) && Offset(s) + |cs| < CELLS
    requires forall i :: 0 <= i < |cs| ==> !IsNewline(cs[i])
    ensures var r := PutAll(s, attr, cs); Offset(r) == Offset(s) + |cs| && BlankFrom(r, attr, Offset(r))
  {
    if cs != [] { TextOnBlankCells(s, attr, cs[..|cs| - 1]); }
  }

  /** As many backspaces as characters bring the screen back, across row ends. */
  lemma {:induction false} ErasesUndoText(s: Screen, attr: byte, cs: seq<byte>)
    requires BlankFrom(s, attr, Offset(s)) && Offset(s) + |cs| < CELLS
    requires forall i :: 0 <= i < |cs| ==> !IsNewline(cs[i])
    ensures Erases(PutAll(s, attr, cs), attr, |cs|) == s
  {
    if cs != [] {
      var n := |cs| - 1;
      TextOnBlankCells(s, attr, cs[..n]);
      EraseUndoesPutIff(PutAll(s, attr, cs[..n]), attr, cs[n]);
      ErasesUndoText(s, attr, cs[..n]);
    }
  }

  lemma {:induction false} PutAllAppend(s: Screen, attr: byte, a: seq<byte>, b: seq<byte>)
    requires OnScreen(s)
    ensures PutAll(s, attr, a + b) == PutAll(PutAll(s, attr, a), attr, b)
  {
    if b == [] {
      assert a + b == a;
    } else {
      var n := |b| - 1;
      assert (a + b)[..|a + b| - 1] == a + b[..n];
      PutAllAppend(s, attr, a, b[..n]);
    }
  }

  // ---------- the sheet of paper ----------

  /** Where the pen stands on an endless sheet 80 columns wide after writing cs. */
  function Pen(cs: seq<byte>): nat {
    if cs == [] then 0
    else if IsNewline(cs[|cs| - 1]) then (Pen(cs[..|cs| - 1]) / COLS + 1) * COLS
    else Pen(cs[..|cs| - 1]) + 1
  }

  /** What that sheet shows at position k (row k / 80, column k % 80). */
  function Ink(cs: seq<byte>, attr: byte, k: nat): Cell {
    if cs == [] then Blank(attr)
    else if !IsNewline(cs[|cs| - 1]) && Pen(cs[..|cs| - 1]) == k then Cell(cs[|cs| - 1], attr)
    else Ink(cs[..|cs| - 1], attr, k)
  }

  /** First visible row while the pen is in this one: its row is kept on the screen. */
  function TopRow(row: nat): nat { if row < ROWS then 0 else row - (ROWS - 1) }

  function FirstRow(cs: seq<byte>): nat { TopRow(Pen(cs) / COLS) }

  lemma {:induction false} NothingBeyondThePen(cs: seq<byte>, attr: byte, k: nat)
    requires Pen(cs) <= k
    ensures Ink(cs, attr, k) == Blank(attr)
  {
    if cs != [] { NothingBeyondThePen(cs[..|cs| - 1], attr, k); }
  }

  ghost predicate Window(page: seq<Cell>, cs: seq<byte>, attr: byte, top: nat)
    requires |page| == PAGE
  {
    forall k :: 0 <= k < CELLS ==> page[k] == Ink(cs, attr, COLS * top + k)
  }

  /** The screen shows the sheet from FirstRow on, and its cursor is the pen. */
  ghost predicate Shows(r: Screen, cs: seq<byte>, attr: byte)
    requires OnScreen(r)
  {
    && r.x == Pen(cs) % COLS && r.y == Pen(cs) / COLS - FirstRow(cs)
    && Window(r.page, cs, attr, FirstRow(cs))
  }

  lemma WindowAfterByte(page: seq<Cell>, cs: seq<byte>, attr: byte, top: nat, c: byte)
    requires |page| == PAGE && Window(page, cs, attr, top)
    requires COLS * top <= Pen(cs) < COLS * top + CELLS
    ensures Window(if IsNewline(c) then page else page[Pen(cs) - COLS * top := Cell(c, attr)], cs + [c], attr, top)
  {
    assert (cs + [c])[..|cs|] == cs;
  }

  lemma CellAfterShift(page: seq<Cell>, cs: seq<byte>, attr: byte, top: nat, k: nat)
    requires |page| == PAGE && Window(page, cs, attr, top)
    requires Pen(cs) <= COLS * top + CELLS && k < CELLS
    ensures Shifted(page, attr)[k] == Ink(cs, attr, COLS * (top + 1) + k)
  {
    if k < CELLS - COLS {
      assert Shifted(page, attr)[k] == page[k + COLS];
      assert COLS * (top + 1) + k == COLS * top + (k + COLS);
    } else {
      NothingBeyondThePen(cs, attr, COLS * (top + 1) + k);
    }
  }

  lemma WindowAfterShift(page: seq<Cell>, cs: seq<byte>, attr: byte, top: nat)
    requires |page| == PAGE && Window(page, cs, attr, top)
    requires Pen(cs) <= COLS * top + CELLS
    ensures Window(Shifted(page, attr), cs, attr, top + 1)
  {
    forall k | 0 <= k < CELLS ensures Shifted(page, attr)[k] == Ink(cs, attr, COLS * (top + 1) + k) {
      CellAfterShift(page, cs, attr, top, k);
    }
  }

  lemma RowAndColumn(n: nat, row: nat, col: nat)
    requires n == COLS * row + col && col < COLS
    ensures n / COLS == row && n % COLS == col
  {
  }

  /** The pen goes to the start of the row below row `row`. */
  lemma NextRowMovesTheWindow(r: Screen, d: seq<byte>, attr: byte, row: nat)
    requires OnScreen(r) && Window(r.page, d, attr, TopRow(row))
    requires r.y == row - TopRow(row) && Pen(d) == COLS * (row + 1)
    ensures Shows(NextRow(r, attr), d, attr)
  {
    RowAndColumn(Pen(d), row + 1, 0);
    if r.y == ROWS - 1 { WindowAfterShift(r.page, d, attr, TopRow(row)); }
  }

  lemma NewlineMovesTheWindow(r: Screen, cs: seq<byte>, attr: byte, c: byte, row: nat, col: nat)
    requires OnScreen(r) && r.x == col && r.y == row - TopRow(row) && Window(r.page, cs, attr, TopRow(row))
    requires Pen(cs) == COLS * row + col && IsNewline(c)
    ensures Shows(Put(r, attr, c), cs + [c], attr)
  {
    var d := cs + [c];
    assert d[..|d| - 1] == cs;
    RowAndColumn(Pen(cs), row, col);
    WindowAfterByte(r.page, cs, attr, TopRow(row), c);
    NextRowMovesTheWindow(r, d, attr, row);
  }

  lemma CharacterMovesTheWindow(r: Screen, cs: seq<byte>, attr: byte, c: byte, row: nat, col: nat)
    requires OnScreen(r) && r.x == col && r.y == row - TopRow(row) && Window(r.page, cs, attr, TopRow(row))
    requires Pen(cs) == COLS * row + col && !IsNewline(c)
    ensures Shows(Put(r, attr, c), cs + [c], attr)
  {
    var d := cs + [c];
    assert d[..|d| - 1] == cs;
    WindowAfterByte(r.page, cs, attr, TopRow(row), c);
    assert Offset(r) == Pen(cs) - COLS * TopRow(row);
    var w := r.(page := r.page[Offset(r) := Cell(c, attr)]);
    if col == COLS - 1 {
      NextRowMovesTheWindow(w, d, attr, row);
    } else {
      RowAndColumn(Pen(d), row, col + 1);
    }
  }

  lemma PutMovesTheWindow(r: Screen, cs: seq<byte>, attr: byte, c: byte)
    requires OnScreen(r) && Shows(r, cs, attr)
    ensures Shows(Put(r, attr, c), cs + [c], attr)
  {
    var row, col := Pen(cs) / COLS, Pen(cs) % COLS;
    if IsNewline(c) {
      NewlineMovesTheWindow(r, cs, attr, c, row, col);
    } else {
      CharacterMovesTheWindow(r, cs, attr, c, row, col);
    }
  }

  /** From a cleared screen, after any bytes at all, the screen shows rows FirstRow onward of the
      paper and its cursor is the pen. */
  lemma {:induction false} ScreenIsWindowOnPaper(s: Screen, attr: byte, cs: seq<byte>)
    requires |s.page| == PAGE
    ensures Shows(PutAll(Cleared(s, attr), attr, cs), cs, attr)
    ensures PutAll(Cleared(s, attr), attr, cs).page[CELLS..] == s.page[CELLS..]
  {
    if cs != [] {
      var init := cs[..|cs| - 1];
      ScreenIsWindowOnPaper(s, attr, init);
      PutMovesTheWindow(PutAll(Cleared(s, attr), attr, init), init, attr, cs[|cs| - 1]);
      assert init + [cs[|cs| - 1]] == cs;
    }
  }

  /** A run of printable bytes lies on the paper exactly as written, across row ends. */
  lemma {:induction false} PlainTextIsContiguous(cs: seq<byte>, attr: byte, k: nat)
    requires forall i :: 0 <= i < |cs| ==> !IsNewline(cs[i])
    ensures Pen(cs) == |cs|
    ensures Ink(cs, attr, k) == if k < |cs| then Cell(cs[k], attr) else Blank(attr)
  {
    if cs != [] { PlainTextIsContiguous(cs[..|cs| - 1], attr, k); }
  }
}
