/** Three terminals share the video page: it holds the displayed terminal's screen, while the
    others live in backing pages.  Every operation is proved to act on one terminal's logical
    screen exactly as it would on a screen of its own (module Screens). */
module Displays {
  import opened Prelude
  import opened Screens

  function Attr(t: int): byte
    requires 0 <= t < TERMINALS
  {
    [0xB, 0xD, 0xE][t]
  }

  // ---------- pages inside video memory ----------

  lemma OtherPage(v: seq<Cell>, v': seq<Cell>, base: nat, p: nat)
    requires |v| == |v'| && p + PAGE <= |v| && (p + PAGE <= base || base + PAGE <= p)
    requires forall k :: 0 <= k < |v| && !(base <= k < base + PAGE) ==> v'[k] == v[k]
    ensures v'[p..p + PAGE] == v[p..p + PAGE]
  {
  }

  lemma PageCopied(v: seq<Cell>, v': seq<Cell>, to: nat, from: nat)
    requires |v| == |v'| && to + PAGE <= |v| && from + PAGE <= |v|
    requires forall k :: to <= k < to + PAGE ==> v'[k] == v[k - to + from]
    ensures v'[to..to + PAGE] == v[from..from + PAGE]
  {
    var q, q' := v[from..from + PAGE], v'[to..to + PAGE];
    forall i | 0 <= i < PAGE ensures q'[i] == q[i] {
      assert v'[to + i] == v[from + i];
    }
  }

  lemma ShiftedPage(v: seq<Cell>, v': seq<Cell>, base: nat, attr: byte)
    requires |v| == |v'| && base + PAGE <= |v|
    requires forall k :: base <= k < base + CELLS - COLS ==> v'[k] == v[k + COLS]
    requires forall k :: base + CELLS - COLS <= k < base + CELLS ==> v'[k] == Blank(attr)
    requires forall k :: base + CELLS <= k < base + PAGE ==> v'[k] == v[k]
    ensures v'[base..base + PAGE] == Shifted(v[base..base + PAGE], attr)
  {
    var q, q' := v[base..base + PAGE], v'[base..base + PAGE];
    forall k | 0 <= k < PAGE ensures q'[k] == Shifted(q, attr)[k] {
      assert q'[k] == v'[base + k] && q[k] == v[base + k];
      if k < CELLS - COLS { assert v'[base + k] == v[base + k + COLS]; }
    }
  }

  ghost predicate BlankAt(v: seq<Cell>, base: int, attr: byte) {
    0 <= base && base + CELLS <= |v| && forall k :: base <= k < base + CELLS ==> v[k] == Blank(attr)
  }

  lemma StaysBlank(v: seq<Cell>, v': seq<Cell>, base: nat, p: int, attr: byte)
    requires BlankAt(v, p, attr) && |v| == |v'| && (p + PAGE <= base || base + PAGE <= p)
    requires forall k :: 0 <= k < |v| && !(base <= k < base + PAGE) ==> v'[k] == v[k]
    ensures BlankAt(v', p, attr)
  {
  }

  lemma ClearedPage(v: seq<Cell>, v': seq<Cell>, base: nat, attr: byte)
    requires |v| == |v'| && base + PAGE <= |v|
    requires BlankAt(v', base, attr)
    requires forall k :: base + CELLS <= k < base + PAGE ==> v'[k] == v[k]
    ensures v'[base..base + PAGE] == seq(CELLS, _ => Blank(attr)) + v[base..base + PAGE][CELLS..]
  {
  }

  // ---------- the logical screens behind memory and cursor fields ----------

  /** Which part of video memory holds terminal t's screen. */
  function PageStart(cur: int, t: int): int { if t == cur then 0 else (t + 1) * PAGE }

  ghost predicate StoredAt(v: seq<Cell>, xs: seq<int>, ys: seq<int>, cur: int, screens: seq<Screen>, t: int) {
    && |v| == (TERMINALS + 1) * PAGE && |xs| == |ys| == |screens| == TERMINALS && 0 <= t < TERMINALS
    && screens[t].page == v[PageStart(cur, t)..PageStart(cur, t) + PAGE]
    && screens[t].x == xs[t] && screens[t].y == ys[t]
  }

  ghost predicate Represents(v: seq<Cell>, xs: seq<int>, ys: seq<int>, cur: int, screens: seq<Screen>) {
    && |v| == (TERMINALS + 1) * PAGE && |xs| == |ys| == |screens| == TERMINALS && 0 <= cur < TERMINALS
    && (forall t :: 0 <= t < TERMINALS ==> OnScreen(screens[t]))
    && (forall t :: 0 <= t < TERMINALS ==> StoredAt(v, xs, ys, cur, screens, t))
  }

  /** Writing inside the page of one terminal changes that terminal's screen only. */
  lemma OneScreenChanges(v: seq<Cell>, xs: seq<int>, ys: seq<int>, cur: int, screens: seq<Screen>, t: int,
                         v': seq<Cell>, s: Screen)
    requires Represents(v, xs, ys, cur, screens) && 0 <= t < TERMINALS && OnScreen(s) && |v'| == |v|
    requires forall k :: 0 <= k < |v| && !(PageStart(cur, t) <= k < PageStart(cur, t) + PAGE) ==> v'[k] == v[k]
    requires v'[PageStart(cur, t)..PageStart(cur, t) + PAGE] == s.page
    ensures Represents(v', xs[t := s.x], ys[t := s.y], cur, screens[t := s])
  {
    var xs', ys', screens' := xs[t := s.x], ys[t := s.y], screens[t := s];
    forall u | 0 <= u < TERMINALS ensures StoredAt(v', xs', ys', cur, screens', u) {
      assert StoredAt(v, xs, ys, cur, screens, u);
      if u != t { OtherPage(v, v', PageStart(cur, t), PageStart(cur, u)); }
    }
  }

  lemma SwitchKeepsScreens(v: seq<Cell>, xs: seq<int>, ys: seq<int>, cur: int, screens: seq<Screen>,
                           v': seq<Cell>, t: int)
    requires Represents(v, xs, ys, cur, screens) && 0 <= t < TERMINALS && |v'| == |v|
    requires v'[0..PAGE] == if t == cur then v[0..PAGE] else v[(t + 1) * PAGE..(t + 1) * PAGE + PAGE]
    requires v'[(cur + 1) * PAGE..(cur + 1) * PAGE + PAGE] == v[0..PAGE]
    requires forall k :: PAGE <= k < |v| && !((cur + 1) * PAGE <= k < (cur + 1) * PAGE + PAGE) ==> v'[k] == v[k]
    ensures Represents(v', xs, ys, t, screens)
  {
    forall u | 0 <= u < TERMINALS ensures StoredAt(v', xs, ys, t, screens, u) {
      assert StoredAt(v, xs, ys, cur, screens, u);
      if u != t && u != cur {
        assert v'[(u + 1) * PAGE..(u + 1) * PAGE + PAGE] == v[(u + 1) * PAGE..(u + 1) * PAGE + PAGE];
      }
    }
  }

  /** The screens in the four pages at start-up, terminal 0 displayed. */
  ghost function StartScreens(v: seq<Cell>): (screens: seq<Screen>)
    requires |v| == (TERMINALS + 1) * PAGE
    ensures |screens| == TERMINALS
    ensures forall t :: 0 <= t < TERMINALS ==> screens[t] == Screen(v[PageStart(0, t)..PageStart(0, t) + PAGE], 0, 0)
  {
    seq(TERMINALS, t requires 0 <= t < TERMINALS => Screen(v[PageStart(0, t)..PageStart(0, t) + PAGE], 0, 0))
  }

  lemma AllCleared(v: seq<Cell>, xs: seq<int>, ys: seq<int>)
    requires |v| == (TERMINALS + 1) * PAGE && xs == ys == [0, 0, 0]
    requires forall t :: 0 <= t < TERMINALS ==> BlankAt(v, PageStart(0, t), Attr(t))
    ensures Represents(v, xs, ys, 0, StartScreens(v))
    ensures forall t :: 0 <= t < TERMINALS ==> StartScreens(v)[t] == Cleared(StartScreens(v)[t], Attr(t))
  {
    var screens := StartScreens(v);
    forall t | 0 <= t < TERMINALS
      ensures StoredAt(v, xs, ys, 0, screens, t)
      ensures screens[t] == Cleared(screens[t], Attr(t))
    {
      ClearedPage(v, v, PageStart(0, t), Attr(t));
    }
  }

  /** What `terminal_write` has printed once i bytes are done. */
  function Written(s: Screen, attr: byte, bytes: seq<byte>, i: nat): (r: Screen)
    requires OnScreen(s) && i <= |bytes|
    ensures OnScreen(r)
  {
    PutAll(s, attr, WithoutNul(bytes[..i]))
  }

  lemma WriteOne(s: Screen, attr: byte, bytes: seq<byte>, i: nat)
    requires OnScreen(s) && i < |bytes|
    ensures Written(s, attr, bytes, i + 1) ==
              if bytes[i] == NUL then Written(s, attr, bytes, i) else Put(Written(s, attr, bytes, i), attr, bytes[i])
  {
    assert bytes[..i + 1][..i] == bytes[..i];
    var kept := WithoutNul(bytes[..i]);
    assert (kept + [bytes[i]])[..|kept|] == kept;
  }

  /** The column arithmetic at the end of `putc`. */
  lemma Wrapped(x: int, y: int)
    requires 0 <= x <= COLS && 0 <= y < ROWS
    ensures x % COLS == (if x == COLS then 0 else x)
    ensures (y + x % COLS / COLS) % ROWS == y
  {
  }

  class Display {
    const vmem: array<Cell>     // video page, then the three backing pages
    const cursorX: array<int>
    const cursorY: array<int>
    var writeIdx: int           // write_term_idx: 0, or 1 + a terminal that is not displayed
    var cur: int                // cur_terminal
    var hardwareCursor: int

    ghost var screens: seq<Screen>  // the three logical screens

    ghost predicate Shape()
      reads this, vmem, cursorX, cursorY
    {
      && vmem.Length == (TERMINALS + 1) * PAGE
      && cursorX.Length == cursorY.Length == TERMINALS && cursorX != cursorY
      && 0 <= cur < TERMINALS && 0 <= writeIdx <= TERMINALS
      && forall t :: 0 <= t < TERMINALS ==> 0 <= cursorX[t] < COLS && 0 <= cursorY[t] < ROWS
    }

    ghost predicate Valid()
      reads this, vmem, cursorX, cursorY
    {
      && Shape() && writeIdx - 1 != cur
      && Represents(vmem[..], cursorX[..], cursorY[..], cur, screens)
    }

    /** The terminal that output goes to. */
    function Target(): (t: int)
      reads this
    {
      if writeIdx == 0 then cur else writeIdx - 1
    }

    /** The text lies in terminal t's page right before t's cursor. */
    ghost predicate StandsBeforeCursor(t: int, text: seq<byte>)
      reads this, vmem, cursorX, cursorY
      requires Valid() && 0 <= t < TERMINALS
    {
      var page, cursor := PageStart(cur, t), COLS * cursorY[t] + cursorX[t];
      && |text| <= cursor && page + cursor <= vmem.Length
      && forall k :: 0 <= k < |text| ==> vmem[page + cursor - |text| + k] == Cell(text[k], Attr(t))
    }

    lemma ScreenInMemory(t: int)
      requires Valid() && 0 <= t < TERMINALS
      ensures OnScreen(screens[t]) && Offset(screens[t]) == COLS * cursorY[t] + cursorX[t]
      ensures PageStart(cur, t) + PAGE <= vmem.Length
      ensures forall k :: 0 <= k < PAGE ==> screens[t].page[k] == vmem[PageStart(cur, t) + k]
    {
      assert StoredAt(vmem[..], cursorX[..], cursorY[..], cur, screens, t);
    }

    lemma DisplayedInMemory()
      requires Valid()
      ensures OnScreen(screens[cur]) && Offset(screens[cur]) == 80 * cursorY[cur] + cursorX[cur]
      ensures forall k :: 0 <= k < 2000 ==> vmem[k] == screens[cur].page[k]
    {
      assert StoredAt(vmem[..], cursorX[..], cursorY[..], cur, screens, cur);
    }

    /** Text before the cursor of a logical screen stands there in memory. */
    lemma TextInMemory(t: int, text: seq<byte>)
      requires Valid() && 0 <= t < TERMINALS && OnScreen(screens[t]) && |text| <= Offset(screens[t])
      requires forall i :: 0 <= i < |text| ==>
          screens[t].page[Offset(screens[t]) - |text| + i] == Cell(text[i], Attr(t))
      ensures StandsBeforeCursor(t, text)
    {
      ScreenInMemory(t);
    }

    ghost predicate CursorShown()
      reads this, vmem, cursorX, cursorY
      requires Valid()
    {
      hardwareCursor == Offset(screens[cur])
    }

    constructor ()
      ensures Valid() && CursorShown() && writeIdx == 0 && cur == 0
      ensures forall t :: 0 <= t < TERMINALS ==> screens[t] == Cleared(screens[t], Attr(t))
      ensures forall k :: 0 <= k < 2000 ==> vmem[k] == Cell(32, 0xB)
      ensures forall k :: 0x1000 <= k < 0x1000 + 2000 ==> vmem[k] == Cell(32, 0xD)
      ensures forall k :: 0x1800 <= k < 0x1800 + 2000 ==> vmem[k] == Cell(32, 0xE)
      ensures fresh(vmem) && fresh(cursorX) && fresh(cursorY)
    {
      vmem := new Cell[(TERMINALS + 1) * PAGE](_ => Cell(NUL, NUL));
      cursorX := new int[TERMINALS](_ => 0);
      cursorY := new int[TERMINALS](_ => 0);
      cur, writeIdx, hardwareCursor := 0, 0, 0;
      new;
      ClearBacking();
      writeIdx := 0;
      ghost var v := vmem[..];
      ClearScreen();
      forall t | 0 <= t < TERMINALS ensures BlankAt(vmem[..], PageStart(0, t), Attr(t)) {
        if t > 0 { StaysBlank(v, vmem[..], 0, (t + 1) * PAGE, Attr(t)); }
      }
      BlankInMemory(PageStart(0, 1), Attr(1));
      BlankInMemory(PageStart(0, 2), Attr(2));
      screens := StartScreens(vmem[..]);
      AllCleared(vmem[..], cursorX[..], cursorY[..]);
    }

    lemma BlankInMemory(base: nat, attr: byte)
      requires BlankAt(vmem[..], base, attr)
      ensures forall k :: base <= k < base + CELLS ==> vmem[k] == Blank(attr)
    {
      assert forall k :: base <= k < base + CELLS ==> vmem[k] == vmem[..][k];
    }

    /** The loop of `terminal_init`. */
    method ClearBacking()
      requires Shape() && cur == 0 && cursorX[..] == cursorY[..] == [0, 0, 0]
      modifies vmem, this`writeIdx, this`hardwareCursor, cursorX, cursorY
      ensures Shape() && cursorX[..] == cursorY[..] == [0, 0, 0]
      ensures forall t :: 0 <= t < TERMINALS ==> BlankAt(vmem[..], (t + 1) * PAGE, Attr(t))
    {
      var i := 0;
      while i < TERMINALS
        invariant 0 <= i <= TERMINALS && Shape() && cursorX[..] == cursorY[..] == [0, 0, 0]
        invariant forall t :: 0 <= t < i ==> BlankAt(vmem[..], (t + 1) * PAGE, Attr(t))
      {
        ghost var v := vmem[..];
        writeIdx := i + 1;
        ClearScreen();
        forall t | 0 <= t < i ensures BlankAt(vmem[..], (t + 1) * PAGE, Attr(t)) {
          StaysBlank(v, vmem[..], (i + 1) * PAGE, (t + 1) * PAGE, Attr(t));
        }
        i := i + 1;
      }
    }

    method UpdateTermStruct(x: int, y: int)
      requires Shape() && 0 <= x < COLS && 0 <= y < ROWS
      modifies cursorX, cursorY
      ensures Shape()
      ensures cursorX[..] == old(cursorX[..])[Target() := x] && cursorY[..] == old(cursorY[..])[Target() := y]
    {
      cursorX[Target()] := x;
      cursorY[Target()] := y;
    }

    method SetCursor(x: int, y: int)
      requires Shape() && 0 <= x < COLS && 0 <= y < ROWS
      modifies this`hardwareCursor, cursorX, cursorY
      ensures Shape()
      ensures hardwareCursor == if writeIdx == 0 then y * COLS + x else old(hardwareCursor)
      ensures cursorX[..] == old(cursorX[..])[Target() := x] && cursorY[..] == old(cursorY[..])[Target() := y]
    {
      if writeIdx == 0 {
        hardwareCursor := y * COLS + x;
      }
      UpdateTermStruct(x, y);
    }

    method ClearScreen()
      requires Shape()
      modifies vmem, this`hardwareCursor, cursorX, cursorY
      ensures Shape()
      ensures forall k :: 0 <= k < vmem.Length ==>
                vmem[k] ==
                  if writeIdx * PAGE <= k < writeIdx * PAGE + CELLS then Blank(Attr(Target())) else old(vmem[k])
      ensures hardwareCursor == if writeIdx == 0 then 0 else old(hardwareCursor)
      ensures cursorX[..] == old(cursorX[..])[Target() := 0] && cursorY[..] == old(cursorY[..])[Target() := 0]
    {
      var base := writeIdx * PAGE;
      var attr := Attr(Target());
      var i := 0;
      while i < CELLS
        invariant 0 <= i <= CELLS
        invariant forall k :: 0 <= k < vmem.Length ==>
                    vmem[k] == if base <= k < base + i then Blank(attr) else old(vmem[k])
        modifies vmem
      {
        vmem[base + i] := Blank(attr);
        i := i + 1;
      }
      SetCursor(0, 0);
    }

    /** Clearing by Ctrl-L: only the target's screen becomes a cleared one. */
    method Clear()
      requires Valid()
      modifies vmem, this`hardwareCursor, this`screens, cursorX, cursorY
      ensures Valid() && (old(CursorShown()) ==> CursorShown())
      ensures screens == old(screens)[Target() := Cleared(old(screens)[Target()], Attr(Target()))]
    {
      ghost var t, v, xs, ys := Target(), vmem[..], cursorX[..], cursorY[..];
      assert StoredAt(v, xs, ys, cur, screens, t);
      ClearScreen();
      ClearedPage(v, vmem[..], PageStart(cur, t), Attr(t));
      OneScreenChanges(v, xs, ys, cur, screens, t, vmem[..], Cleared(screens[t], Attr(t)));
      screens := screens[t := Cleared(screens[t], Attr(t))];
    }

    /** Moves rows 1..24 up in place, front to back, and blanks the last row. */
    method ShiftCells(base: nat, attr: byte)
      requires base + PAGE <= vmem.Length
      modifies vmem
      ensures vmem[base..base + PAGE] == Shifted(old(vmem[base..base + PAGE]), attr)
      ensures forall k :: 0 <= k < vmem.Length && !(base <= k < base + PAGE) ==> vmem[k] == old(vmem[k])
    {
      ghost var v := vmem[..];
      var i := 0;
      while i < CELLS - COLS
        invariant 0 <= i <= CELLS - COLS
        invariant forall k :: base <= k < base + i ==> vmem[k] == v[k + COLS]
        invariant forall k :: 0 <= k < vmem.Length && !(base <= k < base + i) ==> vmem[k] == v[k]
      {
        vmem[base + i] := vmem[base + i + COLS];
        i := i + 1;
      }
      ghost var w := vmem[..];
      while i < CELLS
        invariant CELLS - COLS <= i <= CELLS
        invariant forall k :: base + CELLS - COLS <= k < base + i ==> vmem[k] == Blank(attr)
        invariant forall k :: 0 <= k < vmem.Length && !(base + CELLS - COLS <= k < base + i) ==> vmem[k] == w[k]
      {
        vmem[base + i] := Blank(attr);
        i := i + 1;
      }
      ShiftedPage(v, vmem[..], base, attr);
      assert vmem[..][base..base + PAGE] == vmem[base..base + PAGE];
      assert v[base..base + PAGE] == old(vmem[base..base + PAGE]);
    }

    method ShiftScreen()
      requires Valid()
      modifies vmem, this`hardwareCursor, this`screens, cursorX, cursorY
      ensures Valid() && (writeIdx == 0 || old(CursorShown()) ==> CursorShown())
      ensures var s := old(screens)[Target()];
              screens == old(screens)[Target() := Screen(Shifted(s.page, Attr(Target())), 0, ROWS - 1)]
    {
      ghost var t, v, xs, ys := Target(), vmem[..], cursorX[..], cursorY[..];
      assert StoredAt(v, xs, ys, cur, screens, t);
      ghost var s := Screen(Shifted(screens[t].page, Attr(t)), 0, ROWS - 1);
      ShiftCells(writeIdx * PAGE, Attr(Target()));
      SetCursor(0, ROWS - 1);
      assert vmem[..][PageStart(cur, t)..PageStart(cur, t) + PAGE] == s.page;
      OneScreenChanges(v, xs, ys, cur, screens, t, vmem[..], s);
      screens := screens[t := s];
    }

    method WriteCell(o: int, c: byte)
      requires Valid() && 0 <= o < CELLS
      modifies vmem, this`screens
      ensures Valid() && (old(CursorShown()) ==> CursorShown())
      ensures var s := old(screens)[Target()];
              screens == old(screens)[Target() := s.(page := s.page[o := Cell(c, Attr(Target()))])]
    {
      ghost var t, v, xs, ys := Target(), vmem[..], cursorX[..], cursorY[..];
      assert StoredAt(v, xs, ys, cur, screens, t);
      ghost var s := screens[t].(page := screens[t].page[o := Cell(c, Attr(t))]);
      vmem[writeIdx * PAGE + o] := Cell(c, Attr(Target()));
      assert vmem[..][PageStart(cur, t)..PageStart(cur, t) + PAGE] == s.page;
      assert xs[t := s.x] == xs && ys[t := s.y] == ys;
      OneScreenChanges(v, xs, ys, cur, screens, t, vmem[..], s);
      screens := screens[t := s];
    }

    /** `SetCursor` seen from the logical screens. */
    method MoveCursor(x: int, y: int)
      requires Valid() && 0 <= x < COLS && 0 <= y < ROWS
      modifies this`hardwareCursor, this`screens, cursorX, cursorY
      ensures Valid() && (writeIdx == 0 || old(CursorShown()) ==> CursorShown())
      ensures screens == old(screens)[Target() := old(screens)[Target()].(x := x, y := y)]
    {
      ghost var t, xs, ys := Target(), cursorX[..], cursorY[..];
      assert StoredAt(vmem[..], xs, ys, cur, screens, t);
      SetCursor(x, y);
      OneScreenChanges(vmem[..], xs, ys, cur, screens, t, vmem[..], screens[t].(x := x, y := y));
      screens := screens[t := screens[t].(x := x, y := y)];
    }

    /** The end of `putc`: column 80 is column 0, the row having been counted up already. */
    method WrapCursor(x: int, y: int)
      requires Valid() && 0 <= x <= COLS && 0 <= y < ROWS
      modifies this`hardwareCursor, this`screens, cursorX, cursorY
      ensures Valid() && (writeIdx == 0 || old(CursorShown()) ==> CursorShown())
      ensures screens == old(screens)[Target() := old(screens)[Target()].(x := if x == COLS then 0 else x, y := y)]
    {
      Wrapped(x, y);
      MoveCursor(x % COLS, (y + x % COLS / COLS) % ROWS);
    }

    method PutC(c: byte)
      requires Valid()
      modifies vmem, this`hardwareCursor, this`screens, cursorX, cursorY
      ensures Valid() && (old(CursorShown()) ==> CursorShown())
      ensures screens == old(screens)[Target() := Put(old(screens)[Target()], Attr(Target()), c)]
    {
      var x, y := cursorX[Target()], cursorY[Target()];
      assert x == screens[Target()].x && y == screens[Target()].y by {
        assert StoredAt(vmem[..], cursorX[..], cursorY[..], cur, screens, Target());
      }
      if c == NEWLINE || c == 13 {
        y, x := y + 1, 0;
        if y > ROWS - 1 {
          ShiftScreen();
          return;
        }
      } else {
        WriteCell(COLS * y + x, c);
        x := x + 1;
        if x > COLS - 1 {
          y := y + 1;
          if y > ROWS - 1 {
            ShiftScreen();
            return;
          }
        }
      }
      WrapCursor(x, y);
    }

    /** The keyboard handler's tests of the displayed terminal's cursor. */
    method AtOrigin() returns (b: bool)
      requires Valid() && writeIdx == 0
      ensures b == (Offset(screens[cur]) == 0)
    {
      assert StoredAt(vmem[..], cursorX[..], cursorY[..], cur, screens, cur);
      b := !(cursorX[cur] > 0 || cursorY[cur] > 0);
    }

    method OnLastRow() returns (b: bool)
      requires Valid() && writeIdx == 0
      ensures b == (screens[cur].y == ROWS - 1)
    {
      assert StoredAt(vmem[..], cursorX[..], cursorY[..], cur, screens, cur);
      b := cursorY[cur] == ROWS - 1;
    }

    /** The backspace case of the keyboard handler, after its test that there is room: the cursor steps
        back, its cell becomes a blank in the terminal's colour, and nothing else on the page changes. */
    method EraseLast()
      requires Valid() && writeIdx == 0 && Offset(screens[cur]) > 0
      modifies vmem, this`hardwareCursor, this`screens, cursorX, cursorY
      ensures Valid() && CursorShown()
      ensures screens == old(screens)[cur := Erase(old(screens)[cur], Attr(cur))]
      ensures hardwareCursor == old(80 * cursorY[cur] + cursorX[cur]) - 1
      ensures forall k :: 0 <= k < 2000 ==> vmem[k] == if k == hardwareCursor then Cell(32, Attr(cur)) else old(vmem[k])
    {
      DisplayedInMemory();
      StepBack();
      DisplayedInMemory();
    }

    method StepBack()
      requires Valid() && writeIdx == 0 && Offset(screens[cur]) > 0
      modifies vmem, this`hardwareCursor, this`screens, cursorX, cursorY
      ensures Valid() && CursorShown()
      ensures screens == old(screens)[cur := Erase(old(screens)[cur], Attr(cur))]
    {
      ghost var xs, ys := cursorX[..], cursorY[..];
      var x, y := cursorX[cur], cursorY[cur];
      assert x == screens[cur].x && y == screens[cur].y by {
        assert StoredAt(vmem[..], cursorX[..], cursorY[..], cur, screens, cur);
      }
      if x == 0 {
        x, y := COLS - 1, y - 1;
      } else {
        x := x - 1;
      }
      UpdateTermStruct(x, y);
      OneScreenChanges(vmem[..], xs, ys, cur, screens, cur, vmem[..], screens[cur].(x := x, y := y));
      screens := screens[cur := screens[cur].(x := x, y := y)];
      PutC(SPACE);
      MoveCursor(x, y);
    }

    method PutUnlessNul(c: byte)
      requires Valid()
      modifies vmem, this`hardwareCursor, this`screens, cursorX, cursorY
      ensures Valid() && (old(CursorShown()) ==> CursorShown())
      ensures var s := old(screens)[Target()];
              screens == old(screens)[Target() := if c == NUL then s else Put(s, Attr(Target()), c)]
    {
      if c != NUL {
        PutC(c);
      }
    }

    /** The loop of `terminal_write`. */
    method PutBytes(buf: array<byte>, nbytes: nat)
      requires Valid() && nbytes <= buf.Length
      modifies vmem, this`hardwareCursor, this`screens, cursorX, cursorY
      ensures Valid() && (old(CursorShown()) ==> CursorShown())
      ensures var s := old(screens)[Target()];
              screens == old(screens)[Target() := Written(s, Attr(Target()), buf[..nbytes], nbytes)]
    {
      ghost var t, s, attr, bytes := Target(), screens[Target()], Attr(Target()), buf[..nbytes];
      var i := 0;
      while i < nbytes
        invariant 0 <= i <= nbytes && Valid()
        invariant old(CursorShown()) ==> CursorShown()
        invariant screens == old(screens)[t := Written(s, attr, bytes, i)]
        modifies vmem, this`hardwareCursor, this`screens, cursorX, cursorY
      {
        WriteOne(s, attr, bytes, i);
        PutUnlessNul(buf[i]);
        i := i + 1;
      }
    }

    /** `terminal_write` of the process scheduled on terminal `scheduled`. */
    method TerminalWrite(scheduled: int, buf: array?<byte>, nbytes: nat) returns (r: int)
      requires Valid() && writeIdx == 0 && 0 <= scheduled < TERMINALS
      requires buf != null ==> nbytes <= buf.Length
      modifies vmem, this`hardwareCursor, this`writeIdx, this`screens, cursorX, cursorY
      ensures Valid() && writeIdx == 0 && (old(CursorShown()) ==> CursorShown())
      ensures if buf == null then r == -1 && screens == old(screens) else
                && r == nbytes
                && screens == old(screens)[scheduled := PutAll(old(screens)[scheduled], Attr(scheduled),
                                                               WithoutNul(buf[..nbytes]))]
    {
      if buf == null { return -1; }
      if scheduled != cur {
        writeIdx := scheduled + 1;
      }
      PutBytes(buf, nbytes);
      assert buf[..nbytes][..nbytes] == buf[..nbytes];
      writeIdx := 0;
      return nbytes;
    }

    method CopyPage(to: nat, from: nat)
      requires to + PAGE <= vmem.Length && from + PAGE <= vmem.Length
      requires to + PAGE <= from || from + PAGE <= to
      modifies vmem
      ensures vmem[to..to + PAGE] == old(vmem[from..from + PAGE])
      ensures forall k :: 0 <= k < vmem.Length && !(to <= k < to + PAGE) ==> vmem[k] == old(vmem[k])
    {
      var i := 0;
      while i < PAGE
        invariant 0 <= i <= PAGE
        invariant forall k :: to <= k < to + i ==> vmem[k] == old(vmem[k - to + from])
        invariant forall k :: 0 <= k < vmem.Length && !(to <= k < to + i) ==> vmem[k] == old(vmem[k])
      {
        vmem[to + i] := vmem[from + i];
        i := i + 1;
      }
      PageCopied(old(vmem[..]), vmem[..], to, from);
      assert vmem[..][to..to + PAGE] == vmem[to..to + PAGE];
      assert old(vmem[..])[from..from + PAGE] == old(vmem[from..from + PAGE]);
    }

    /** The displayed page goes to its backing page, and the wanted one comes to the front. */
    method SwapPages(t: int)
      requires Valid() && 0 <= t < TERMINALS
      modifies vmem
      ensures Represents(vmem[..], cursorX[..], cursorY[..], t, screens)
    {
      ghost var v := vmem[..];
      CopyPage((cur + 1) * PAGE, 0);
      ghost var w := vmem[..];
      assert t != cur ==> w[(t + 1) * PAGE..(t + 1) * PAGE + PAGE] == v[(t + 1) * PAGE..(t + 1) * PAGE + PAGE];
      CopyPage(0, (t + 1) * PAGE);
      assert vmem[..][(cur + 1) * PAGE..(cur + 1) * PAGE + PAGE] == w[(cur + 1) * PAGE..(cur + 1) * PAGE + PAGE];
      SwitchKeepsScreens(v, cursorX[..], cursorY[..], cur, screens, vmem[..], t);
    }

    /** Alt+F1..F3: swaps pages so that no logical screen changes, only which one is displayed. */
    method SwitchTerminal(keycode: nat) returns (r: int)
      requires Valid() && writeIdx == 0
      modifies vmem, this`cur, this`hardwareCursor, this`screens, cursorX, cursorY
      ensures Valid() && screens == old(screens)
      ensures var t := (keycode - 0x3B) % 256;
              if t > 2 then r == -1 && cur == old(cur) && hardwareCursor == old(hardwareCursor)
              else r == 0 && cur == t && CursorShown()
    {
      var t := (keycode - 0x3B) % 256;
      if t > 2 { return -1; }
      SwapPages(t);
      cur := t;
      assert cursorX[t] == screens[t].x && cursorY[t] == screens[t].y by {
        assert StoredAt(vmem[..], cursorX[..], cursorY[..], t, screens, t);
      }
      MoveCursor(cursorX[t], cursorY[t]);
      return 0;
    }
  }
}
