/** What three users at three terminals should see.  Each terminal is a line being edited and a
    screen; keys go to the displayed terminal, program output to the program's own. */
module Consoles {
  import opened Prelude
  import opened Screens
  import Displays
  import LineBuffers

  const MAX_LINE := LineBuffers.MAX_LINE

  /** `pending` says that Enter was pressed and the waiting reader has not yet taken the line. */
  datatype Term = Term(line: seq<byte>, pending: bool, screen: Screen)

  datatype Key = Char(c: byte) | Backspace | Tab | Enter | Clear | Other

  /** What can happen to one terminal. */
  datatype Local = Press(key: Key, typing: bool) | Output(cs: seq<byte>) | TakeLine

  function DoLocal(t: Term, attr: byte, e: Local): (r: Term)
    requires OnScreen(t.screen)
    ensures OnScreen(r.screen)
  {
    match e
    case Output(cs) => t.(screen := PutAll(t.screen, attr, cs))
    case TakeLine => if t.pending then t.(line := [], pending := false) else t
    case Press(Char(c), typing) =>
      var start := if t.pending then [] else t.line;
      if typing && |start| < MAX_LINE then Term(start + [c], false, Put(t.screen, attr, c)) else t.(pending := false)
    case Press(Backspace, _) =>
      if t.pending || t.line == [] || Offset(t.screen) == 0 then t.(pending := false)
      else Term(t.line[..|t.line| - 1], false, Erase(t.screen, attr))
    case Press(Tab, _) => Term(t.line, false, PutAll(t.screen, attr, [SPACE, SPACE, SPACE, SPACE]))
    case Press(Enter, typing) => if typing then Term(t.line, true, Put(t.screen, attr, NEWLINE))
        else t.(pending := false)
    case Press(Clear, _) => Term(t.line, false, Cleared(t.screen, attr))
    case Press(Other, _) => t.(pending := false)
  }

  function DoLocals(t: Term, attr: byte, es: seq<Local>): (r: Term)
    requires OnScreen(t.screen)
    ensures OnScreen(r.screen)
    decreases |es|
  {
    if es == [] then t else DoLocals(DoLocal(t, attr, es[0]), attr, es[1..])
  }

  // ---------- the three terminals together ----------

  datatype Console = Console(terms: seq<Term>, cur: int, typing: seq<bool>)

  datatype Event =
    | Pressed(key: Key)
    | SwitchTo(terminal: int)
    | Write(terminal: int, cs: seq<byte>)
    | Take(terminal: int)
    | AllowTyping(terminal: int, allowed: bool)

  predicate WellFormed(c: Console) {
    && |c.terms| == |c.typing| == TERMINALS && 0 <= c.cur < TERMINALS
    && forall t :: 0 <= t < TERMINALS ==> OnScreen(c.terms[t].screen)
  }

  predicate InRange(t: int) { 0 <= t < TERMINALS }

  function At(c: Console, t: int, e: Local): (r: Console)
    requires WellFormed(c)
    ensures WellFormed(r)
  {
    if InRange(t) then c.(terms := c.terms[t := DoLocal(c.terms[t], Displays.Attr(t), e)]) else c
  }

  function Step(c: Console, e: Event): (r: Console)
    requires WellFormed(c)
    ensures WellFormed(r)
  {
    match e
    case Pressed(key) => At(c, c.cur, Press(key, c.typing[c.cur]))
    case SwitchTo(t) =>
      var d := At(c, c.cur, Press(Other, c.typing[c.cur]));
      if InRange(t) then d.(cur := t) else d
    case Write(t, cs) => At(c, t, Output(cs))
    case Take(t) => At(c, t, TakeLine)
    case AllowTyping(t, allowed) => if InRange(t) then c.(typing := c.typing[t := allowed]) else c
  }

  function Run(c: Console, es: seq<Event>): (r: Console)
    requires WellFormed(c)
    ensures WellFormed(r)
    decreases |es|
  {
    if es == [] then c else Run(Step(c, es[0]), es[1..])
  }

  /** What of an event terminal t gets to notice. */
  function Seen(c: Console, e: Event, t: int): seq<Local>
    requires WellFormed(c)
  {
    match e
    case Pressed(key) => if t == c.cur then [Press(key, c.typing[t])] else []
    case SwitchTo(_) => if t == c.cur then [Press(Other, c.typing[t])] else []
    case Write(u, cs) => if t == u then [Output(cs)] else []
    case Take(u) => if t == u then [TakeLine] else []
    case AllowTyping(_, _) => []
  }

  function Own(c: Console, es: seq<Event>, t: int): seq<Local>
    requires WellFormed(c)
    decreases |es|
  {
    if es == [] then [] else Seen(c, es[0], t) + Own(Step(c, es[0]), es[1..], t)
  }

  lemma {:induction false} DoLocalsAppend(t: Term, attr: byte, a: seq<Local>, b: seq<Local>)
    requires OnScreen(t.screen)
    ensures DoLocals(t, attr, a + b) == DoLocals(DoLocals(t, attr, a), attr, b)
    decreases |a|
  {
    if a == [] {
      assert a + b == b;
    } else {
      assert (a + b)[1..] == a[1..] + b;
      DoLocalsAppend(DoLocal(t, attr, a[0]), attr, a[1..], b);
    }
  }

  lemma StepIsWhatIsSeen(c: Console, e: Event, t: int)
    requires WellFormed(c) && InRange(t)
    ensures Step(c, e).terms[t] == DoLocals(c.terms[t], Displays.Attr(t), Seen(c, e, t))
  {
    var one := Seen(c, e, t);
    if one != [] { assert one[1..] == []; }
  }

  /** Under every interleaving each terminal ends up exactly as a terminal of its own would that
      had been given its own keys and output only. */
  lemma {:induction false} TerminalsAreIndependent(c: Console, es: seq<Event>, t: int)
    requires WellFormed(c) && InRange(t)
    ensures Run(c, es).terms[t] == DoLocals(c.terms[t], Displays.Attr(t), Own(c, es, t))
    decreases |es|
  {
    if es != [] {
      var d := Step(c, es[0]);
      StepIsWhatIsSeen(c, es[0], t);
      TerminalsAreIndependent(d, es[1..], t);
      DoLocalsAppend(c.terms[t], Displays.Attr(t), Seen(c, es[0], t), Own(d, es[1..], t));
    }
  }

  // ---------- the screen shows what was typed and written ----------

  /** What reaches the paper: program output, accepted characters, four blanks for a tab and a line feed
      for an accepted Enter. */
  function Echo(t: Term, e: Local): seq<byte> {
    match e
    case Output(cs) => cs
    case Press(Char(c), typing) => if typing && (t.pending || |t.line| < 72) then [c] else []
    case Press(Tab, _) => [32, 32, 32, 32]
    case Press(Enter, typing) => if typing then [10] else []
    case _ => []
  }

  function Transcript(t: Term, attr: byte, es: seq<Local>): seq<byte>
    requires OnScreen(t.screen)
    decreases |es|
  {
    if es == [] then [] else Echo(t, es[0]) + Transcript(DoLocal(t, attr, es[0]), attr, es[1..])
  }

  /** Neither backspace nor Ctrl-L takes anything back. */
  ghost predicate NothingTakenBack(es: seq<Local>) {
    forall i :: 0 <= i < |es| ==> !(es[i].Press? && (es[i].key.Backspace? || es[i].key.Clear?))
  }

  lemma {:induction false} TextMovesTheWindow(r: Screen, cs: seq<byte>, attr: byte, more: seq<byte>)
    requires OnScreen(r) && Shows(r, cs, attr)
    ensures Shows(PutAll(r, attr, more), cs + more, attr)
  {
    if more == [] {
      assert cs + more == cs;
    } else {
      var init, last := more[..|more| - 1], more[|more| - 1];
      TextMovesTheWindow(r, cs, attr, init);
      PutMovesTheWindow(PutAll(r, attr, init), cs + init, attr, last);
      assert cs + more == cs + init + [last];
    }
  }

  lemma EchoMovesTheWindow(t: Term, attr: byte, cs: seq<byte>, e: Local)
    requires OnScreen(t.screen) && Shows(t.screen, cs, attr) && NothingTakenBack([e])
    ensures Shows(DoLocal(t, attr, e).screen, cs + Echo(t, e), attr)
  {
    assert [e][0] == e && cs + [] == cs;
    match e
    case Output(more) => TextMovesTheWindow(t.screen, cs, attr, more);
    case Press(Char(c), _) => PutMovesTheWindow(t.screen, cs, attr, c);
    case Press(Tab, _) => TextMovesTheWindow(t.screen, cs, attr, [SPACE, SPACE, SPACE, SPACE]);
    case Press(Enter, _) => PutMovesTheWindow(t.screen, cs, attr, NEWLINE);
    case _ =>
  }

  lemma {:induction false} TranscriptMovesTheWindow(t: Term, attr: byte, cs: seq<byte>, es: seq<Local>)
    requires OnScreen(t.screen) && Shows(t.screen, cs, attr) && NothingTakenBack(es)
    ensures Shows(DoLocals(t, attr, es).screen, cs + Transcript(t, attr, es), attr)
    decreases |es|
  {
    if es == [] {
      assert cs + [] == cs;
    } else {
      assert NothingTakenBack([es[0]]) && NothingTakenBack(es[1..]);
      EchoMovesTheWindow(t, attr, cs, es[0]);
      var u, first := DoLocal(t, attr, es[0]), Echo(t, es[0]);
      TranscriptMovesTheWindow(u, attr, cs + first, es[1..]);
      assert cs + (first + Transcript(u, attr, es[1..])) == cs + first + Transcript(u, attr, es[1..]);
    }
  }

  /** From a cleared screen on, under every interleaving with the other terminals, a terminal's screen is
      a window on the paper of its own transcript. */
  lemma ScreenShowsTranscript(c: Console, es: seq<Event>, t: int)
    requires WellFormed(c) && InRange(t) && NothingTakenBack(Own(c, es, t))
    requires c.terms[t].screen == Cleared(c.terms[t].screen, Displays.Attr(t))
    ensures Shows(Run(c, es).terms[t].screen, Transcript(c.terms[t], Displays.Attr(t), Own(c, es, t)), Displays.Attr(t))
  {
    var attr, own := Displays.Attr(t), Own(c, es, t);
    ScreenIsWindowOnPaper(c.terms[t].screen, attr, []);
    TerminalsAreIndependent(c, es, t);
    TranscriptMovesTheWindow(c.terms[t], attr, [], own);
    assert [] + Transcript(c.terms[t], attr, own) == Transcript(c.terms[t], attr, own);
  }

  /** A backspace undoes a character, on the screen and in the line, exactly if the character was put on a
      blank cell. */
  lemma BackspaceUndoesCharacterIff(t: Term, attr: byte, c: byte, typing: bool)
    requires OnScreen(t.screen) && !t.pending && |t.line| < 72 && !IsNewline(c) && Offset(t.screen) < CELLS - 1
    ensures DoLocal(DoLocal(t, attr, Press(Char(c), true)), attr, Press(Backspace, typing)) == t
       <==> t.screen.page[Offset(t.screen)] == Cell(32, attr)
  {
    EraseUndoesPutIff(t.screen, attr, c);
    assert (t.line + [c])[..|t.line|] == t.line;
  }

  // ---------- the typed line is what stands before the cursor ----------

  ghost predicate Agrees(line: seq<byte>, s: Screen, attr: byte) {
    && OnScreen(s) && |line| <= MAX_LINE && |line| <= Offset(s)
    && forall i :: 0 <= i < |line| ==> s.page[Offset(s) - |line| + i] == Cell(line[i], attr)
  }

  lemma TypingKeepsAgreement(line: seq<byte>, s: Screen, attr: byte, c: byte)
    requires Agrees(line, s, attr) && |line| < MAX_LINE && !IsNewline(c)
    ensures Agrees(line + [c], Put(s, attr, c), attr)
  {
    var r, l := Put(s, attr, c), line + [c];
    var w := s.page[Offset(s) := Cell(c, attr)];
    forall i | 0 <= i < |l| ensures r.page[Offset(r) - |l| + i] == Cell(l[i], attr) {
      assert w[Offset(s) + 1 - |l| + i] == Cell(l[i], attr);
    }
  }

  lemma ErasingKeepsAgreement(line: seq<byte>, s: Screen, attr: byte)
    requires Agrees(line, s, attr) && line != []
    ensures Offset(s) > 0
    ensures Agrees(line[..|line| - 1], Erase(s, attr), attr)
  {
    var r, l := Erase(s, attr), line[..|line| - 1];
    assert Offset(r) == Offset(s) - 1;
    forall i | 0 <= i < |l| ensures r.page[Offset(r) - |l| + i] == Cell(l[i], attr) {
      assert s.page[Offset(s) - |line| + i] == Cell(line[i], attr);
    }
  }

  /** Keys that edit the line: characters, backspaces and keys without effect on it. */
  predicate Editing(e: Local) {
    e.Press? && (e.key.Backspace? || e.key.Other? || (e.key.Char? && !IsNewline(e.key.c)))
  }

  /** The text a user expects after these keys. */
  function Edited(line: seq<byte>, es: seq<Local>): seq<byte>
    requires forall i :: 0 <= i < |es| ==> Editing(es[i])
    decreases |es|
  {
    if es == [] then line else
      var e := es[0];
      assert Editing(e);
      var next :=
        if e.key.Char? && e.typing && |line| < MAX_LINE then line + [e.key.c]
        else if e.key.Backspace? && line != [] then line[..|line| - 1]
        else line;
      Edited(next, es[1..])
  }

  lemma {:induction false} EditedLineIsOnScreen(t: Term, attr: byte, es: seq<Local>)
    requires OnScreen(t.screen) && !t.pending && Agrees(t.line, t.screen, attr)
    requires forall i :: 0 <= i < |es| ==> Editing(es[i])
    ensures var r := DoLocals(t, attr, es);
            r.line == Edited(t.line, es) && !r.pending && Agrees(r.line, r.screen, attr)
    decreases |es|
  {
    if es != [] {
      var e := es[0];
      assert Editing(e);
      if e.key.Char? && e.typing && |t.line| < MAX_LINE {
        TypingKeepsAgreement(t.line, t.screen, attr, e.key.c);
      } else if e.key.Backspace? && t.line != [] {
        ErasingKeepsAgreement(t.line, t.screen, attr);
      }
      EditedLineIsOnScreen(DoLocal(t, attr, e), attr, es[1..]);
    }
  }

  /** From an empty line on, whatever happens on the other terminals and however often the display
      is switched, the edited text is what stands before the terminal's cursor. */
  lemma TypedLineAgreesWithScreen(c: Console, es: seq<Event>, t: int)
    requires WellFormed(c) && InRange(t)
    requires c.terms[t].line == [] && !c.terms[t].pending
    requires forall i :: 0 <= i < |Own(c, es, t)| ==> Editing(Own(c, es, t)[i])
    ensures var r := Run(c, es).terms[t];
            r.line == Edited([], Own(c, es, t)) && Agrees(r.line, r.screen, Displays.Attr(t))
  {
    TerminalsAreIndependent(c, es, t);
    EditedLineIsOnScreen(c.terms[t], Displays.Attr(t), Own(c, es, t));
  }

  /** Enter on the displayed terminal makes the line ready if typing is on; taking it leaves an empty one. */
  lemma EnterThenTake(c: Console)
    requires WellFormed(c)
    ensures var t, d := c.cur, Step(c, Pressed(Enter));
            && d.terms[t].line == c.terms[t].line && d.terms[t].pending == c.typing[t]
            && d.cur == t && d.typing == c.typing
    ensures var t, r := c.cur, Step(Step(c, Pressed(Enter)), Take(c.cur));
            && !r.terms[t].pending && r.terms[t].line == (if c.typing[t] then [] else c.terms[t].line)
            && Step(r, Take(t)) == r
  {
  }

  /** Ctrl-L is not an editing key: it wipes the line off the screen but not out of the buffer. */
  lemma ClearAgreesIffLineEmpty(t: Term, attr: byte, typing: bool)
    requires OnScreen(t.screen)
    ensures var r := DoLocal(t, attr, Press(Clear, typing)); Agrees(r.line, r.screen, attr) <==> t.line == []
  {
  }

  /** One character and Ctrl-L, on any terminal with an empty line. */
  lemma ClearLosesTypedCharacter(t: Term, attr: byte, c: byte) returns (es: seq<Local>)
    requires OnScreen(t.screen) && t.line == [] && !t.pending
    ensures var r := DoLocals(t, attr, es);
            es == [Press(Char(c), true), Press(Clear, true)] && r.line == [c] && !Agrees(r.line, r.screen, attr)
  {
    es := [Press(Char(c), true), Press(Clear, true)];
    var u := DoLocal(t, attr, es[0]);
    assert es[1..] == [Press(Clear, true)] && es[1..][1..] == [];
    assert DoLocals(t, attr, es) == DoLocals(u, attr, es[1..]) == DoLocal(u, attr, Press(Clear, true));
    ClearAgreesIffLineEmpty(u, attr, true);
  }
}
