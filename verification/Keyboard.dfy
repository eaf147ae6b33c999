/** The keyboard interrupt handler over the display and the three terminal structs.  Scan codes
    are decoded with the four code tables; every event does to Consoles.Console what it should. */
module Keyboards {
  import opened Prelude
  import opened Screens
  import opened Consoles
  import Displays
  import LineBuffers

  // the four code tables, character codes by scan code

  function Plain(code: int): byte {
    if code < 28 then
      match code
      case 2 => 49 case 3 => 50 case 4 => 51 case 5 => 52 case 6 => 53 case 7 => 54 case 8 => 55 case 9 => 56
      case 10 => 57 case 11 => 48 case 12 => 45 case 13 => 61 case 16 => 113 case 17 => 119 case 18 => 101
      case 19 => 114 case 20 => 116 case 21 => 121 case 22 => 117 case 23 => 105 case 24 => 111 case 25 => 112
      case 26 => 91 case 27 => 93
      case _ => 0
    else
      match code
      case 28 => 10 case 29 => 17 case 30 => 97 case 31 => 115 case 32 => 100 case 33 => 102 case 34 => 103
      case 35 => 104 case 36 => 106 case 37 => 107 case 38 => 108 case 39 => 59 case 40 => 39 case 41 => 96
      case 42 => 15 case 43 => 92 case 44 => 122 case 45 => 120 case 46 => 99 case 47 => 118 case 48 => 98
      case 49 => 110 case 50 => 109 case 51 => 44 case 52 => 46 case 53 => 47 case 57 => 32
      case _ => 0
  }

  function Caps(code: int): byte {
    if code < 28 then
      match code
      case 2 => 49 case 3 => 50 case 4 => 51 case 5 => 52 case 6 => 53 case 7 => 54 case 8 => 55 case 9 => 56
      case 10 => 57 case 11 => 48 case 12 => 45 case 13 => 61 case 16 => 81 case 17 => 87 case 18 => 69
      case 19 => 82 case 20 => 84 case 21 => 89 case 22 => 85 case 23 => 73 case 24 => 79 case 25 => 80
      case 26 => 91 case 27 => 93
      case _ => 0
    else
      match code
      case 28 => 10 case 29 => 17 case 30 => 65 case 31 => 83 case 32 => 68 case 33 => 70 case 34 => 71
      case 35 => 72 case 36 => 74 case 37 => 75 case 38 => 76 case 39 => 59 case 40 => 39 case 41 => 96
      case 42 => 15 case 43 => 92 case 44 => 90 case 45 => 88 case 46 => 67 case 47 => 86 case 48 => 66
      case 49 => 78 case 50 => 77 case 51 => 44 case 52 => 46 case 53 => 47 case 57 => 32
      case _ => 0
  }

  function Shift(code: int): byte {
    if code < 28 then
      match code
      case 2 => 33 case 3 => 64 case 4 => 35 case 5 => 36 case 6 => 37 case 7 => 94 case 8 => 38 case 9 => 42
      case 10 => 40 case 11 => 41 case 12 => 95 case 13 => 43 case 16 => 81 case 17 => 87 case 18 => 69
      case 19 => 82 case 20 => 84 case 21 => 89 case 22 => 85 case 23 => 73 case 24 => 79 case 25 => 80
      case 26 => 123 case 27 => 125
      case _ => 0
    else
      match code
      case 28 => 10 case 29 => 17 case 30 => 65 case 31 => 83 case 32 => 68 case 33 => 70 case 34 => 71
      case 35 => 72 case 36 => 74 case 37 => 75 case 38 => 76 case 39 => 58 case 40 => 34 case 41 => 126
      case 42 => 15 case 43 => 124 case 44 => 90 case 45 => 88 case 46 => 67 case 47 => 86 case 48 => 66
      case 49 => 78 case 50 => 77 case 51 => 60 case 52 => 62 case 53 => 63 case 57 => 32
      case _ => 0
  }

  function CapsShift(code: int): byte {
    if code < 28 then
      match code
      case 2 => 33 case 3 => 64 case 4 => 35 case 5 => 36 case 6 => 37 case 7 => 94 case 8 => 38 case 9 => 42
      case 10 => 40 case 11 => 41 case 12 => 95 case 13 => 43 case 16 => 113 case 17 => 119 case 18 => 101
      case 19 => 114 case 20 => 116 case 21 => 121 case 22 => 117 case 23 => 105 case 24 => 111 case 25 => 112
      case 26 => 123 case 27 => 125
      case _ => 0
    else
      match code
      case 28 => 10 case 29 => 17 case 30 => 97 case 31 => 115 case 32 => 100 case 33 => 102 case 34 => 103
      case 35 => 104 case 36 => 106 case 37 => 107 case 38 => 108 case 39 => 58 case 40 => 34 case 41 => 126
      case 42 => 15 case 43 => 124 case 44 => 122 case 45 => 120 case 46 => 99 case 47 => 118 case 48 => 98
      case 49 => 110 case 50 => 109 case 51 => 60 case 52 => 62 case 53 => 63 case 57 => 32
      case _ => 0
  }

  datatype Modifiers = Modifiers(shift: bool, caps: bool, ctrl: bool, alt: bool)

  /** Shift, caps lock, control, alt and the keypad star have cases of their own. */
  predicate NoCharacter(code: int) {
    code == 0x2A || code == 0x36 || code == 0x3A || code == 0x1D || code == 0x37 || code == 0x38
  }

  /** The handler's case for each scan code, given the modifiers held down. */
  function Decode(code: int, m: Modifiers): (e: Event)
    ensures e.Pressed? || (e.SwitchTo? && InRange(e.terminal))
  {
    if code == 0x0E then Pressed(Backspace)
    else if code == 0x0F then Pressed(Tab)
    else if code == 0x1C then Pressed(Enter)
    else if NoCharacter(code) then Pressed(Other)
    else if code == 0x26 && m.ctrl then Pressed(Clear)
    else if 0x3B <= code <= 0x3D && m.alt then SwitchTo(code - 0x3B)
    else if 0 <= code < 0x3A then Pressed(Char(Translate(code, m)))
    else Pressed(Other)
  }

  function Translate(code: int, m: Modifiers): byte {
    if m.shift && m.caps then CapsShift(code)
    else if m.shift then Shift(code)
    else if m.caps then Caps(code)
    else Plain(code)
  }

  function NextModifiers(code: int, m: Modifiers): Modifiers {
    if code == 0x2A || code == 0x36 then m.(shift := true)
    else if code == 0xAA || code == 0xB6 then m.(shift := false)
    else if code == 0x3A then m.(caps := !m.caps)
    else if code == 0x1D then m.(ctrl := true)
    else if code == 0x9D then m.(ctrl := false)
    else if code == 0x38 then m.(alt := true)
    else if code == 0xB8 then m.(alt := false)
    else m
  }

  // ---------- the keys by name ----------

  function Key(code: int): char { Plain(code) as char }

  /** The keys of each row from left to right. */
  lemma TopRow()
    ensures [Key(2), Key(3), Key(4), Key(5), Key(6), Key(7)] == "123456"
    ensures [Key(8), Key(9), Key(10), Key(11), Key(12), Key(13)] == "7890-="
  {
  }

  lemma UpperRow()
    ensures [Key(16), Key(17), Key(18), Key(19), Key(20), Key(21)] == "qwerty"
    ensures [Key(22), Key(23), Key(24), Key(25), Key(26), Key(27)] == "uiop[]"
  {
  }

  lemma HomeRow()
    ensures [Key(30), Key(31), Key(32), Key(33), Key(34), Key(35)] == "asdfgh"
    ensures [Key(36), Key(37), Key(38), Key(39), Key(40), Key(41)] == "jkl;'`"
  {
  }

  lemma LowerRow()
    ensures [Key(43), Key(44), Key(45), Key(46), Key(47)] == "\\zxcv"
    ensures [Key(48), Key(49), Key(50), Key(51), Key(52), Key(53)] == "bnm,./"
  {
  }

  function ShiftKey(code: int): char { Shift(code) as char }

  /** With shift, the keys that are no letters. */
  lemma ShiftedSigns()
    ensures [ShiftKey(2), ShiftKey(3), ShiftKey(4), ShiftKey(5), ShiftKey(6), ShiftKey(7)] == "!@#$%^"
    ensures [ShiftKey(8), ShiftKey(9), ShiftKey(10), ShiftKey(11), ShiftKey(12), ShiftKey(13)] == "&*()_+"
    ensures [ShiftKey(26), ShiftKey(27), ShiftKey(39), ShiftKey(40), ShiftKey(41)] == "{}:\"~"
    ensures [ShiftKey(43), ShiftKey(51), ShiftKey(52), ShiftKey(53)] == "|<>?"
  {
  }

  predicate IsLetter(c: byte) { 97 <= c <= 122 }

  /** Caps lock turns letters into capitals and nothing else; together with shift it gives small letters
      and the upper signs. */
  lemma CapsLockIsForLetters(code: int)
    ensures Caps(code) == if IsLetter(Plain(code)) then Plain(code) - 32 else Plain(code)
    ensures if IsLetter(Plain(code)) then Shift(code) == Caps(code) && CapsShift(code) == Plain(code)
            else CapsShift(code) == Shift(code)
  {
  }

  /** What the handler makes of a scan code that is a character key: its letter or sign. */
  lemma CharacterKeys(code: int, m: Modifiers)
    requires 0 <= code < 0x3A && Plain(code) != 0 && code !in {0x1C, 0x1D, 0x2A} && !(m.ctrl && code == 0x26)
    ensures Decode(code, m) == Pressed(Char(if IsLetter(Plain(code)) then
                                              if m.shift != m.caps then Plain(code) - 32 else Plain(code)
                                            else if m.shift then Shift(code) else Plain(code)))
  {
    CapsLockIsForLetters(code);
  }

  /** The other keys; the comments of the handler name them. */
  lemma NamedKeys(m: Modifiers)
    ensures Decode(14, m) == Pressed(Backspace) && Decode(15, m) == Pressed(Tab) && Decode(28, m) == Pressed(Enter)
    ensures Decode(57, m) == Pressed(Char(32))
    ensures Decode(38, m) == Pressed(Clear) <==> m.ctrl
    ensures forall t :: 0 <= t < 3 ==> (Decode(59 + t, m) == SwitchTo(t) <==> m.alt)
    ensures forall code :: 128 <= code < 256 ==> Decode(code, m) == Pressed(Other)
  {
  }

  /** The code that a key sends when it is let go. */
  function Release(code: int): int { code + 128 }

  /** Shift, control and alt hold from the press of their key to its release; caps lock changes with each
      press; no key touches another's flag. */
  lemma ModifiersHold(m: Modifiers)
    ensures forall code :: code in {42, 54} ==>
              NextModifiers(code, m) == m.(shift := true) && NextModifiers(Release(code), m) == m.(shift := false)
    ensures NextModifiers(29, m) == m.(ctrl := true) && NextModifiers(Release(29), m) == m.(ctrl := false)
    ensures NextModifiers(56, m) == m.(alt := true) && NextModifiers(Release(56), m) == m.(alt := false)
    ensures NextModifiers(58, m) == m.(caps := !m.caps) && NextModifiers(Release(58), m) == m
    ensures forall code :: code !in {42, 54, 29, 56, 58, 170, 182, 157, 184} ==> NextModifiers(code, m) == m
  {
  }

  /** No key that reaches the line as a character can break the row. */
  lemma CharactersNeverBreakTheLine(code: int, m: Modifiers)
    requires Decode(code, m).Pressed? && Decode(code, m).key.Char?
    ensures !IsNewline(Decode(code, m).key.c)
  {
    assert code != 0x1C;
  }

  // ---------- everything that reaches the three terminals ----------

  /** A scan code, output of a program, a waiting reader served, a typing flag set. */
  datatype Input = Scan(code: nat) | Print(terminal: int, bytes: seq<byte>) | Serve(terminal: int, byShell: bool)
                 | SetTyping(terminal: int, allowed: bool)

  predicate IsArrow(code: int) { code == 0x48 || code == 0x50 }

  predicate Acceptable(i: Input) {
    if i.Scan? then i.code < 256 && !IsArrow(i.code) else InRange(i.terminal)
  }

  function EventOf(i: Input, m: Modifiers): Event {
    match i
    case Scan(code) => Decode(code, m)
    case Print(t, bytes) => Write(t, WithoutNul(bytes))
    case Serve(t, _) => Take(t)
    case SetTyping(t, allowed) => AllowTyping(t, allowed)
  }

  function HeldAfter(i: Input, m: Modifiers): Modifiers { if i.Scan? then NextModifiers(i.code, m) else m }

  /** What a run of inputs means, the modifier keys held at its start given. */
  function Events(inputs: seq<Input>, m: Modifiers): seq<Event>
    decreases |inputs|
  {
    if inputs == [] then [] else [EventOf(inputs[0], m)] + Events(inputs[1..], HeldAfter(inputs[0], m))
  }

  // ---------- the lines that shells read ----------

  /** No line is longer than the handler accepts. */
  ghost predicate Bounded(c: Console)
    requires WellFormed(c)
  {
    forall t :: 0 <= t < TERMINALS ==> |c.terms[t].line| <= MAX_LINE
  }

  lemma StepKeepsBounded(c: Console, e: Event)
    requires WellFormed(c) && Bounded(c)
    ensures Bounded(Step(c, e))
  {
    forall t | 0 <= t < TERMINALS ensures |Step(c, e).terms[t].line| <= MAX_LINE {
      assert |c.terms[t].line| <= MAX_LINE;
    }
  }

  /** The line that one input hands to a shell on terminal t, as it lies in its buffer. */
  ghost function Handed(c: Console, i: Input, t: int): seq<LineBuffers.Entry>
    requires WellFormed(c) && Bounded(c) && InRange(t)
  {
    if i == Serve(t, true) && c.terms[t].pending then [LineBuffers.Padded(c.terms[t].line)] else []
  }

  /** All of them over a run, oldest first. */
  ghost function HandedOver(c: Console, inputs: seq<Input>, m: Modifiers, t: int): seq<LineBuffers.Entry>
    requires WellFormed(c) && Bounded(c) && InRange(t)
    decreases |inputs|
  {
    if inputs == [] then []
    else
      var e := EventOf(inputs[0], m);
      StepKeepsBounded(c, e);
      Handed(c, inputs[0], t) + HandedOver(Step(c, e), inputs[1..], HeldAfter(inputs[0], m), t)
  }

  /** Where a run stands after i inputs: from console c on the rest leads to `goal`, and what has been
      handed to shells, followed by what will be, is `totals`. */
  ghost predicate OnCourse(c: Console, submitted: seq<seq<LineBuffers.Entry>>, inputs: seq<Input>, i: nat, m: Modifiers,
                           goal: Console, totals: seq<seq<LineBuffers.Entry>>) {
    && WellFormed(c) && Bounded(c) && |submitted| == |totals| == TERMINALS && i <= |inputs|
    && Run(c, Events(inputs[i..], m)) == goal
    && forall t :: 0 <= t < TERMINALS ==> submitted[t] + HandedOver(c, inputs[i..], m, t) == totals[t]
  }

  lemma NextInput(c: Console, inputs: seq<Input>, i: nat, m: Modifiers, t: int)
    requires WellFormed(c) && Bounded(c) && i < |inputs| && InRange(t)
    ensures var e, m' := EventOf(inputs[i], m), HeldAfter(inputs[i], m);
            && Bounded(Step(c, e))
            && Run(c, Events(inputs[i..], m)) == Run(Step(c, e), Events(inputs[i + 1..], m'))
            && HandedOver(c, inputs[i..], m, t)
                 == Handed(c, inputs[i], t) + HandedOver(Step(c, e), inputs[i + 1..], m', t)
  {
    StepKeepsBounded(c, EventOf(inputs[i], m));
    assert inputs[i..][0] == inputs[i] && inputs[i..][1..] == inputs[i + 1..];
    assert Events(inputs[i..], m)[1..] == Events(inputs[i + 1..], HeldAfter(inputs[i], m));
  }

  lemma Regroup<T>(a: seq<T>, b: seq<T>, c: seq<T>)
    ensures a + b + c == a + (b + c)
  {
  }

  lemma NextTotal(c: Console, inputs: seq<Input>, i: nat, m: Modifiers, t: int, submitted: seq<LineBuffers.Entry>)
    requires WellFormed(c) && Bounded(c) && i < |inputs| && InRange(t)
    ensures var e, m' := EventOf(inputs[i], m), HeldAfter(inputs[i], m);
            && Bounded(Step(c, e))
            && submitted + HandedOver(c, inputs[i..], m, t)
                 == submitted + Handed(c, inputs[i], t) + HandedOver(Step(c, e), inputs[i + 1..], m', t)
  {
    NextInput(c, inputs, i, m, t);
    var d, m' := Step(c, EventOf(inputs[i], m)), HeldAfter(inputs[i], m);
    var x, y := Handed(c, inputs[i], t), HandedOver(d, inputs[i + 1..], m', t);
    Regroup(submitted, x, y);
  }

  lemma StaysOnCourse(c: Console, submitted: seq<seq<LineBuffers.Entry>>, inputs: seq<Input>, i: nat, m: Modifiers,
                      goal: Console, totals: seq<seq<LineBuffers.Entry>>, submitted': seq<seq<LineBuffers.Entry>>)
    requires OnCourse(c, submitted, inputs, i, m, goal, totals) && i < |inputs| && |submitted'| == TERMINALS
    requires forall t :: 0 <= t < TERMINALS ==> submitted'[t] == submitted[t] + Handed(c, inputs[i], t)
    ensures OnCourse(Step(c, EventOf(inputs[i], m)), submitted', inputs, i + 1, HeldAfter(inputs[i], m), goal, totals)
  {
    NextInput(c, inputs, i, m, 0);
    var d, m' := Step(c, EventOf(inputs[i], m)), HeldAfter(inputs[i], m);
    forall t | 0 <= t < TERMINALS ensures submitted'[t] + HandedOver(d, inputs[i + 1..], m', t) == totals[t] {
      NextTotal(c, inputs, i, m, t, submitted[t]);
    }
  }

  lemma EndOfCourse(c: Console, submitted: seq<seq<LineBuffers.Entry>>, inputs: seq<Input>, m: Modifiers,
                    goal: Console, totals: seq<seq<LineBuffers.Entry>>)
    requires OnCourse(c, submitted, inputs, |inputs|, m, goal, totals)
    ensures c == goal && submitted == totals
  {
    forall t | 0 <= t < TERMINALS ensures submitted[t] == totals[t] {
      assert submitted[t] + [] == submitted[t];
    }
  }

  lemma StartOfCourse(c: Console, submitted: seq<seq<LineBuffers.Entry>>, inputs: seq<Input>, m: Modifiers)
    returns (totals: seq<seq<LineBuffers.Entry>>)
    requires WellFormed(c) && Bounded(c) && |submitted| == TERMINALS
    ensures OnCourse(c, submitted, inputs, 0, m, Run(c, Events(inputs, m)), totals)
    ensures forall t :: 0 <= t < TERMINALS ==> totals[t] == submitted[t] + HandedOver(c, inputs, m, t)
  {
    assert inputs[0..] == inputs;
    totals := seq(TERMINALS, t requires 0 <= t < TERMINALS => submitted[t] + HandedOver(c, inputs, m, t));
  }

  /** What a run of one more input, which means e, hands over and leads to. */
  lemma OneInput(c: Console, i: Input, e: Event, rest: seq<Input>, m: Modifiers, m': Modifiers, t: int)
    requires WellFormed(c) && Bounded(c) && InRange(t) && EventOf(i, m) == e && HeldAfter(i, m) == m'
    ensures Bounded(Step(c, e))
    ensures Run(c, Events([i] + rest, m)) == Run(Step(c, e), Events(rest, m'))
    ensures HandedOver(c, [i] + rest, m, t) == Handed(c, i, t) + HandedOver(Step(c, e), rest, m', t)
  {
    var all := [i] + rest;
    NextInput(c, all, 0, m, t);
    assert all[0..] == all && all[1..] == rest;
  }

  /** A reader takes what is ready; who comes after it gets nothing. */
  lemma TwoReaders(c: Console, readers: seq<Input>, m: Modifiers, t: int)
    requires WellFormed(c) && Bounded(c) && InRange(t) && readers == [Serve(t, true), Serve(t, true)]
    ensures HandedOver(c, readers, m, t)
            == if c.terms[t].pending then [LineBuffers.Padded(c.terms[t].line)] else []
    ensures Run(c, Events(readers, m)) == Step(Step(c, Take(t)), Take(t))
  {
    var s := Serve(t, true);
    var d := Step(c, Take(t));
    assert readers == [s] + [s] && [s] == [s] + [];
    OneInput(c, s, Take(t), [s], m, m, t);
    OneInput(d, s, Take(t), [], m, m, t);
    assert !d.terms[t].pending;
  }

  /** Enter itself hands over nothing. */
  lemma EnterFirst(c: Console, inputs: seq<Input>, readers: seq<Input>, m: Modifiers, t: int)
    requires WellFormed(c) && Bounded(c) && InRange(t) && inputs == [Scan(28)] + readers
    ensures var d := Step(c, Pressed(Enter));
            && Bounded(d)
            && Run(c, Events(inputs, m)) == Run(d, Events(readers, m))
            && HandedOver(c, inputs, m, t) == HandedOver(d, readers, m, t)
  {
    OneInput(c, Scan(28), Pressed(Enter), readers, m, m, t);
    assert Handed(c, Scan(28), t) == [];
  }

  /** Enter makes the line that has been typed ready for a reader, who takes it once and leaves an empty
      line: a second reader gets nothing, and no reader gets anything while typing is off. */
  lemma EnterHandsTheLineOverOnce(c: Console, inputs: seq<Input>, m: Modifiers, t: int)
    requires WellFormed(c) && Bounded(c) && t == c.cur && inputs == [Scan(28), Serve(t, true), Serve(t, true)]
    ensures HandedOver(c, inputs, m, t) == if c.typing[t] then [LineBuffers.Padded(c.terms[t].line)] else []
    ensures !Run(c, Events(inputs, m)).terms[t].pending
    ensures Run(c, Events(inputs, m)).terms[t].line == if c.typing[t] then [] else c.terms[t].line
  {
    var d, readers := Step(c, Pressed(Enter)), [Serve(t, true), Serve(t, true)];
    EnterFirst(c, inputs, readers, m, t);
    EnterThenTake(c);
    TwoReaders(d, readers, m, t);
  }

  /** Keys other than tab, enter and Ctrl-L. */
  predicate LineKey(e: Local) {
    e.Press? && !e.key.Tab? && !e.key.Enter? && !e.key.Clear?
  }

  ghost predicate OnlyLineKeys(es: seq<Local>) {
    forall i :: 0 <= i < |es| ==> LineKey(es[i])
  }

  lemma BothOnlyLineKeys(a: seq<Local>, b: seq<Local>)
    requires OnlyLineKeys(a + b)
    ensures OnlyLineKeys(a) && OnlyLineKeys(b)
  {
    assert forall i :: 0 <= i < |a| ==> a[i] == (a + b)[i];
    assert forall i :: 0 <= i < |b| ==> b[i] == (a + b)[|a| + i];
  }

  /** Decoded from real scan codes, such keys edit the line: no character among them breaks it. */
  lemma {:induction false} LineKeysEdit(c: Console, inputs: seq<Input>, m: Modifiers, t: int)
    requires WellFormed(c) && InRange(t) && OnlyLineKeys(Own(c, Events(inputs, m), t))
    ensures forall i :: 0 <= i < |Own(c, Events(inputs, m), t)| ==> Editing(Own(c, Events(inputs, m), t)[i])
    decreases |inputs|
  {
    if inputs != [] {
      var e, rest := EventOf(inputs[0], m), Events(inputs[1..], HeldAfter(inputs[0], m));
      assert Events(inputs, m)[1..] == rest;
      var first, others := Seen(c, e, t), Own(Step(c, e), rest, t);
      assert Own(c, Events(inputs, m), t) == first + others;
      BothOnlyLineKeys(first, others);
      LineKeysEdit(Step(c, e), inputs[1..], HeldAfter(inputs[0], m), t);
      if e.Pressed? && e.key.Char? { CharactersNeverBreakTheLine(inputs[0].code, m); }
      assert forall i :: 0 <= i < |first| ==> Editing(first[i]);
    }
  }

  // ---------- keys on the displayed terminal ----------

  ghost predicate Ready(d: Displays.Display, l: LineBuffers.LineBuffer)
    reads d, d.vmem, d.cursorX, d.cursorY, l, l.keyboardBuf, l.commandBuf, l.commandIdx
  {
    && d.Valid() && d.writeIdx == 0 && l.Valid() && l.Clean()
    && l.commandIdx != d.cursorX && l.commandIdx != d.cursorY
  }

  ghost function TermAt(d: Displays.Display, l: LineBuffers.LineBuffer): (t: Term)
    reads d, d.vmem, d.cursorX, d.cursorY, l, l.keyboardBuf, l.commandBuf, l.commandIdx
    requires Ready(d, l)
    ensures OnScreen(t.screen)
  {
    Term(l.line, l.enterFlag, d.screens[d.cur])
  }

  method PressChar(d: Displays.Display, l: LineBuffers.LineBuffer, typing: bool, c: byte)
    requires Ready(d, l)
    modifies d`hardwareCursor, d`screens, d.vmem, d.cursorX, d.cursorY
    modifies l`enterFlag, l`keyboardIdx, l`line, l.keyboardBuf
    ensures Ready(d, l)
    ensures TermAt(d, l) == DoLocal(old(TermAt(d, l)), Displays.Attr(d.cur), Press(Char(c), typing))
    ensures d.screens == old(d.screens)[d.cur := d.screens[d.cur]]
  {
    if !typing {
      l.DropEnter();
      return;
    }
    var accepted := l.TypeChar(c);
    if accepted { d.PutC(c); }
  }

  method PressBackspace(d: Displays.Display, l: LineBuffers.LineBuffer, typing: bool)
    requires Ready(d, l)
    modifies d`hardwareCursor, d`screens, d.vmem, d.cursorX, d.cursorY
    modifies l`enterFlag, l`keyboardIdx, l`line, l.keyboardBuf, l.commandBuf, l.commandIdx
    ensures Ready(d, l)
    ensures TermAt(d, l) == DoLocal(old(TermAt(d, l)), Displays.Attr(d.cur), Press(Backspace, typing))
    ensures d.screens == old(d.screens)[d.cur := d.screens[d.cur]]
  {
    var home := d.AtOrigin();
    if home {
      l.DropEnter();
      return;
    }
    var deleted := l.Backspace();
    if deleted { d.EraseLast(); }
  }

  method PressTab(d: Displays.Display, l: LineBuffers.LineBuffer, typing: bool)
    requires Ready(d, l)
    modifies d`hardwareCursor, d`screens, d.vmem, d.cursorX, d.cursorY, l`enterFlag
    ensures Ready(d, l)
    ensures TermAt(d, l) == DoLocal(old(TermAt(d, l)), Displays.Attr(d.cur), Press(Tab, typing))
    ensures d.screens == old(d.screens)[d.cur := d.screens[d.cur]]
  {
    l.DropEnter();
    ghost var s, attr := d.screens[d.cur], Displays.Attr(d.cur);
    ghost var blanks: seq<byte> := [SPACE, SPACE, SPACE, SPACE];
    var i := 0;
    while i < 4
      invariant 0 <= i <= 4 && Ready(d, l) && TermAt(d, l) == Term(l.line, false, PutAll(s, attr, blanks[..i]))
      invariant l.line == old(l.line)
      invariant d.screens == old(d.screens)[d.cur := d.screens[d.cur]]
      modifies d`hardwareCursor, d`screens, d.vmem, d.cursorX, d.cursorY
    {
      ghost var next := blanks[..i + 1];
      assert next[..|next| - 1] == blanks[..i] && next[|next| - 1] == SPACE;
      d.PutC(SPACE);
      i := i + 1;
    }
    assert blanks[..4] == blanks;
  }

  method PressEnter(d: Displays.Display, l: LineBuffers.LineBuffer, typing: bool)
    requires Ready(d, l)
    modifies d`hardwareCursor, d`screens, d.vmem, d.cursorX, d.cursorY, l`enterFlag
    ensures Ready(d, l)
    ensures TermAt(d, l) == DoLocal(old(TermAt(d, l)), Displays.Attr(d.cur), Press(Enter, typing))
    ensures d.screens == old(d.screens)[d.cur := d.screens[d.cur]]
  {
    l.DropEnter();
    if !typing { return; }
    var last := d.OnLastRow();
    if last {
      d.ShiftScreen();
    } else {
      d.PutC(NEWLINE);
    }
    l.Enter();
  }

  method PressClear(d: Displays.Display, l: LineBuffers.LineBuffer, typing: bool)
    requires Ready(d, l)
    modifies d`hardwareCursor, d`screens, d.vmem, d.cursorX, d.cursorY, l`enterFlag
    ensures Ready(d, l)
    ensures TermAt(d, l) == DoLocal(old(TermAt(d, l)), Displays.Attr(d.cur), Press(Clear, typing))
    ensures d.screens == old(d.screens)[d.cur := d.screens[d.cur]]
  {
    l.DropEnter();
    d.Clear();
  }

  method PressKey(d: Displays.Display, l: LineBuffers.LineBuffer, typing: bool, key: Key)
    requires Ready(d, l)
    modifies d`hardwareCursor, d`screens, d.vmem, d.cursorX, d.cursorY
    modifies l`enterFlag, l`keyboardIdx, l`line, l.keyboardBuf, l.commandBuf, l.commandIdx
    ensures Ready(d, l)
    ensures TermAt(d, l) == DoLocal(old(TermAt(d, l)), Displays.Attr(d.cur), Press(key, typing))
    ensures d.screens == old(d.screens)[d.cur := d.screens[d.cur]]
  {
    match key {
      case Backspace => PressBackspace(d, l, typing);
      case Tab => PressTab(d, l, typing);
      case Enter => PressEnter(d, l, typing);
      case Clear => PressClear(d, l, typing);
      case Char(c) => PressChar(d, l, typing, c);
      case Other => l.DropEnter();
    }
  }

  // ---------- the handler ----------

  class Keyboard {
    const display: Displays.Display
    const lines: seq<LineBuffers.LineBuffer>   // terminal_struct
    const typing: array<bool>                  // typing_mask

    /** All memory the handler works on. */
    ghost function Footprint(): set<object> {
      {display, display.vmem, display.cursorX, display.cursorY, typing}
      + (set t | 0 <= t < |lines| :: lines[t])
      + (set t | 0 <= t < |lines| :: lines[t].keyboardBuf)
      + (set t | 0 <= t < |lines| :: lines[t].commandBuf)
      + (set t | 0 <= t < |lines| :: lines[t].commandIdx)
    }

    ghost predicate Disjoint(t: int, u: int)
      requires 0 <= t < |lines| && 0 <= u < |lines|
    {
      && lines[t] != lines[u] && lines[t].keyboardBuf != lines[u].keyboardBuf
      && lines[t].commandBuf != lines[u].commandBuf && lines[t].commandIdx != lines[u].commandIdx
    }

    ghost predicate LineReady(t: int)
      reads Footprint()
      requires 0 <= t < |lines|
    {
      Ready(display, lines[t])
    }

    ghost predicate Valid()
      reads Footprint()
    {
      && |lines| == typing.Length == TERMINALS
      && display.Valid() && display.writeIdx == 0
      && (forall t, u :: 0 <= t < TERMINALS && 0 <= u < TERMINALS && t != u ==> Disjoint(t, u))
      && (forall t :: 0 <= t < TERMINALS ==> LineReady(t))
    }

    ghost function TermOf(t: int): (u: Term)
      reads Footprint()
      requires Valid() && 0 <= t < TERMINALS
      ensures OnScreen(u.screen)
    {
      Term(lines[t].line, lines[t].enterFlag, display.screens[t])
    }

    ghost function View(): (c: Console)
      reads Footprint()
      requires Valid()
      ensures WellFormed(c) && Bounded(c) && forall t :: 0 <= t < TERMINALS ==> c.terms[t] == TermOf(t)
    {
      assert LineReady(0) && LineReady(1) && LineReady(2);
      Console([TermOf(0), TermOf(1), TermOf(2)], display.cur, typing[..])
    }

    constructor (d: Displays.Display, ls: seq<LineBuffers.LineBuffer>, mask: array<bool>)
      requires d.Valid() && d.writeIdx == 0
      requires |ls| == mask.Length == TERMINALS && forall t :: 0 <= t < TERMINALS ==> Ready(d, ls[t])
      requires forall t, u :: 0 <= t < TERMINALS && 0 <= u < TERMINALS && t != u ==>
                 && ls[t] != ls[u] && ls[t].keyboardBuf != ls[u].keyboardBuf
                 && ls[t].commandBuf != ls[u].commandBuf && ls[t].commandIdx != ls[u].commandIdx
      ensures Valid() && display == d && lines == ls && typing == mask
    {
      display, lines, typing := d, ls, mask;
    }

    static method NewLines() returns (ls: seq<LineBuffers.LineBuffer>)
      ensures |ls| == TERMINALS
      ensures forall t :: 0 <= t < TERMINALS ==>
                && ls[t].Valid() && ls[t].Clean() && ls[t].line == []
                && fresh(ls[t]) && fresh(ls[t].commandIdx)
      ensures forall t, u :: 0 <= t < TERMINALS && 0 <= u < TERMINALS && t != u ==>
                && ls[t] != ls[u] && ls[t].keyboardBuf != ls[u].keyboardBuf
                && ls[t].commandBuf != ls[u].commandBuf && ls[t].commandIdx != ls[u].commandIdx
    {
      var l0 := new LineBuffers.LineBuffer();
      var l1 := new LineBuffers.LineBuffer();
      var l2 := new LineBuffers.LineBuffer();
      ls := [l0, l1, l2];
    }

    /** `terminal_init`: three empty lines and three cleared screens, terminal 0 displayed. */
    static method TerminalInit() returns (k: Keyboard)
      ensures k.Valid() && k.display.cur == 0
      ensures forall t :: 0 <= t < TERMINALS ==>
                k.lines[t].line == [] && k.display.screens[t] == Cleared(k.display.screens[t], Displays.Attr(t))
    {
      var d := new Displays.Display();
      var ls := NewLines();
      var mask := new bool[TERMINALS](_ => true);
      k := new Keyboard(d, ls, mask);
    }

    /** Keys act on the displayed terminal and leave the others alone. */
    method PressDisplayed(key: Key)
      requires Valid()
      modifies display`hardwareCursor, display`screens, display.vmem, display.cursorX, display.cursorY
      modifies lines[display.cur]
      modifies lines[display.cur].keyboardBuf, lines[display.cur].commandBuf, lines[display.cur].commandIdx
      ensures Valid()
      ensures var cur := display.cur;
              TermOf(cur) == DoLocal(old(TermOf(display.cur)), Displays.Attr(cur), Local.Press(key, typing[cur]))
      ensures forall t :: 0 <= t < TERMINALS && t != display.cur ==> TermOf(t) == old(TermOf(t))
      ensures forall t :: 0 <= t < TERMINALS ==> lines[t].submitted == old(lines[t].submitted)
    {
      ghost var cur := display.cur;
      assert LineReady(cur);
      PressKey(display, lines[display.cur], typing[display.cur], key);
      forall t | 0 <= t < TERMINALS
        ensures LineReady(t)
        ensures t != cur ==> lines[t].line == old(lines[t].line) && lines[t].enterFlag == old(lines[t].enterFlag)
      {
        if t != cur { assert old(LineReady(t)) && Disjoint(t, cur); }
      }
      assert TermOf(cur) == TermAt(display, lines[cur]);
    }

    method Press(key: Key)
      requires Valid()
      modifies display`hardwareCursor, display`screens, display.vmem, display.cursorX, display.cursorY
      modifies lines[display.cur]
      modifies lines[display.cur].keyboardBuf, lines[display.cur].commandBuf, lines[display.cur].commandIdx
      ensures Valid()
      ensures View() == At(old(View()), display.cur, Local.Press(key, typing[display.cur]))
      ensures forall t :: 0 <= t < TERMINALS ==> lines[t].submitted == old(lines[t].submitted)
    {
      PressDisplayed(key);
    }

    method SwitchDisplay(code: nat)
      requires Valid() && 0x3B <= code <= 0x3D
      modifies display, display.vmem, display.cursorX, display.cursorY
      ensures Valid() && View() == old(View()).(cur := code - 0x3B)
    {
      var r := display.SwitchTerminal(code);
      forall t | 0 <= t < TERMINALS ensures LineReady(t) {
        assert old(LineReady(t));
      }
    }

    method Apply(e: Event)
      requires Valid() && (e.Pressed? || (e.SwitchTo? && InRange(e.terminal)))
      modifies Footprint()
      ensures Valid() && View() == Step(old(View()), e)
      ensures forall t :: 0 <= t < TERMINALS ==> lines[t].submitted == old(lines[t].submitted)
    {
      if e.Pressed? {
        Press(e.key);
      } else {
        Press(Other);
        SwitchDisplay(e.terminal + 0x3B);
      }
    }

    /** One scan code, arrow keys aside; `held` are the modifier flags before and after it. */
    method Handle(code: nat, held: Modifiers) returns (held': Modifiers)
      requires Valid() && code < 256 && code != 0x48 && code != 0x50
      modifies Footprint()
      ensures Valid() && View() == Step(old(View()), Decode(code, held))
      ensures forall t :: 0 <= t < TERMINALS ==> lines[t].submitted == old(lines[t].submitted)
      ensures held' == NextModifiers(code, held)
    {
      Apply(Decode(code, held));
      held' := NextModifiers(code, held);
    }

    /** `terminal_write` by the program scheduled on terminal t. */
    method Output(t: int, buf: array<byte>, nbytes: nat)
      requires Valid() && 0 <= t < TERMINALS && nbytes <= buf.Length
      modifies display, display.vmem, display.cursorX, display.cursorY
      ensures Valid() && View() == Step(old(View()), Write(t, WithoutNul(buf[..nbytes])))
    {
      var r := display.TerminalWrite(t, buf, nbytes);
      forall u | 0 <= u < TERMINALS ensures LineReady(u) {
        assert old(LineReady(u));
      }
    }

    /** The end of `terminal_read` on terminal t, if Enter was pressed there. */
    method Read(t: int, byShell: bool)
      requires Valid() && 0 <= t < TERMINALS
      modifies lines[t], lines[t].keyboardBuf, lines[t].commandBuf, lines[t].commandIdx
      ensures Valid() && View() == Step(old(View()), Take(t))
      ensures forall u :: 0 <= u < TERMINALS ==>
                lines[u].submitted == old(lines[u].submitted) + Handed(old(View()), Serve(t, byShell), u)
    {
      assert LineReady(t);
      if lines[t].enterFlag {
        ReadPending(t, byShell);
      }
    }

    method ReadPending(t: int, byShell: bool)
      requires Valid() && 0 <= t < TERMINALS && lines[t].enterFlag
      modifies lines[t], lines[t].keyboardBuf, lines[t].commandBuf, lines[t].commandIdx
      ensures Valid() && TermOf(t) == old(TermOf(t)).(line := [], pending := false)
      ensures forall u :: 0 <= u < TERMINALS && u != t ==>
                TermOf(u) == old(TermOf(u)) && lines[u].submitted == old(lines[u].submitted)
      ensures lines[t].submitted == old(lines[t].submitted) + if byShell then [old(lines[t].Current())] else []
    {
      assert LineReady(t);
      lines[t].ConsumeLine(byShell);
      forall u | 0 <= u < TERMINALS
        ensures LineReady(u)
        ensures u != t ==> lines[u].line == old(lines[u].line) && lines[u].enterFlag == old(lines[u].enterFlag)
      {
        if u != t { assert old(LineReady(u)) && Disjoint(u, t); }
      }
    }

    /** The typing flag, which `execute` and `halt` set. */
    method Allow(t: int, allowed: bool)
      requires Valid() && 0 <= t < TERMINALS
      modifies typing
      ensures Valid() && View() == Step(old(View()), AllowTyping(t, allowed))
    {
      typing[t] := allowed;
      forall u | 0 <= u < TERMINALS ensures LineReady(u) {
        assert old(LineReady(u));
      }
    }

    method PrintBytes(t: int, bytes: seq<byte>)
      requires Valid() && 0 <= t < TERMINALS
      modifies display, display.vmem, display.cursorX, display.cursorY
      ensures Valid() && View() == Step(old(View()), Write(t, WithoutNul(bytes)))
    {
      var buf := new byte[|bytes|](k requires 0 <= k < |bytes| => bytes[k]);
      assert buf[..|bytes|] == bytes;
      forall u | 0 <= u < TERMINALS ensures LineReady(u) {
        assert old(LineReady(u));
      }
      Output(t, buf, |bytes|);
    }

    method Feed(i: Input, held: Modifiers) returns (held': Modifiers)
      requires Valid() && Acceptable(i)
      modifies Footprint()
      ensures Valid() && View() == Step(old(View()), EventOf(i, held)) && held' == HeldAfter(i, held)
      ensures forall t :: 0 <= t < TERMINALS ==>
                lines[t].submitted == old(lines[t].submitted) + Handed(old(View()), i, t)
    {
      held' := held;
      match i {
        case Scan(code) => held' := Handle(code, held);
        case Print(t, bytes) => PrintBytes(t, bytes);
        case Serve(t, byShell) => Read(t, byShell);
        case SetTyping(t, allowed) => Allow(t, allowed);
      }
    }

    /** Every run of scan codes, output and reads does to the three terminals what it means, and the
        lines that it hands to shells join the submissions. */
    method RunAll(inputs: seq<Input>, held: Modifiers)
      requires Valid() && forall i :: 0 <= i < |inputs| ==> Acceptable(inputs[i])
      modifies Footprint()
      ensures Valid() && View() == Run(old(View()), Events(inputs, held))
      ensures forall t :: 0 <= t < TERMINALS ==>
                lines[t].submitted == old(lines[t].submitted) + HandedOver(old(View()), inputs, held, t)
    {
      ghost var goal := Run(View(), Events(inputs, held));
      ghost var totals := StartOfCourse(View(), Submissions(), inputs, held);
      var i, held' := 0, held;
      while i < |inputs|
        invariant 0 <= i <= |inputs| && Valid()
        invariant OnCourse(View(), Submissions(), inputs, i, held', goal, totals)
      {
        ghost var c, submitted, m := View(), Submissions(), held';
        held' := Feed(inputs[i], held');
        StaysOnCourse(c, submitted, inputs, i, m, goal, totals, Submissions());
        i := i + 1;
      }
      EndOfCourse(View(), Submissions(), inputs, held', goal, totals);
    }

    /** What the shells of each terminal have read so far. */
    ghost function Submissions(): (s: seq<seq<LineBuffers.Entry>>)
      reads Footprint()
      requires |lines| == TERMINALS
      ensures |s| == TERMINALS && forall t :: 0 <= t < TERMINALS ==> s[t] == lines[t].submitted
    {
      [lines[0].submitted, lines[1].submitted, lines[2].submitted]
    }

    /** The history in real memory after a run: rows 1..9 of every terminal are its nine most recent
        submissions, those of the run being the newest. */
    method RunHistory(inputs: seq<Input>, held: Modifiers)
      requires Valid() && forall i :: 0 <= i < |inputs| ==> Acceptable(inputs[i])
      modifies Footprint()
      ensures Valid()
      ensures forall t :: 0 <= t < TERMINALS ==>
                RowsAre(t, old(lines[t].submitted) + HandedOver(old(View()), inputs, held, t))
    {
      RunAll(inputs, held);
      forall t | 0 <= t < TERMINALS ensures RowsAre(t, lines[t].submitted) {
        SubmittedRows(t);
      }
    }

    ghost predicate RowsAre(t: int, submitted: seq<LineBuffers.Entry>)
      reads Footprint()
      requires Valid() && 0 <= t < TERMINALS
    {
      assert LineReady(t);
      forall k :: 1 <= k <= 9 ==> lines[t].Row(k) == LineBuffers.Recent(submitted, k - 1)
    }

    lemma SubmittedRows(t: int)
      requires Valid() && 0 <= t < TERMINALS
      ensures RowsAre(t, lines[t].submitted)
    {
      assert LineReady(t);
      forall k | 1 <= k <= 9
        ensures lines[t].Row(k) == LineBuffers.Recent(lines[t].submitted, k - 1)
      {
        assert lines[t].HistoryRow(k);
      }
    }

    /** In real memory: the text is in terminal t's keyboard buffer, followed by zeros, and stands
        on its page right before its cursor. */
    ghost predicate Typed(t: int, text: seq<byte>)
      reads Footprint()
      requires Valid() && 0 <= t < TERMINALS
    {
      var l := lines[t];
      && l.keyboardIdx == |text| <= MAX_LINE && |text| <= l.keyboardBuf.Length
      && l.keyboardBuf[..|text|] == text && (forall k :: |text| <= k < l.keyboardBuf.Length ==> l.keyboardBuf[k] == NUL)
      && display.StandsBeforeCursor(t, text)
    }

    lemma AgreedTextIsTyped(t: int, text: seq<byte>)
      requires Valid() && 0 <= t < TERMINALS
      requires TermOf(t).line == text && Agrees(text, display.screens[t], Displays.Attr(t))
      ensures Typed(t, text)
    {
      assert LineReady(t);
      lines[t].LineIsInBuffer();
      display.TextInMemory(t, text);
    }

    /** From an empty line on, whatever happens on the other terminals and however often the display
        is switched: the edited text is in the buffer and on the screen.  `own` is what reaches
        terminal t. */
    method TypeLine(inputs: seq<Input>, held: Modifiers, t: int, ghost own: seq<Local>)
      requires Valid() && forall i :: 0 <= i < |inputs| ==> Acceptable(inputs[i])
      requires 0 <= t < TERMINALS && lines[t].keyboardIdx == 0 && !lines[t].enterFlag
      requires own == Own(View(), Events(inputs, held), t) && OnlyLineKeys(own)
      modifies Footprint()
      ensures Valid() && (forall i :: 0 <= i < |own| ==> Editing(own[i])) && Typed(t, Edited([], own))
    {
      ghost var c, es := View(), Events(inputs, held);
      assert c.terms[t].line == [] by {
        assert LineReady(t);
        lines[t].LineIsInBuffer();
      }
      LineKeysEdit(c, inputs, held, t);
      RunAll(inputs, held);
      TypedLineAgreesWithScreen(c, es, t);
      AgreedTextIsTyped(t, Edited([], own));
    }
  }
}
