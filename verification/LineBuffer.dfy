/** The editing fields of one terminal_t: the line being typed, and the history of submitted
    lines that the arrow keys walk through. */
module LineBuffers {
  import opened Prelude

  const BUF := 128       // bytes in keyboard_buf and in each history row
  const MAX_LINE := 72   // characters accepted on one line
  const ROWS_KEPT := 10  // row 0 is the draft, rows 1..9 the history

  /** A whole buffer and the number of characters in it. */
  datatype Entry = Entry(bytes: seq<byte>, count: int)

  /** A line as it lies in a zero-filled buffer. */
  function Padded(line: seq<byte>): (e: Entry)
    requires |line| <= BUF
    ensures |e.bytes| == BUF
  {
    Entry(line + seq(BUF - |line|, _ => NUL), |line|)
  }

  predicate Fits(e: Entry) { |e.bytes| == BUF && 0 <= e.count <= MAX_LINE }

  /** The k-th most recent submission, counted from 0; an empty line where there is none. */
  function Recent(submitted: seq<Entry>, k: nat): Entry {
    if k < |submitted| then submitted[|submitted| - 1 - k] else Padded([])
  }

  /** What one accepted character does to a buffer. */
  function Typed(e: Entry, c: byte): (r: Entry)
    requires Fits(e) && e.count < MAX_LINE
    ensures Fits(r)
  {
    Entry(e.bytes[e.count := c], e.count + 1)
  }

  function Erased(e: Entry): (r: Entry)
    requires Fits(e) && e.count > 0
    ensures Fits(r)
  {
    Entry(e.bytes[e.count - 1 := NUL], e.count - 1)
  }

  /** On a zero-filled buffer, typing appends to the line and erasing drops its last character. */
  lemma EditingPaddedLines(line: seq<byte>, c: byte)
    requires |line| <= MAX_LINE
    ensures |line| < MAX_LINE ==> Typed(Padded(line), c) == Padded(line + [c])
    ensures line != [] ==> Erased(Padded(line)) == Padded(line[..|line| - 1])
  {
  }

  /** A buffer is a zero-filled line for at most one line. */
  lemma PaddedIsInjective(a: seq<byte>, b: seq<byte>)
    requires |a| <= BUF && |b| <= BUF && Padded(a) == Padded(b)
    ensures a == b
  {
    assert a == Padded(a).bytes[..|a|] && b == Padded(b).bytes[..|b|];
  }

  class LineBuffer {
    const keyboardBuf: array<byte>
    var keyboardIdx: int
    var enterFlag: bool
    const commandBuf: array2<byte>
    const commandIdx: array<int>
    var commandPos: int
    ghost var submitted: seq<Entry>    // everything read by a shell, oldest first
    ghost var line: seq<byte>          // the current line, while the buffer is zero-filled

    /** The buffer being edited. */
    ghost function Current(): Entry
      reads this`keyboardIdx, keyboardBuf
    {
      Entry(keyboardBuf[..], keyboardIdx)
    }

    ghost function Row(k: int): (e: Entry)
      reads commandBuf, commandIdx
      requires commandBuf.Length1 == BUF && 0 <= k < commandBuf.Length0 == commandIdx.Length
      ensures |e.bytes| == BUF
    {
      Entry(seq(BUF, j requires 0 <= j < BUF reads commandBuf => commandBuf[k, j]), commandIdx[k])
    }

    ghost predicate Shape()
      reads this`keyboardIdx, this`commandPos, keyboardBuf, commandBuf, commandIdx
    {
      && keyboardBuf.Length == BUF && commandBuf.Length0 == commandIdx.Length == ROWS_KEPT && commandBuf.Length1 == BUF
      && 0 <= keyboardIdx <= MAX_LINE && 0 <= commandPos < ROWS_KEPT
      && forall k :: 0 <= k < ROWS_KEPT ==> 0 <= commandIdx[k] <= MAX_LINE
    }

    /** Row k holds the k-th most recent submission. */
    ghost predicate HistoryRow(k: int)
      reads this`submitted, commandBuf, commandIdx
    {
      && commandBuf.Length1 == BUF && 1 <= k < commandBuf.Length0 == commandIdx.Length
      && Row(k) == Recent(submitted, k - 1)
    }

    /** Whatever was typed, erased or recalled, rows 1..9 are the nine most recent submissions. */
    ghost predicate Valid()
      reads this, keyboardBuf, commandBuf, commandIdx
    {
      && Shape()
      && (forall k :: 0 <= k < |submitted| ==> Fits(submitted[k]))
      && (forall k :: 1 <= k < ROWS_KEPT ==> HistoryRow(k))
    }

    /** The buffer holds exactly `line`, zeros after it. */
    ghost predicate Clean()
      reads this`line, this`keyboardIdx, keyboardBuf
    {
      |line| <= MAX_LINE && Current() == Padded(line)
    }

    /** So the typed line is what the real fields hold, and nothing else is in the buffer. */
    lemma LineIsInBuffer()
      requires Valid() && Clean()
      ensures keyboardIdx == |line| && line == keyboardBuf[..keyboardIdx]
      ensures forall k :: keyboardIdx <= k < BUF ==> keyboardBuf[k] == NUL
      ensures forall other :: |other| <= MAX_LINE && Current() == Padded(other) ==> other == line
    {
      assert keyboardBuf[..] == Padded(line).bytes;
      forall other | |other| <= MAX_LINE && Current() == Padded(other) ensures other == line {
        PaddedIsInjective(other, line);
      }
    }

    constructor ()
      ensures Valid() && Clean() && line == [] && submitted == [] && !enterFlag && commandPos == 0
      ensures fresh(keyboardBuf) && fresh(commandBuf) && fresh(commandIdx)
    {
      keyboardBuf := new byte[BUF](_ => NUL);
      commandBuf := new byte[ROWS_KEPT, BUF]((_, _) => NUL);
      commandIdx := new int[ROWS_KEPT](_ => 0);
      keyboardIdx, commandPos, enterFlag := 0, 0, false;
      line, submitted := [], [];
    }

    /** On entry the handler forgets a pending Enter. */
    method DropEnter()
      requires Valid()
      modifies this`enterFlag
      ensures Valid() && !enterFlag && (old(Clean()) ==> Clean())
    {
      enterFlag := false;
    }

    /** What the handler copies to its local buffer: nothing, if an Enter is still pending. */
    ghost function Start(): Entry
      reads this`enterFlag, this`keyboardIdx, keyboardBuf
    {
      if enterFlag then Padded([]) else Current()
    }

    ghost function StartLine(): seq<byte>
      reads this`enterFlag, this`line
    {
      if enterFlag then [] else line
    }

    /** Buffer part of an accepted character: the handler edits its local copy and writes all 128
        bytes back. */
    method TypeChar(c: byte) returns (accepted: bool)
      requires Valid()
      modifies this`enterFlag, this`keyboardIdx, this`line, keyboardBuf
      ensures Valid() && !enterFlag
      ensures accepted == (old(Start()).count < 72)
      ensures Current() == if accepted then Typed(old(Start()), c) else old(Current())
      ensures line == if accepted then old(StartLine()) + [c] else old(line)
      ensures old(Clean() || enterFlag) && accepted ==> Clean()
    {
      var local := new byte[BUF](_ => NUL);
      var index := 0;
      ghost var start, startLine := Start(), StartLine();
      if enterFlag {
        enterFlag := false;
      } else {
        CopyBytes(local, keyboardBuf);
        index := keyboardIdx;
      }
      assert local[..] == start.bytes && index == start.count;
      accepted := index < MAX_LINE;
      if accepted {
        local[index] := c;
        keyboardIdx := index + 1;
        CopyBytes(keyboardBuf, local);
        line := startLine + [c];
        if |startLine| <= MAX_LINE { EditingPaddedLines(startLine, c); }
      }
    }

    static method CopyBytes(to: array<byte>, from: array<byte>)
      requires to.Length == from.Length == BUF && to != from
      modifies to
      ensures to[..] == from[..]
    {
      for i := 0 to BUF
        invariant to[..i] == from[..i]
      {
        to[i] := from[i];
      }
    }

    /** Buffer part of a backspace that the screen position allows.  The draft row receives the
        bytes as they were before the deletion, but the count after it. */
    method Backspace() returns (deleted: bool)
      requires Valid()
      modifies this`enterFlag, this`keyboardIdx, this`line, keyboardBuf, commandBuf, commandIdx
      ensures Valid() && !enterFlag
      ensures deleted == (old(Start()).count > 0)
      ensures Current() == if deleted then Erased(old(Current())) else old(Current())
      ensures deleted ==> Row(0) == Entry(old(keyboardBuf[..]), keyboardIdx)
      ensures line == if deleted && old(line) != [] then old(line)[..|old(line)| - 1] else old(line)
      ensures old(Clean()) ==> Clean()
    {
      if enterFlag {
        enterFlag := false;
        return false;
      }
      if keyboardIdx == 0 { return false; }
      DeleteLast();
      return true;
    }

    method DeleteLast()
      requires Valid() && keyboardIdx > 0
      modifies this`keyboardIdx, this`line, keyboardBuf, commandBuf, commandIdx
      ensures Valid() && Current() == Erased(old(Current())) && Row(0) == Entry(old(keyboardBuf[..]), keyboardIdx)
      ensures line == if old(line) != [] then old(line)[..|old(line)| - 1] else old(line)
      ensures old(Clean()) ==> Clean()
    {
      if Clean() { EditingPaddedLines(line, NUL); }
      SaveDraft(keyboardIdx - 1);
      keyboardIdx := keyboardIdx - 1;
      keyboardBuf[keyboardIdx] := NUL;
      if line != [] { line := line[..|line| - 1]; }
    }

    /** Row 0 receives the keyboard buffer; the history rows stay. */
    method SaveDraft(idx: int)
      requires Valid() && 0 <= idx <= MAX_LINE
      modifies commandBuf, commandIdx
      ensures Valid() && Row(0) == Entry(keyboardBuf[..], idx)
    {
      SetRow(0, keyboardBuf);
      commandIdx[0] := idx;
      forall k | 1 <= k < ROWS_KEPT ensures HistoryRow(k) {
        assert old(HistoryRow(k)) && Row(k) == old(Row(k));
      }
    }

    /** memcpy of a whole row. */
    method SetRow(k: int, from: array<byte>)
      requires Shape() && 0 <= k < ROWS_KEPT && from.Length == BUF
      modifies commandBuf
      ensures Row(k).bytes == from[..]
      ensures forall i :: 0 <= i < ROWS_KEPT && i != k ==> Row(i) == old(Row(i))
    {
      for j := 0 to BUF
        invariant forall i :: 0 <= i < j ==> commandBuf[k, i] == from[i]
        invariant forall a, b :: 0 <= a < ROWS_KEPT && 0 <= b < BUF && a != k ==>
            commandBuf[a, b] == old(commandBuf[a, b])
      {
        commandBuf[k, j] := from[j];
      }
    }

    method LoadRow(k: int)
      requires Shape() && 0 <= k < ROWS_KEPT
      modifies keyboardBuf, this`keyboardIdx
      ensures Shape() && Current() == Row(k)
    {
      for j := 0 to BUF
        invariant forall i :: 0 <= i < j ==> keyboardBuf[i] == commandBuf[k, i]
      {
        keyboardBuf[j] := commandBuf[k, j];
      }
      keyboardIdx := commandIdx[k];
    }

    /** Up arrow: one step further back, if one may type and there is a non-empty line there. */
    method Up(typing: bool) returns (moved: bool)
      requires Valid()
      modifies this`enterFlag, this`keyboardIdx, this`commandPos, this`line, keyboardBuf, commandBuf, commandIdx
      ensures Valid() && !enterFlag
      ensures moved == (typing && old(commandPos) < 9 && Recent(submitted, old(commandPos)).count != 0)
      ensures commandPos == old(commandPos) + (if moved then 1 else 0)
      ensures Current() == if moved then Recent(submitted, commandPos - 1) else old(Current())
      ensures Row(0) == if moved && commandPos == 1 then old(Current()) else old(Row(0))
      ensures line == if moved then keyboardBuf[..keyboardIdx] else old(line)
    {
      enterFlag := false;
      if !typing { return false; }
      if commandPos >= ROWS_KEPT - 1 { return false; }
      commandPos := commandPos + 1;
      assert HistoryRow(commandPos);
      if commandIdx[commandPos] == 0 {
        commandPos := commandPos - 1;
        return false;
      }
      if commandPos == 1 {
        SaveDraft(keyboardIdx);
      }
      assert HistoryRow(commandPos);
      LoadRow(commandPos);
      line := keyboardBuf[..keyboardIdx];
      return true;
    }

    /** Down arrow: one step towards the draft, which is reloaded byte for byte at row 0. */
    method Down(typing: bool) returns (moved: bool)
      requires Valid()
      modifies this`enterFlag, this`keyboardIdx, this`commandPos, this`line, keyboardBuf
      ensures Valid() && !enterFlag && moved == (typing && old(commandPos) > 0)
      ensures commandPos == old(commandPos) - (if moved then 1 else 0)
      ensures Current() == if !moved then old(Current())
          else if commandPos > 0 then Recent(submitted, commandPos - 1) else Row(0)
      ensures line == if moved then keyboardBuf[..keyboardIdx] else old(line)
    {
      enterFlag := false;
      if !typing { return false; }
      if commandPos <= 0 { return false; }
      commandPos := commandPos - 1;
      LoadRow(commandPos);
      line := keyboardBuf[..keyboardIdx];
      if commandPos > 0 { assert HistoryRow(commandPos); }
      return true;
    }

    /** From the draft, Up followed by Down changes nothing. */
    method UpThenDown(typing: bool)
      requires Valid() && commandPos == 0
      modifies this`enterFlag, this`keyboardIdx, this`commandPos, this`line, keyboardBuf, commandBuf, commandIdx
      ensures Valid() && Current() == old(Current()) && commandPos == 0 && submitted == old(submitted)
    {
      var up := Up(typing);
      var down := Down(typing);
    }

    /** A backspace in a recalled line spoils the draft: coming back down, the buffer still holds
        the deleted character behind the line, unless that character was a NUL. */
    method DraftAfterRecalledBackspace(ghost recalled: seq<byte>)
      requires Valid() && commandPos == 0 && 0 < |recalled| <= MAX_LINE && Recent(submitted, 0) == Padded(recalled)
      modifies this`enterFlag, this`keyboardIdx, this`commandPos, this`line, keyboardBuf, commandBuf, commandIdx
      ensures Valid() && commandPos == 0 && Current() == Entry(Padded(recalled).bytes, |recalled| - 1)
      ensures Clean() <==> recalled[|recalled| - 1] == NUL
    {
      var up := Up(true);
      var deleted := Backspace();
      var down := Down(true);
      ghost var n := |recalled| - 1;
      assert Padded(recalled).bytes[n] == recalled[n];
      assert line == recalled[..n];
      assert Padded(line).bytes[n] == NUL;
      if recalled[n] == NUL { assert Padded(recalled).bytes == Padded(line).bytes; }
    }

    /** Enter is only noted; the waiting reader takes the line. */
    method Enter()
      requires Valid()
      modifies this`enterFlag
      ensures Valid() && enterFlag
    {
      enterFlag := true;
    }

    /** One row of the history shift. */
    method CopyRow(to: int, from: int)
      requires Shape() && 1 <= to < ROWS_KEPT && 1 <= from < ROWS_KEPT && to != from
      modifies commandBuf, commandIdx
      ensures Shape() && Row(to) == old(Row(from))
      ensures forall i :: 0 <= i < ROWS_KEPT && i != to ==> Row(i) == old(Row(i))
    {
      for j := 0 to BUF
        invariant forall i :: 0 <= i < j ==> commandBuf[to, i] == old(commandBuf[from, i])
        invariant forall a, b :: 0 <= a < ROWS_KEPT && 0 <= b < BUF && a != to ==>
            commandBuf[a, b] == old(commandBuf[a, b])
        modifies commandBuf
      {
        commandBuf[to, j] := commandBuf[from, j];
      }
      commandIdx[to] := commandIdx[from];
    }

    ghost predicate ShiftedRow(k: int)
      reads this`submitted, commandBuf, commandIdx
    {
      && commandBuf.Length1 == BUF && 2 <= k < commandBuf.Length0 == commandIdx.Length
      && Row(k) == Recent(submitted, k - 2)
    }

    /** History rows 1..8 move to 2..9, last one first. */
    method ShiftRows()
      requires Valid()
      modifies commandBuf, commandIdx
      ensures Shape()
      ensures forall k :: 2 <= k < ROWS_KEPT ==> ShiftedRow(k)
    {
      var k := ROWS_KEPT - 1;
      while k > 1
        invariant 1 <= k < ROWS_KEPT && Shape()
        invariant forall i :: 1 <= i <= k ==> HistoryRow(i)
        invariant forall i :: k < i < ROWS_KEPT ==> ShiftedRow(i)
      {
        label before:
        CopyRow(k, k - 1);
        forall i | 1 <= i < k ensures HistoryRow(i) {
          assert old@before(HistoryRow(i)) && Row(i) == old@before(Row(i));
        }
        forall i | k <= i < ROWS_KEPT ensures ShiftedRow(i) {
          if i == k {
            assert old@before(HistoryRow(k - 1));
          } else {
            assert old@before(ShiftedRow(i)) && Row(i) == old@before(Row(i));
          }
        }
        k := k - 1;
      }
    }

    /** The line itself becomes row 1, and the draft row is emptied. */
    method EnterHistory()
      requires Shape() && (forall k :: 2 <= k < ROWS_KEPT ==> ShiftedRow(k))
      requires forall k :: 0 <= k < |submitted| ==> Fits(submitted[k])
      modifies this`commandPos, this`submitted, commandBuf, commandIdx
      ensures Valid() && submitted == old(submitted) + [Current()] && commandPos == 0 && Row(0) == Padded([])
    {
      for j := 0 to BUF
        invariant forall i :: 0 <= i < j ==> commandBuf[1, i] == keyboardBuf[i] && commandBuf[0, i] == NUL
        invariant forall a, b :: 2 <= a < ROWS_KEPT && 0 <= b < BUF ==> commandBuf[a, b] == old(commandBuf[a, b])
        modifies commandBuf
      {
        commandBuf[1, j] := keyboardBuf[j];
        commandBuf[0, j] := NUL;
      }
      commandIdx[1] := keyboardIdx;
      commandIdx[0] := 0;
      commandPos := 0;
      submitted := submitted + [Current()];
      assert Row(1).bytes == keyboardBuf[..];
      forall k | 1 <= k < ROWS_KEPT ensures HistoryRow(k) {
        if k > 1 {
          assert old(ShiftedRow(k)) && Row(k) == old(Row(k));
        }
      }
    }

    /** The end of `terminal_read`, once Enter was seen: a shell's line enters the history, and the
        buffer starts afresh. */
    method ConsumeLine(byShell: bool)
      requires Valid() && enterFlag
      modifies this`enterFlag, this`keyboardIdx, this`commandPos, this`line, this`submitted, keyboardBuf,
        commandBuf, commandIdx
      ensures Valid() && Clean() && line == [] && !enterFlag
      ensures submitted == if byShell then old(submitted) + [old(Current())] else old(submitted)
      ensures commandPos == if byShell then 0 else old(commandPos)
    {
      if byShell {
        ShiftRows();
        EnterHistory();
      }
      for j := 0 to BUF
        invariant forall i :: 0 <= i < j ==> keyboardBuf[i] == NUL
        modifies keyboardBuf
      {
        keyboardBuf[j] := NUL;
      }
      keyboardIdx, enterFlag, line := 0, false, [];
    }
  }
}
