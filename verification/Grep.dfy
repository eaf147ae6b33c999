/** The grep user program: a 1 KB buffer is refilled from the file, the unfinished line at its
    end is carried to the front, and every line is searched in place.  Proved equal to splitting
    the whole file into lines and reporting those that contain the pattern. */
module Grep {
  import opened Prelude
  import opened CStrings

  const BUFSIZE := 1024

  // ---------- what grep should print ----------

  function FindNewline(text: seq<byte>): (k: nat)
    ensures k <= |text| && NEWLINE !in text[..k]
    ensures k < |text| ==> text[k] == NEWLINE
  {
    if text == [] || text[0] == NEWLINE then 0 else 1 + FindNewline(text[1..])
  }

  /** The pieces between newlines; what follows the last newline counts as a line too. */
  function Lines(text: seq<byte>): (ls: seq<seq<byte>>)
    ensures |ls| >= 1
  {
    var k := FindNewline(text);
    if k == |text| then [text] else [text[..k]] + Lines(text[k + 1..])
  }

  function Join(ls: seq<seq<byte>>): seq<byte>
    requires |ls| >= 1
  {
    if |ls| == 1 then ls[0] else ls[0] + [NEWLINE] + Join(ls[1..])
  }

  ghost predicate MatchAt(line: seq<byte>, pat: seq<byte>, k: nat) {
    k + |pat| <= |line| && line[k..k + |pat|] == pat
  }

  ghost predicate Contains(line: seq<byte>, pat: seq<byte>) {
    exists k: nat :: MatchAt(line, pat, k)
  }

  /** The program compares from each byte of the line on, so it never finds an empty pattern. */
  ghost predicate Matches(line: seq<byte>, pat: seq<byte>) {
    pat != [] && Contains(line, pat)
  }

  /** `name:line` and a newline for a matching line, nothing for any other. */
  ghost function Emit(line: seq<byte>, pat: seq<byte>, name: seq<byte>): seq<byte> {
    if Matches(line, pat) then name + [58] + line + [NEWLINE] else []
  }

  ghost function EmitAll(ls: seq<seq<byte>>, pat: seq<byte>, name: seq<byte>): seq<byte> {
    if ls == [] then [] else Emit(ls[0], pat, name) + EmitAll(ls[1..], pat, name)
  }

  ghost function Report(text: seq<byte>, pat: seq<byte>, name: seq<byte>): seq<byte> {
    EmitAll(Lines(text), pat, name)
  }

  /** No line is too long for the buffer. */
  ghost predicate ShortLines(text: seq<byte>) {
    forall l :: l in Lines(text) ==> |l| < BUFSIZE
  }

  lemma {:induction false} NothingEmitted(ls: seq<seq<byte>>, name: seq<byte>)
    ensures EmitAll(ls, [], name) == []
  {
    if ls != [] { NothingEmitted(ls[1..], name); }
  }

  /** Every line contains the empty pattern, but none is reported. */
  lemma EmptyPatternPrintsNothing(text: seq<byte>, name: seq<byte>)
    ensures Report(text, [], name) == [] && forall l :: l in Lines(text) ==> Contains(l, [])
  {
    NothingEmitted(Lines(text), name);
    forall l ensures Contains(l, []) { assert MatchAt(l, [], 0); }
  }

  lemma JoinCons(l: seq<byte>, ls: seq<seq<byte>>)
    requires |ls| >= 1
    ensures Join([l] + ls) == l + [NEWLINE] + Join(ls)
  {
    assert ([l] + ls)[1..] == ls;
  }

  /** A newline-free start is skipped as a whole. */
  lemma {:induction false} FindNewlineSkips(start: seq<byte>, rest: seq<byte>)
    requires NEWLINE !in start
    ensures FindNewline(start + rest) == |start| + FindNewline(rest)
  {
    if start == [] {
      assert start + rest == rest;
    } else {
      assert (start + rest)[1..] == start[1..] + rest;
      FindNewlineSkips(start[1..], rest);
    }
  }

  lemma FirstCut(line: seq<byte>, rest: seq<byte>)
    requires NEWLINE !in line
    ensures Lines(line + [NEWLINE] + rest) == [line] + Lines(rest)
  {
    var text := line + [NEWLINE] + rest;
    assert text[..|line|] == line && text[|line| + 1..] == rest;
    assert text == line + ([NEWLINE] + rest);
    FindNewlineSkips(line, [NEWLINE] + rest);
  }

  lemma JoinCut(text: seq<byte>, line: seq<byte>, rest: seq<byte>)
    requires NEWLINE !in line && text == line + [NEWLINE] + rest && Join(Lines(rest)) == rest
    ensures Join(Lines(text)) == text
  {
    FirstCut(line, rest);
    JoinCons(line, Lines(rest));
  }

  lemma CutAt(text: seq<byte>, k: nat)
    requires k < |text|
    ensures text == text[..k] + [text[k]] + text[k + 1..]
  {
  }

  /** `Lines` cuts exactly at the newlines: joining the pieces gives the text back, ... */
  lemma {:induction false} LinesJoinToText(text: seq<byte>)
    ensures Join(Lines(text)) == text
    decreases |text|
  {
    var k := FindNewline(text);
    if k == |text| {
      assert Lines(text) == [text];
    } else {
      CutAt(text, k);
      LinesJoinToText(text[k + 1..]);
      JoinCut(text, text[..k], text[k + 1..]);
    }
  }

  /** ... and no piece holds a newline. */
  lemma {:induction false} LinesHoldNoNewline(text: seq<byte>, i: nat)
    requires i < |Lines(text)|
    ensures NEWLINE !in Lines(text)[i]
    decreases |text|
  {
    var k := FindNewline(text);
    if k < |text| && i > 0 {
      LinesHoldNoNewline(text[k + 1..], i - 1);
    }
  }

  lemma FirstLine(line: seq<byte>, rest: seq<byte>, pat: seq<byte>, name: seq<byte>)
    requires NEWLINE !in line
    ensures Lines(line + [NEWLINE] + rest) == [line] + Lines(rest)
    ensures Report(line + [NEWLINE] + rest, pat, name) == Emit(line, pat, name) + Report(rest, pat, name)
    ensures ShortLines(line + [NEWLINE] + rest) ==> ShortLines(rest)
  {
    FirstCut(line, rest);
    assert ([line] + Lines(rest))[1..] == Lines(rest);
  }

  lemma OnlyLine(line: seq<byte>, pat: seq<byte>, name: seq<byte>)
    requires NEWLINE !in line
    ensures Lines(line) == [line]
    ensures Report(line, pat, name) == Emit(line, pat, name)
  {
    assert line + [] == line;
    FindNewlineSkips(line, []);
    assert [line][1..] == [];
    assert Emit(line, pat, name) + EmitAll([], pat, name) == Emit(line, pat, name);
  }

  /** Each of the lines that match, in order, behind the name and a colon; and what follows the last
      line end, nothing. */
  ghost function Labelled(ls: seq<seq<byte>>, pat: seq<byte>, name: seq<byte>): (r: seq<seq<byte>>)
    ensures |r| >= 1
  {
    if ls == [] then [[]]
    else if Matches(ls[0], pat) then [name + Ascii(":") + ls[0]] + Labelled(ls[1..], pat, name)
    else Labelled(ls[1..], pat, name)
  }

  lemma EmittedLine(line: seq<byte>, pat: seq<byte>, name: seq<byte>, rest: seq<byte>)
    requires NEWLINE !in name && NEWLINE !in line && Matches(line, pat)
    ensures Lines(Emit(line, pat, name) + rest) == [name + Ascii(":") + line] + Lines(rest)
  {
    var labelled := name + Ascii(":") + line;
    assert Ascii(":") == [58];
    assert NEWLINE !in labelled;
    FirstCut(labelled, rest);
  }

  lemma {:induction false} EmittedLines(ls: seq<seq<byte>>, pat: seq<byte>, name: seq<byte>)
    requires NEWLINE !in name && forall i :: 0 <= i < |ls| ==> NEWLINE !in ls[i]
    ensures Lines(EmitAll(ls, pat, name)) == Labelled(ls, pat, name)
  {
    if ls != [] {
      var rest := EmitAll(ls[1..], pat, name);
      EmittedLines(ls[1..], pat, name);
      if Matches(ls[0], pat) {
        EmittedLine(ls[0], pat, name, rest);
      } else {
        assert [] + rest == rest;
      }
    }
  }

  /** Read back line by line, the report is `name:line` for the matching lines. */
  lemma ReportLines(text: seq<byte>, pat: seq<byte>, name: seq<byte>)
    requires NEWLINE !in name
    ensures Lines(Report(text, pat, name)) == Labelled(Lines(text), pat, name)
  {
    forall i | 0 <= i < |Lines(text)| ensures NEWLINE !in Lines(text)[i] {
      LinesHoldNoNewline(text, i);
    }
    EmittedLines(Lines(text), pat, name);
  }

  lemma LongStart(start: seq<byte>, rest: seq<byte>)
    requires NEWLINE !in start && |start| >= BUFSIZE
    ensures !ShortLines(start + rest)
  {
    var text := start + rest;
    FindNewlineSkips(start, rest);
    assert Lines(text)[0] == text[..FindNewline(text)];
    assert Lines(text)[0] in Lines(text);
  }

  lemma EmptyLineNeverMatches(pat: seq<byte>, name: seq<byte>)
    ensures Emit([], pat, name) == []
  {
  }

  // ---------- the program ----------

  /** `ece391_strcpy` onto an earlier place in the same buffer. */
  method CopyDown(data: array<byte>, src: nat)
    requires 0 < src <= data.Length && Terminated(data[src..])
    modifies data
    ensures var n := |CStr(old(data[src..]))|;
            && data[..n] == CStr(old(data[src..])) && data[n] == NUL
            && data[n + 1..] == old(data[n + 1..])
  {
    ghost var s, tail := CStr(data[src..]), data[..];
    var k := 0;
    while data[src + k] != NUL
      invariant k <= |s|
      invariant data[..k] == s[..k]
      invariant forall j :: k <= j < data.Length ==> data[j] == tail[j]
      decreases |s| - k
    {
      assert data[src + k] == tail[src..][k];
      Continues(tail[src..], k);
      data[k] := data[src + k];
      k := k + 1;
    }
    assert tail[src..][k] == NUL;
    Ends(tail[src..], k);
    data[k] := NUL;
  }

  lemma MatchIsPrefix(line: seq<byte>, pat: seq<byte>, k: nat)
    requires k <= |line|
    ensures MatchAt(line, pat, k) <==> Take(line[k..], |pat|) == pat
    ensures pat != [] && MatchAt(line, pat, k) ==> k < |line| && line[k] == pat[0]
  {
    if k + |pat| <= |line| {
      assert Take(line[k..], |pat|) == line[k..k + |pat|];
      if pat != [] { assert line[k..k + |pat|][0] == line[k]; }
    }
  }

  /** The inner search: is the pattern at one of the positions of the line? */
  method SearchLine(data: array<byte>, from: nat, to: nat, s: seq<byte>) returns (found: bool)
    requires from <= to < data.Length && data[to] == NUL && NUL !in data[from..to]
    requires Terminated(s)
    ensures found <==> Matches(data[from..to], CStr(s))
  {
    ghost var line, pat := data[from..to], CStr(s);
    var len := StrLen(s);
    var check := from;
    while check < to
      invariant from <= check <= to
      invariant pat != [] ==> forall k: nat :: k < check - from ==> !MatchAt(line, pat, k)
    {
      LineSuffix(data[..], from, check, to);
      assert data[..][check..] == data[check..];
      MatchIsPrefix(line, pat, check - from);
      assert pat == [] || s[0] == pat[0];
      if s[0] == data[check] {
        var r := StrNCmp(data[check..], s, len);
        if r == 0 { return true; }
      }
      check := check + 1;
    }
    forall k: nat ensures pat != [] ==> !MatchAt(line, pat, k) {
      if k == |line| { MatchIsPrefix(line, pat, k); }
    }
    found := false;
  }

  lemma LineSuffix(d: seq<byte>, from: nat, check: nat, to: nat)
    requires from <= check < to < |d| && d[to] == NUL && NUL !in d[from..to]
    ensures CStr(d[check..]) == d[from..to][check - from..] && Terminated(d[check..])
    ensures d[check] != NUL
  {
    var n := to - check;
    assert d[check..][..n] == d[from..to][check - from..];
    CStrIs(d[check..], n);
    assert d[from..to][check - from] == d[check];
  }

  /** The finder of the end of a line, from `from`. */
  method FindLineEnd(data: array<byte>, from: nat, last: nat) returns (to: nat)
    requires from <= last <= data.Length
    ensures from <= to <= last && NEWLINE !in data[from..to] && (to < last ==> data[to] == NEWLINE)
  {
    to := from;
    while to < last && data[to] != NEWLINE
      invariant from <= to <= last && NEWLINE !in data[from..to]
    {
      to := to + 1;
    }
  }

  /** What one pass over a filled buffer starts and ends with: the printed text plus the report of
      what is still to be read (`buffered` and then `rest`) is the wanted report. */
  ghost predicate OnTrack(wanted: seq<byte>, out: seq<byte>, buffered: seq<byte>, rest: seq<byte>,
                          pat: seq<byte>, name: seq<byte>) {
    && wanted == out + Report(buffered + rest, pat, name)
    && ShortLines(buffered + rest) && NUL !in buffered && NUL !in rest
  }

  lemma NotInTail(b: byte, start: seq<byte>, end: seq<byte>)
    requires b !in start + end
    ensures b !in start && b !in end
  {
    assert forall k :: 0 <= k < |start| ==> start[k] == (start + end)[k];
    assert forall k :: 0 <= k < |end| ==> end[k] == (start + end)[|start| + k];
  }

  lemma Regroup(a: seq<byte>, b: seq<byte>, c: seq<byte>)
    ensures a + b + c == a + (b + c)
  {
  }

  lemma AfterLine(wanted: seq<byte>, out: seq<byte>, line: seq<byte>, more: seq<byte>, rest: seq<byte>,
                  pat: seq<byte>, name: seq<byte>)
    requires NEWLINE !in line && OnTrack(wanted, out, line + [NEWLINE] + more, rest, pat, name)
    ensures OnTrack(wanted, out + Emit(line, pat, name), more, rest, pat, name)
  {
    Regroup(line + [NEWLINE], more, rest);
    FirstLine(line, more + rest, pat, name);
    NotInTail(NUL, line + [NEWLINE], more);
    Regroup(out, Emit(line, pat, name), Report(more + rest, pat, name));
  }

  lemma AfterLastLine(wanted: seq<byte>, out: seq<byte>, line: seq<byte>, pat: seq<byte>, name: seq<byte>)
    requires NEWLINE !in line && OnTrack(wanted, out, line, [], pat, name)
    ensures OnTrack(wanted, out + Emit(line, pat, name), [], [], pat, name)
  {
    assert line + [] == line;
    var nothing: seq<byte> := [];
    assert nothing + nothing == nothing;
    OnlyLine(line, pat, name);
    OnlyLine([], pat, name);
    EmptyLineNeverMatches(pat, name);
  }

  /** An unfinished line cannot fill the buffer. */
  lemma PieceIsShort(wanted: seq<byte>, out: seq<byte>, piece: seq<byte>, rest: seq<byte>, pat: seq<byte>,
                     name: seq<byte>)
    requires OnTrack(wanted, out, piece, rest, pat, name) && NEWLINE !in piece
    ensures |piece| < BUFSIZE
  {
    if |piece| >= BUFSIZE { LongStart(piece, rest); }
  }

  /** Searches one line and prints it if it matches. */
  method PrintIfMatch(data: array<byte>, from: nat, to: nat, s: seq<byte>, name: seq<byte>, out: seq<byte>)
      returns (out': seq<byte>)
    requires from <= to < data.Length && data[to] == NUL && NUL !in data[from..to] && Terminated(s)
    ensures out' == out + Emit(data[from..to], CStr(s), name)
  {
    var found := SearchLine(data, from, to, s);
    out' := out;
    if found {
      out' := out' + name;
      out' := out' + [58];
      out' := out' + data[from..to];
      out' := out' + [NEWLINE];
    }
  }

  /** Carries an unfinished line to the front of the buffer. */
  method Carry(data: array<byte>, start: nat, filled: nat) returns (last: nat)
    requires 0 < start < filled < data.Length && NUL !in data[start..filled]
    modifies data
    ensures last == filled - start && data[..last] == old(data[start..filled])
    ensures forall k :: filled < k < data.Length ==> data[k] == old(data[k])
    ensures data[filled] == NUL
  {
    ghost var carried := data[start..filled];
    data[filled] := NUL;
    assert data[start..][..filled - start] == carried;
    CStrIs(data[start..], filled - start);
    ghost var mid := data[..];
    CopyDown(data, start);
    last := filled - start;
    assert forall k :: last < k < data.Length ==> data[k] == data[last + 1..][k - last - 1];
    assert forall k :: last < k < data.Length ==> mid[k] == mid[last + 1..][k - last - 1];
  }

  lemma CutLine(d: seq<byte>, start: nat, end: nat, filled: nat)
    requires start <= end <= filled <= |d| && (end < filled ==> d[end] == NEWLINE)
    ensures d[start..filled] == if end < filled then d[start..end] + [NEWLINE] + d[end + 1..filled] else d[start..end]
    ensures NUL !in d[start..filled] ==> NUL !in d[start..end]
  {
    assert forall k :: 0 <= k < end - start ==> d[start..end][k] == d[start..filled][k];
  }

  /** Terminates the line at `end`, searches it, and leaves what follows it. */
  method FinishLine(data: array<byte>, start: nat, end: nat, filled: nat, s: seq<byte>, name: seq<byte>,
                    out: seq<byte>, ghost wanted: seq<byte>, ghost rest: seq<byte>)
      returns (out': seq<byte>, ghost next: nat)
    requires start <= end <= filled < data.Length && Terminated(s)
    requires NEWLINE !in data[start..end] && (if end < filled then data[end] == NEWLINE else rest == [])
    requires OnTrack(wanted, out, data[start..filled], rest, CStr(s), name)
    modifies data
    ensures next == if end < filled then end + 1 else filled
    ensures OnTrack(wanted, out', data[next..filled], rest, CStr(s), name)
    ensures data[..] == old(data[..])[end := NUL]
  {
    next := if end < filled then end + 1 else filled;
    ghost var line, more, pat := data[start..end], data[next..filled], CStr(s);
    CutLine(data[..], start, end, filled);
    data[end] := NUL;
    assert data[start..end] == line && data[next..filled] == more;
    out' := PrintIfMatch(data, start, end, s, name, out);
    if end < filled {
      AfterLine(wanted, out, line, more, rest, pat, name);
    } else {
      AfterLastLine(wanted, out, line, pat, name);
    }
  }

  /** A line that ends with the buffer is the last one of the file, or it has to be carried. */
  lemma EndsWithBuffer(wanted: seq<byte>, out: seq<byte>, piece: seq<byte>, filled: nat, cnt: nat, next: byte,
                       rest: seq<byte>, pat: seq<byte>, name: seq<byte>)
    requires NEWLINE !in piece && OnTrack(wanted, out, piece, rest, pat, name)
    requires rest != [] ==> filled == BUFSIZE && cnt != 0 && next != NEWLINE
    requires next == NEWLINE || cnt == 0 || |piece| == filled
    ensures rest == [] && |piece| < BUFSIZE
  {
    PieceIsShort(wanted, out, piece, rest, pat, name);
  }

  /** One line of a filled buffer: search it, or carry it to the front if it is unfinished. */
  method NextLine(data: array<byte>, start: nat, filled: nat, cnt: nat, s: seq<byte>, name: seq<byte>, out: seq<byte>,
                  ghost wanted: seq<byte>, ghost rest: seq<byte>)
      returns (more: bool, next: nat, out': seq<byte>)
    requires data.Length == BUFSIZE + 1 && filled <= BUFSIZE && Terminated(s)
    requires start == 0 || start < filled
    requires OnTrack(wanted, out, data[start..filled], rest, CStr(s), name)
    requires rest != [] ==> filled == BUFSIZE && cnt != 0 && data[BUFSIZE] != NEWLINE
    modifies data
    ensures data[BUFSIZE] == old(data[BUFSIZE]) || data[BUFSIZE] == NUL
    ensures more ==> start < next < filled && OnTrack(wanted, out', data[next..filled], rest, CStr(s), name)
    ensures !more ==> next < BUFSIZE && next <= filled && (cnt == 0 ==> next == 0)
    ensures !more ==> OnTrack(wanted, out', data[..next], rest, CStr(s), name)
  {
    var end := FindLineEnd(data, start, filled);
    if data[end] != NEWLINE && cnt != 0 && start != 0 {
      next := Carry(data, start, filled);
      return false, next, out;
    }
    if end == filled {
      EndsWithBuffer(wanted, out, data[start..filled], filled, cnt, data[filled], rest, CStr(s), name);
    }
    ghost var after;
    out', after := FinishLine(data, start, end, filled, s, name, out, wanted, rest);
    if end + 1 < filled {
      assert after == end + 1;
      return true, end + 1, out';
    }
    assert data[after..filled] == data[..0];
    return false, 0, out';
  }

  /** One round of the outer loop after the read: search all complete lines, carry the rest. */
  method SearchBuffer(data: array<byte>, filled: nat, cnt: nat, s: seq<byte>, name: seq<byte>, out: seq<byte>,
                      ghost wanted: seq<byte>, ghost rest: seq<byte>)
      returns (last: nat, out': seq<byte>)
    requires data.Length == BUFSIZE + 1 && filled <= BUFSIZE && Terminated(s)
    requires OnTrack(wanted, out, data[..filled], rest, CStr(s), name)
    requires rest != [] ==> filled == BUFSIZE && cnt != 0 && data[BUFSIZE] != NEWLINE
    modifies data
    ensures last < BUFSIZE && last <= filled && (cnt == 0 ==> last == 0)
    ensures OnTrack(wanted, out', data[..last], rest, CStr(s), name)
    ensures data[BUFSIZE] == old(data[BUFSIZE]) || data[BUFSIZE] == NUL
  {
    var start, more := 0, true;
    out' := out;
    assert data[0..filled] == data[..filled];
    while true
      invariant start <= filled && (start == 0 || start < filled)
      invariant OnTrack(wanted, out', data[start..filled], rest, CStr(s), name)
      invariant data[BUFSIZE] == old(data[BUFSIZE]) || data[BUFSIZE] == NUL
      decreases filled - start
    {
      more, start, out' := NextLine(data, start, filled, cnt, s, name, out', wanted, rest);
      if !more { return start, out'; }
    }
  }

  /** Moving bytes from the file into the buffer changes nothing. */
  lemma ReadKeepsTrack(wanted: seq<byte>, out: seq<byte>, carry: seq<byte>, chunk: seq<byte>, rest: seq<byte>,
                       pat: seq<byte>, name: seq<byte>)
    requires OnTrack(wanted, out, carry, chunk + rest, pat, name)
    ensures OnTrack(wanted, out, carry + chunk, rest, pat, name)
  {
    assert carry + (chunk + rest) == carry + chunk + rest;
    assert forall b :: b in chunk || b in rest ==> b in chunk + rest;
  }

  /** `data[BUFSIZE]` is never read from the file: it may be stale but must not look like a line
      end, unless no read can reach it. */
  predicate Harmless(stale: byte, size: nat) {
    stale != NEWLINE || size < BUFSIZE
  }

  lemma RefilledOnTrack(wanted: seq<byte>, out: seq<byte>, carry: seq<byte>, content: seq<byte>, pos: nat, pos': nat,
                        pat: seq<byte>, name: seq<byte>)
    requires pos <= pos' <= |content| && OnTrack(wanted, out, carry, content[pos..], pat, name)
    ensures OnTrack(wanted, out, carry + content[pos..pos'], content[pos'..], pat, name)
  {
    assert content[pos..] == content[pos..pos'] + content[pos'..];
    ReadKeepsTrack(wanted, out, carry, content[pos..pos'], content[pos'..], pat, name);
  }

  /** Where the outer loop stands: an unfinished line has been carried to the front of the buffer,
      `stale` lies behind the buffer, the file from pos on is still to be read. */
  ghost predicate Searching(wanted: seq<byte>, out: seq<byte>, carry: seq<byte>, stale: byte, content: seq<byte>,
                            pos: nat, pat: seq<byte>, name: seq<byte>) {
    && |carry| < BUFSIZE && |carry| <= pos <= |content| && Harmless(stale, |content|)
    && OnTrack(wanted, out, carry, content[pos..], pat, name)
  }

  /** One round of the outer loop once the next cnt bytes of the file are in the buffer behind the
      carried ones; only a read at the end of the file is short. */
  method SearchChunk(data: array<byte>, carried: nat, cnt: nat, s: seq<byte>, name: seq<byte>, out: seq<byte>,
                     ghost wanted: seq<byte>, ghost carry: seq<byte>, ghost content: seq<byte>, ghost pos: nat,
                     ghost pos': nat)
      returns (last: nat, out': seq<byte>)
    requires data.Length == BUFSIZE + 1 && Terminated(s) && carried == |carry|
    requires Searching(wanted, out, carry, data[BUFSIZE], content, pos, CStr(s), name)
    requires pos' == pos + cnt <= |content|
    requires carried + cnt <= BUFSIZE && (carried + cnt < BUFSIZE ==> pos' == |content|)
    requires data[..carried + cnt] == carry + content[pos..pos']
    modifies data
    ensures last <= BUFSIZE && Searching(wanted, out', data[..last], data[BUFSIZE], content, pos', CStr(s), name)
    ensures cnt == 0 ==> last == 0 && pos == |content|
  {
    RefilledOnTrack(wanted, out, carry, content, pos, pos', CStr(s), name);
    last, out' := SearchBuffer(data, carried + cnt, cnt, s, name, out, wanted, content[pos'..]);
  }

  lemma StartSearching(stale: byte, content: seq<byte>, pat: seq<byte>, name: seq<byte>)
    requires Harmless(stale, |content|) && NUL !in content && ShortLines(content)
    ensures Searching(Report(content, pat, name), [], [], stale, content, 0, pat, name)
  {
    assert [] + content[0..] == content;
  }

  lemma DoneSearching(wanted: seq<byte>, out: seq<byte>, stale: byte, content: seq<byte>, pat: seq<byte>,
                      name: seq<byte>)
    requires Searching(wanted, out, [], stale, content, |content|, pat, name)
    ensures out == wanted
  {
    assert [] + content[|content|..] == [];
    OnlyLine([], pat, name);
  }
}
