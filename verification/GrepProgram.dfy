/** The grep program run by a process: every listed file is opened, searched through its descriptor
    and closed again. */
module GrepProgram {
  import opened Prelude
  import opened CStrings
  import opened Grep
  import FileSystem
  import Descriptors

  /** Descriptor fd of process p has delivered the first pos bytes of `content`: a regular file, or
      the clock, which never delivers any. */
  ghost predicate Reading(t: Descriptors.Tables, p: int, fd: int, content: seq<byte>, pos: int)
    reads t, t.fdas
  {
    && t.Valid() && t.InRange(p, fd) && t.fdas[p, fd].active
    && if t.fdas[p, fd].driver == Descriptors.File then
         t.Content(p, fd) == content && pos == t.fdas[p, fd].pos <= |content|
       else t.fdas[p, fd].driver == Descriptors.Rtc && content == [] && pos == 0
  }

  /** The read, into the buffer behind the carried bytes. */
  method ReadMore(t: Descriptors.Tables, p: int, fd: int, data: array<byte>, carried: nat, ghost content: seq<byte>,
                  ghost pos: nat)
      returns (cnt: nat, ghost pos': nat)
    requires Reading(t, p, fd, content, pos) && data.Length == BUFSIZE + 1 && carried < BUFSIZE
    modifies t.fdas, t`got, data
    ensures cnt == FileSystem.Min(BUFSIZE - carried, |content| - pos)
    ensures pos' == pos + cnt && Reading(t, p, fd, content, pos')
    ensures data[..carried + cnt] == old(data[..carried]) + content[pos..pos']
    ensures data[BUFSIZE] == old(data[BUFSIZE])
    ensures forall q, f | 0 <= q < t.fdas.Length0 && 0 <= f < t.fdas.Length1 && (q, f) != (p, fd) ::
              t.fdas[q, f] == old(t.fdas[q, f])
  {
    if t.fdas[p, fd].driver == Descriptors.Rtc { return 0, pos; }
    ghost var carry := data[..carried];
    cnt := t.FileRead(p, fd, data, carried, BUFSIZE - carried);
    pos' := pos + cnt;
    assert data[..carried] == carry;
    assert data[..carried + cnt] == data[..carried] + data[carried..carried + cnt];
  }

  /** One round of the outer loop: read on, then search what is in the buffer. */
  method Round(t: Descriptors.Tables, p: int, fd: int, data: array<byte>, carried: nat, s: seq<byte>, name: seq<byte>,
               out: seq<byte>, ghost wanted: seq<byte>, ghost content: seq<byte>, ghost pos: nat)
      returns (last: nat, cnt: nat, out': seq<byte>, ghost pos': nat)
    requires Reading(t, p, fd, content, pos) && Terminated(s) && data.Length == BUFSIZE + 1
    requires carried <= BUFSIZE && Searching(wanted, out, data[..carried], data[BUFSIZE], content, pos, CStr(s), name)
    modifies t.fdas, t`got, data
    ensures pos' == pos + cnt && Reading(t, p, fd, content, pos')
    ensures last <= BUFSIZE && Searching(wanted, out', data[..last], data[BUFSIZE], content, pos', CStr(s), name)
    ensures cnt == 0 ==> last == 0 && pos == |content|
    ensures forall q, f | 0 <= q < t.fdas.Length0 && 0 <= f < t.fdas.Length1 && (q, f) != (p, fd) ::
              t.fdas[q, f] == old(t.fdas[q, f])
  {
    ghost var carry := data[..carried];
    cnt, pos' := ReadMore(t, p, fd, data, carried, content, pos);
    last, out' := SearchChunk(data, carried, cnt, s, name, out, wanted, carry, content, pos, pos');
  }

  /** The outer loop over an open file. */
  method SearchRounds(t: Descriptors.Tables, p: int, fd: int, data: array<byte>, s: seq<byte>, name: seq<byte>,
                      ghost wanted: seq<byte>, ghost content: seq<byte>)
      returns (out: seq<byte>)
    requires Reading(t, p, fd, content, 0) && Terminated(s) && data.Length == BUFSIZE + 1
    requires Searching(wanted, [], [], data[BUFSIZE], content, 0, CStr(s), name)
    modifies t.fdas, t`got, data
    ensures Reading(t, p, fd, content, |content|)
    ensures Searching(wanted, out, [], data[BUFSIZE], content, |content|, CStr(s), name)
    ensures forall q, f | 0 <= q < t.fdas.Length0 && 0 <= f < t.fdas.Length1 && (q, f) != (p, fd) ::
              t.fdas[q, f] == old(t.fdas[q, f])
  {
    ghost var pos, pat := 0, CStr(s);
    var last: nat := 0;
    out := [];
    assert data[..0] == [];
    while true
      invariant Reading(t, p, fd, content, pos) && pos <= |content|
      invariant last <= BUFSIZE && Searching(wanted, out, data[..last], data[BUFSIZE], content, pos, pat, name)
      invariant forall q, f | 0 <= q < t.fdas.Length0 && 0 <= f < t.fdas.Length1 && (q, f) != (p, fd) ::
              t.fdas[q, f] == old(t.fdas[q, f])
      decreases |content| - pos
    {
      var cnt;
      last, cnt, out, pos := Round(t, p, fd, data, last, s, name, out, wanted, content, pos);
      if cnt == 0 {
        assert data[..last] == [];
        return;
      }
    }
  }

  /** From an open file to its report. */
  method SearchFile(t: Descriptors.Tables, p: int, fd: int, data: array<byte>, s: seq<byte>, name: seq<byte>,
                    ghost content: seq<byte>)
      returns (out: seq<byte>)
    requires Reading(t, p, fd, content, 0) && Terminated(s)
    requires data.Length == BUFSIZE + 1 && Harmless(data[BUFSIZE], |content|)
    requires NUL !in content && ShortLines(content)
    modifies t.fdas, t`got, data
    ensures t.Valid() && t.fdas[p, fd].active
    ensures out == Report(content, CStr(s), name)
    ensures forall q, f | 0 <= q < t.fdas.Length0 && 0 <= f < t.fdas.Length1 && (q, f) != (p, fd) ::
              t.fdas[q, f] == old(t.fdas[q, f])
  {
    ghost var wanted := Report(content, CStr(s), name);
    StartSearching(data[BUFSIZE], content, CStr(s), name);
    out := SearchRounds(t, p, fd, data, s, name, wanted, content);
    DoneSearching(wanted, out, data[BUFSIZE], content, CStr(s), name);
  }

  /** The clock or a text file whose lines fit the buffer, and a buffer it can be searched with. */
  ghost predicate Searchable(img: FileSystem.Image, e: FileSystem.Dentry, data: seq<byte>)
    requires FileSystem.Layout(img)
  {
    && (e.filetype == 0 || e.filetype == 2) && |data| == BUFSIZE + 1
    && var file := Descriptors.Dump(img, e);
       NUL !in file && ShortLines(file) && Harmless(data[BUFSIZE], |file|)
  }

  lemma OpenedForReading(t: Descriptors.Tables, p: int, fd: int, e: FileSystem.Dentry)
    requires t.Valid() && t.InRange(p, fd) && (e.filetype == 0 || e.filetype == 2)
    requires t.fdas[p, fd] == Descriptors.Fda(true, Descriptors.DriverOf(e.filetype), e.inode, 0)
    ensures Reading(t, p, fd, Descriptors.Dump(t.img, e), 0)
  {
    assert t.Prefix(p, fd);
  }

  /** One file: open, search, close.  `data` is the uninitialised buffer on its stack. */
  method DoOneFile(t: Descriptors.Tables, p: int, data: array<byte>, s: seq<byte>, fname: array<byte>)
      returns (r: int, out: seq<byte>)
    requires t.Valid() && 0 <= p < PROCESSES && Terminated(s) && Terminated(fname[..])
    requires data.Length == BUFSIZE + 1 && data != fname
    requires var e := FileSystem.Lookup(t.img, CStr(fname[..]));
             e.Some? ==> Searchable(t.img, e.value, data[..])
    modifies t.fdas, t`got, data
    ensures t.Valid()
    ensures var e := FileSystem.Lookup(t.img, CStr(fname[..]));
            if e.None? || (forall f :: 2 <= f < Descriptors.FDS ==> old(t.fdas[p, f].active)) then r == -1 && out == []
            else r == 0 && out == Report(Descriptors.Dump(t.img, e.value), CStr(s), CStr(fname[..]))
    ensures forall q, f | 0 <= q < t.fdas.Length0 && 0 <= f < t.fdas.Length1 ::
              if old(t.fdas[q, f]).active then t.fdas[q, f] == old(t.fdas[q, f]) else !t.fdas[q, f].active
  {
    out := [];
    var fd := t.Open(p, fname);
    if fd == -1 { return -1, out; }
    ghost var e := FileSystem.Lookup(t.img, CStr(fname[..])).value;
    OpenedForReading(t, p, fd, e);
    var len := StrLen(fname[..]);
    r, out := SearchAndClose(t, p, fd, data, s, fname[..len], Descriptors.Dump(t.img, e));
  }

  method SearchAndClose(t: Descriptors.Tables, p: int, fd: int, data: array<byte>, s: seq<byte>, name: seq<byte>,
                        ghost content: seq<byte>)
      returns (r: int, out: seq<byte>)
    requires Reading(t, p, fd, content, 0) && 2 <= fd && Terminated(s)
    requires data.Length == BUFSIZE + 1 && Harmless(data[BUFSIZE], |content|)
    requires NUL !in content && ShortLines(content)
    modifies t.fdas, t`got, data
    ensures t.Valid() && !t.fdas[p, fd].active && r == 0 && out == Report(content, CStr(s), name)
    ensures forall q, f | 0 <= q < t.fdas.Length0 && 0 <= f < t.fdas.Length1 && (q, f) != (p, fd) ::
              t.fdas[q, f] == old(t.fdas[q, f])
  {
    out := SearchFile(t, p, fd, data, s, name, content);
    r := t.Close(p, fd);
  }

  // ---------- all files ----------

  /** The report of the file that the i-th name leads to, unless the name begins with a dot. */
  ghost function ReportOf(img: FileSystem.Image, name: seq<byte>, pat: seq<byte>): seq<byte>
    requires FileSystem.Layout(img)
  {
    var e := FileSystem.Lookup(img, name);
    if [DOT] <= name || e.None? then [] else Report(Descriptors.Dump(img, e.value), pat, name)
  }

  ghost function ReportAll(img: FileSystem.Image, names: seq<seq<byte>>, pat: seq<byte>): seq<byte>
    requires FileSystem.Layout(img)
  {
    if names == [] then [] else ReportOf(img, names[0], pat) + ReportAll(img, names[1..], pat)
  }

  /** What the program counts on for a listed name: a file it can search with what the uninitialised
      buffer then happens to hold. */
  ghost predicate Manageable(img: FileSystem.Image, name: seq<byte>, stack: seq<byte>)
    requires FileSystem.Layout(img)
  {
    var e := FileSystem.Lookup(img, name);
    |stack| == BUFSIZE + 1 && ([DOT] <= name || (e.Some? && Searchable(img, e.value, stack)))
  }

  /** One turn of the main loop, after a name was read into buf. */
  method SearchEntry(t: Descriptors.Tables, p: int, buf: array<byte>, cnt: nat, s: seq<byte>, stack: seq<byte>,
                     ghost name: seq<byte>)
      returns (r: int, out: seq<byte>)
    requires t.Valid() && 0 <= p < PROCESSES && Terminated(s)
    requires exists f :: 2 <= f < Descriptors.FDS && !t.fdas[p, f].active
    requires Manageable(t.img, name, stack) && name != [] && NUL !in name
    requires cnt < buf.Length && buf[..cnt] == name
    modifies t.fdas, t`got, buf
    ensures t.Valid() && r == 0 && out == ReportOf(t.img, name, CStr(s))
    ensures forall q, f | 0 <= q < t.fdas.Length0 && 0 <= f < t.fdas.Length1 ::
              if old(t.fdas[q, f]).active then t.fdas[q, f] == old(t.fdas[q, f]) else !t.fdas[q, f].active
  {
    assert buf[0] == name[0];
    if buf[0] == DOT { return 0, []; }
    buf[cnt] := NUL;
    assert buf[..][..cnt] == name;
    CStrIs(buf[..], cnt);
    var data := new byte[BUFSIZE + 1](k requires 0 <= k < |stack| => stack[k]);
    assert data[..] == stack;
    r, out := DoOneFile(t, p, data, s, buf);
  }

  /** The process has one directory open, i names into it, and its other descriptors are free. */
  ghost predicate Listing(t: Descriptors.Tables, p: int, fd: int, i: nat)
    reads t, t.fdas
  {
    && t.Valid() && 0 <= p < PROCESSES && 2 <= fd < Descriptors.FDS
    && t.fdas[p, fd].active && t.fdas[p, fd].driver == Descriptors.Directory
    && i == t.fdas[p, fd].pos <= |t.img.dentries|
    && forall f :: 2 <= f < Descriptors.FDS && f != fd ==> !t.fdas[p, f].active
  }

  /** One turn of the main loop, from reading the i-th name on. */
  method SearchNext(t: Descriptors.Tables, p: int, fd: int, buf: array<byte>, i: nat, s: seq<byte>,
                    stacks: seq<seq<byte>>)
      returns (r: int, more: bool, out: seq<byte>)
    requires Listing(t, p, fd, i) && Terminated(s) && buf.Length == 33
    requires var names := Descriptors.NamesFrom(t.img, i);
             names != [] ==> i < |stacks| && Manageable(t.img, names[0], stacks[i])
    modifies t.fdas, t`got, buf
    ensures r == 0 && more == (Descriptors.NamesFrom(t.img, i) != [])
    ensures if more then Listing(t, p, fd, i + 1) && out == ReportOf(t.img, Descriptors.NamesFrom(t.img, i)[0], CStr(s))
            else t.Valid()
  {
    if i < |t.img.dentries| { assert t.img.dentries[i] in t.img.dentries; }
    var cnt := t.DirectoryRead(p, fd, buf, 32);
    if cnt == 0 { return 0, false, []; }
    if cnt == -1 { return 3, false, []; }
    Descriptors.NextName(t.img, i);
    assert !t.fdas[p, if fd == 2 then 3 else 2].active;
    r, out := SearchEntry(t, p, buf, cnt, s, stacks[i], FileSystem.Name(t.img.dentries[i]));
    more := true;
  }

  /** The main loop over an open directory. */
  method SearchListed(t: Descriptors.Tables, p: int, fd: int, s: seq<byte>, stacks: seq<seq<byte>>)
      returns (r: int, out: seq<byte>)
    requires Listing(t, p, fd, 0) && Terminated(s) && AllManageable(t.img, stacks)
    modifies t.fdas, t`got
    ensures t.Valid() && r == 0 && out == ReportAll(t.img, Descriptors.NamesFrom(t.img, 0), CStr(s))
  {
    out := [];
    var buf, i := new byte[33], 0;
    ghost var rest, pat := Descriptors.NamesFrom(t.img, 0), CStr(s);
    ghost var whole := ReportAll(t.img, rest, pat);
    while true
      invariant Listing(t, p, fd, i) && rest == Descriptors.NamesFrom(t.img, i)
      invariant ManageableFrom(t.img, rest, stacks, i) && whole == out + ReportAll(t.img, rest, pat)
      decreases |rest|
    {
      assert rest != [] ==> Manageable(t.img, rest[0], stacks[i + 0]);
      var more, one;
      r, more, one := SearchNext(t, p, fd, buf, i, s, stacks);
      if r != 0 || !more { return; }
      Regroup(out, one, ReportAll(t.img, rest[1..], pat));
      Descriptors.NextName(t.img, i);
      ManageableNext(t.img, rest, stacks, i);
      out, i, rest := out + one, i + 1, rest[1..];
    }
  }

  /** `stacks[i]` is what the uninitialised buffer holds when it comes to the first of the names. */
  ghost predicate ManageableFrom(img: FileSystem.Image, names: seq<seq<byte>>, stacks: seq<seq<byte>>, i: nat)
    requires FileSystem.Layout(img)
  {
    i + |names| <= |stacks| && forall j :: 0 <= j < |names| ==> Manageable(img, names[j], stacks[i + j])
  }

  lemma ManageableNext(img: FileSystem.Image, names: seq<seq<byte>>, stacks: seq<seq<byte>>, i: nat)
    requires FileSystem.Layout(img) && ManageableFrom(img, names, stacks, i) && names != []
    ensures ManageableFrom(img, names[1..], stacks, i + 1)
  {
    forall j | 0 <= j < |names[1..]| ensures Manageable(img, names[1..][j], stacks[i + 1 + j]) {
      assert Manageable(img, names[j + 1], stacks[i + (j + 1)]);
    }
  }

  ghost predicate AllManageable(img: FileSystem.Image, stacks: seq<seq<byte>>)
    requires FileSystem.Layout(img)
  {
    ManageableFrom(img, Descriptors.NamesFrom(img, 0), stacks, 0)
  }

  /** The main program, in a process that has nothing but its terminal open. */
  method GrepAll(t: Descriptors.Tables, p: int, s: seq<byte>, stacks: seq<seq<byte>>) returns (r: int, out: seq<byte>)
    requires t.Valid() && 0 <= p < PROCESSES && Terminated(s) && AllManageable(t.img, stacks)
    requires forall f :: 2 <= f < Descriptors.FDS ==> !t.fdas[p, f].active
    requires var e := FileSystem.Lookup(t.img, [DOT]); e.Some? ==> e.value.filetype == 1
    modifies t.fdas, t`got
    ensures t.Valid()
    ensures if FileSystem.Lookup(t.img, [DOT]).None? then r == 2 && out == []
            else r == 0 && out == ReportAll(t.img, Descriptors.NamesFrom(t.img, 0), CStr(s))
  {
    var dot := new byte[2][DOT, NUL];
    Descriptors.DotName(dot[..]);
    assert !t.fdas[p, 2].active;
    var fd := t.Open(p, dot);
    if fd == -1 { return 2, []; }
    r, out := SearchListed(t, p, fd, s, stacks);
  }

  /** Started as a new process, the program finds its descriptors as it needs them. */
  method RunGrep(t: Descriptors.Tables, p: int, s: seq<byte>, stacks: seq<seq<byte>>) returns (r: int, out: seq<byte>)
    requires t.Valid() && 0 <= p < PROCESSES && Terminated(s) && AllManageable(t.img, stacks)
    requires var e := FileSystem.Lookup(t.img, [DOT]); e.Some? ==> e.value.filetype == 1
    modifies t.fdas, t`got
    ensures t.Valid()
    ensures if FileSystem.Lookup(t.img, [DOT]).None? then r == 2 && out == []
            else r == 0 && out == ReportAll(t.img, Descriptors.NamesFrom(t.img, 0), CStr(s))
  {
    t.Start(p);
    r, out := GrepAll(t, p, s, stacks);
  }

  /** With unique names each listed name leads to the entry it was listed from. */
  lemma ReportIsOfOwnEntry(img: FileSystem.Image, i: nat, pat: seq<byte>)
    requires FileSystem.Layout(img) && FileSystem.UniqueNames(img) && i < |Descriptors.NamesFrom(img, 0)|
    ensures i < |img.dentries|
    ensures var name := FileSystem.Name(img.dentries[i]);
            && Descriptors.NamesFrom(img, 0)[i] == name
            && ReportOf(img, name, pat) == if [DOT] <= name then []
              else Report(Descriptors.Dump(img, img.dentries[i]), pat, name)
  {
    Descriptors.NamesAre(img, 0, i);
    FileSystem.LookupFindsListedEntry(img, i);
  }
}
