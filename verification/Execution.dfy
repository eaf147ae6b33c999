/** The two system calls that run and end a program, beyond the process tables of Kernels.Kernel:
    `execute` from the command line through lookup, image checks, descriptors and loader to the image
    that Kernel.UserExecute pushes; `halt` with the tables. */
module Execution {
  import opened Prelude
  import opened CStrings
  import opened FileSystem
  import opened Machines
  import opened Kernels
  import Command
  import Descriptors
  import Loader

  const ELF: seq<byte> := [0x7F, 0x45, 0x4C, 0x46]
  const ENTRY_AT := 24

  const SHELL: seq<byte> := [115, 104, 101, 108, 108]
  const PINGPONG: seq<byte> := [112, 105, 110, 103, 112, 111, 110, 103]
  const FISH: seq<byte> := [102, 105, 115, 104]

  function LittleEndian(b: seq<byte>): int
    requires |b| == 4
  {
    b[0] as int + 0x100 * b[1] as int + 0x1_0000 * b[2] as int + 0x100_0000 * b[3] as int
  }

  // ---------- which images are programs ----------

  ghost predicate HasHeader(img: Image, inode: int)
    requires Layout(img)
  {
    && 0 <= inode < |img.inodes|
    && ReadResult(img, inode, 0, 4) == 4 && ReadResult(img, inode, ENTRY_AT, 4) == 4
    && Readable(img, img.inodes[inode], 0, 4) && Readable(img, img.inodes[inode], ENTRY_AT, 4)
    && Bytes(img, img.inodes[inode], 0, 4) == ELF
  }

  /** What `execute` finds under a name. */
  ghost function ProgramOf(img: Image, name: seq<byte>): Option<Program>
    requires Layout(img)
  {
    var e := Lookup(img, name);
    if e.None? || !HasHeader(img, e.value.inode) then None
    else Some(Program(name == SHELL, name != PINGPONG && name != FISH,
                      LittleEndian(Bytes(img, img.inodes[e.value.inode], ENTRY_AT, 4))))
  }

  /** For a file that can be loaded that is a matter of its bytes. */
  lemma ProgramOfFile(img: Image, name: seq<byte>, e: Dentry)
    requires Layout(img) && Lookup(img, name) == Some(e) && 0 <= e.inode && Loadable(img, e.inode)
    ensures var flat := Flat(img, img.inodes[e.inode]);
            && (ProgramOf(img, name).Some? <==> |flat| >= ENTRY_AT + 4 && flat[..4] == ELF)
            && (ProgramOf(img, name).Some? ==>
                  ProgramOf(img, name).value.entry == LittleEndian(flat[ENTRY_AT..ENTRY_AT + 4]))
  {
    var n := img.inodes[e.inode];
    assert n in img.inodes;
    if n.length >= ENTRY_AT + 4 {
      ReadIsSlice(img, e.inode, 0, 4);
      ReadIsSlice(img, e.inode, ENTRY_AT, 4);
      BytesAreASlice(img, n, 0, 4);
      BytesAreASlice(img, n, ENTRY_AT, 4);
      assert Flat(img, n)[0..0 + 4] == Flat(img, n)[..4];
    } else if n.length >= ENTRY_AT {
      ReadIsSlice(img, e.inode, ENTRY_AT, 4);
    }
  }

  lemma SplitAt(v: int, d: int, q: int, r: int)
    requires d in {0x100, 0x1_0000, 0x100_0000} && v == d * q + r && 0 <= r < d
    ensures v / d == q && v % d == r
  {
  }

  lemma LowestByteFirst(b: seq<byte>)
    requires |b| == 4
    ensures var v := LittleEndian(b);
            && 0 <= v < 0x1_0000_0000
            && v % 0x100 == b[0] as int && v / 0x100 % 0x100 == b[1] as int
            && v / 0x1_0000 % 0x100 == b[2] as int && v / 0x100_0000 == b[3] as int
  {
    var v, b0: int, b1: int, b2: int, b3: int := LittleEndian(b), b[0], b[1], b[2], b[3];
    SplitAt(v, 0x100, b1 + 0x100 * b2 + 0x1_0000 * b3, b0);
    SplitAt(v, 0x1_0000, b2 + 0x100 * b3, b0 + 0x100 * b1);
    SplitAt(v, 0x100_0000, b3, b0 + 0x100 * b1 + 0x1_0000 * b2);
    SplitAt(b1 + 0x100 * b2 + 0x1_0000 * b3, 0x100, b2 + 0x100 * b3, b1);
    SplitAt(b2 + 0x100 * b3, 0x100, b3, b2);
  }

  /** The entry point of a loadable program is a 32-bit number whose i-th lowest byte is byte 24 + i of
      its file, and the file starts with DEL, E, L, F. */
  lemma EntryPointBytes(img: Image, name: seq<byte>, e: Dentry)
    requires Layout(img) && Lookup(img, name) == Some(e) && 0 <= e.inode && Loadable(img, e.inode)
    requires ProgramOf(img, name).Some?
    ensures var v, flat := ProgramOf(img, name).value.entry, Flat(img, img.inodes[e.inode]);
            && |flat| >= 28 && flat[0] == 127 && flat[1..4] == Ascii("ELF")
            && 0 <= v < 0x1_0000_0000
            && v % 0x100 == flat[24] as int && v / 0x100 % 0x100 == flat[25] as int
            && v / 0x1_0000 % 0x100 == flat[26] as int && v / 0x100_0000 == flat[27] as int
  {
    var flat := Flat(img, img.inodes[e.inode]);
    ProgramOfFile(img, name, e);
    var b := flat[ENTRY_AT..ENTRY_AT + 4];
    assert b[0] == flat[24] && b[1] == flat[25] && b[2] == flat[26] && b[3] == flat[27];
    LowestByteFirst(b);
    assert flat[..4][0] == flat[0] && flat[..4][1..] == flat[1..4];
  }

  lemma WordsAsText()
    ensures SHELL == Ascii("shell") && PINGPONG == Ascii("pingpong") && FISH == Ascii("fish")
  {
  }

  /** Only the program named shell is a shell, and one may type in all but pingpong and fish. */
  lemma FlagsByName(img: Image, name: seq<byte>)
    requires Layout(img) && ProgramOf(img, name).Some?
    ensures ProgramOf(img, name).value.isShell <==> name == Ascii("shell")
    ensures !ProgramOf(img, name).value.typing <==> name == Ascii("pingpong") || name == Ascii("fish")
  {
    WordsAsText();
  }

  lemma WholeNameCompared(name: seq<byte>, word: seq<byte>)
    ensures Take(name, |word| + 1) == Take(word, |word| + 1) <==> name == word
  {
  }

  /** A constant string of the program text. */
  method SameWord(filename: array<byte>, word: seq<byte>) returns (same: bool)
    requires Terminated(filename[..]) && NUL !in word
    ensures same <==> CStr(filename[..]) == word
  {
    assert (word + [NUL])[..|word|] == word;
    CStrIs(word + [NUL], |word|);
    var r := StrNCmp(filename[..], word + [NUL], |word| + 1);
    WholeNameCompared(CStr(filename[..]), word);
    same := r == 0;
  }

  method IsElf(header: array<byte>) returns (b: bool)
    requires header.Length >= 4
    ensures b <==> header[..4] == ELF
  {
    var i := 0;
    while i < 4
      invariant 0 <= i <= 4 && header[..i] == ELF[..i]
    {
      if ELF[i] != header[i] {
        assert header[..4][i] != ELF[i];
        return false;
      }
      i := i + 1;
    }
    return true;
  }

  /** Lookup and image checks; the name's own buffer receives the header. */
  method FindProgram(img: Image, filename: array<byte>) returns (r: Option<Program>, inode: int)
    requires Layout(img) && Terminated(filename[..]) && filename.Length == NAME_LEN + 1
    modifies filename
    ensures r == ProgramOf(img, CStr(old(filename[..])))
    ensures r.Some? ==> inode == Lookup(img, CStr(old(filename[..]))).value.inode && HasHeader(img, inode)
  {
    inode := -1;
    var shell := SameWord(filename, SHELL);
    var pingpong := SameWord(filename, PINGPONG);
    var fish := SameWord(filename, FISH);
    var entry := ReadDentryByName(img, filename);
    if entry.None? || entry.value.inode < 0 { return None, inode; }
    inode := entry.value.inode;
    var cnt := ReadData(img, inode, 0, filename, 0, 4);
    if cnt != 4 { return None, inode; }
    assert filename[..4] == filename[0..0 + 4];
    var eip := new byte[4];
    cnt := ReadData(img, inode, ENTRY_AT, eip, 0, 4);
    if cnt != 4 { return None, inode; }
    assert eip[..] == eip[0..0 + 4];
    var elf := IsElf(filename);
    if !elf { return None, inode; }
    return Some(Program(shell, !pingpong && !fish, LittleEndian(eip[..]))), inode;
  }

  /** Parsing, lookup and checks. */
  method ReadCommand(img: Image, command: array<byte>)
      returns (image: Option<Program>, inode: int, arguments: array<byte>)
    requires Layout(img) && Terminated(command[..]) && |Command.Split(CStr(command[..])).1| < Command.MAX_ARGS
    ensures fresh(arguments) && arguments.Length == Command.MAX_ARGS && Terminated(arguments[..])
    ensures var (name, text) := Command.Split(CStr(command[..]));
            && image == ProgramOf(img, name) && CStr(arguments[..]) == text
            && (image.Some? ==> inode == Lookup(img, name).value.inode)
  {
    var filename := new byte[NAME_LEN + 1];
    arguments := new byte[Command.MAX_ARGS];
    Command.ParseCommand(command, filename, arguments);
    image, inode := FindProgram(img, filename);
  }

  // ---------- the system as a whole ----------

  ghost predicate HoldsFile(img: Image, page: array<byte>, inode: int)
    reads page
    requires Layout(img)
  {
    0 <= inode && Loadable(img, inode) &&
    var file := Flat(img, img.inodes[inode]);
    Loader.IMAGE_START + |file| <= page.Length && page[Loader.IMAGE_START..Loader.IMAGE_START + |file|] == file
  }

  /** Only the terminal is open. */
  ghost predicate FreshDescriptors(t: Descriptors.Tables, p: int)
    reads t.fdas
    requires 0 <= p < t.fdas.Length0 && t.fdas.Length1 == Descriptors.FDS
  {
    && t.fdas[p, 0] == Descriptors.Fda(true, Descriptors.Keyboard, 0, 0)
    && t.fdas[p, 1] == Descriptors.Fda(true, Descriptors.Screen, 0, 0)
    && forall f :: 2 <= f < Descriptors.FDS ==> !t.fdas[p, f].active
  }

  /** Slot p is ready to run the named program with these arguments. */
  ghost predicate Started(t: Descriptors.Tables, p: int, page: array<byte>, area: Command.ArgumentArea,
                          name: seq<byte>, text: seq<byte>)
    reads t, t.fdas, page, area, area.args
  {
    && t.Valid() && 0 <= p < PROCESSES && FreshDescriptors(t, p)
    && ProgramOf(t.img, name).Some? && HoldsFile(t.img, page, Lookup(t.img, name).value.inode)
    && area.Valid() && area.Pending() == text
  }

  /** Only programs that fit their page and can be read to the end are executed. */
  ghost predicate Loads(img: Image, name: seq<byte>, page: array<byte>)
    requires Layout(img)
  {
    ProgramOf(img, name).Some? ==>
      var inode := Lookup(img, name).value.inode;
      && 0 <= inode && Loadable(img, inode)
      && Loader.IMAGE_START + img.inodes[inode].length <= page.Length
  }

  /** The part of `execute` that makes slot p ready. */
  method FillSlot(t: Descriptors.Tables, p: int, page: array<byte>, area: Command.ArgumentArea,
                  ghost name: seq<byte>, inode: int, arguments: array<byte>)
    requires t.Valid() && 0 <= p < PROCESSES && Terminated(arguments[..])
    requires area.args.Length == arguments.Length == Command.MAX_ARGS
    requires arguments != area.args && area.args != page && arguments != page
    requires ProgramOf(t.img, name).Some? && inode == Lookup(t.img, name).value.inode
    requires Loads(t.img, name, page)
    modifies t.fdas, page, area.args
    ensures Started(t, p, page, area, name, old(CStr(arguments[..])))
    ensures forall q, f :: t.InRange(q, f) && q != p ==> t.fdas[q, f] == old(t.fdas[q, f])
  {
    t.Start(p);
    var copied := Loader.CopyProgramImage(t.img, inode, page);
    area.Store(arguments);
  }

  /** Everything in `execute` but the process tables.  p is the free slot that Kernel.FindSlot found,
      or -1; `page` and `area` are its program page and argument array.  The program that comes out
      is what Kernel.UserExecute then pushes: if there is one, the slot has fresh descriptors, the
      whole file in its page and the arguments in its control block; if not, nothing has changed. */
  method Prepare(t: Descriptors.Tables, p: int, page: array<byte>, area: Command.ArgumentArea, command: array<byte>,
                 ghost name: seq<byte>, ghost text: seq<byte>)
      returns (image: Option<Program>)
    requires t.Valid() && -1 <= p < PROCESSES && area.args.Length == Command.MAX_ARGS && area.args != page
    requires Terminated(command[..]) && Command.Split(CStr(command[..])) == (name, text) && |text| < Command.MAX_ARGS
    requires Loads(t.img, name, page)
    modifies t.fdas, page, area.args
    ensures image == if p == -1 then None else ProgramOf(t.img, name)
    ensures if image.Some? then Started(t, p, page, area, name, text)
            else page[..] == old(page[..]) && area.args[..] == old(area.args[..])
                 && forall q, f :: t.InRange(q, f) ==> t.fdas[q, f] == old(t.fdas[q, f])
    ensures forall q, f :: t.InRange(q, f) && q != p ==> t.fdas[q, f] == old(t.fdas[q, f])
  {
    if p == -1 { return None; }
    var inode, arguments;
    image, inode, arguments := ReadCommand(t.img, command);
    if image.Some? {
      FillSlot(t, p, page, area, name, inode, arguments);
    }
  }

  /** `halt`: a base shell restarts and nothing else happens; any other program's descriptors are
      closed before its parent resumes where it had called `execute`. */
  method Halt(k: Kernel, t: Descriptors.Tables) returns (r: Control)
    requires k.Valid() && k.running >= 0 && t.Valid()
    modifies k, k.pidMask, k.shellMask, k.typing, k.pidArr, t.fdas
    ensures k.Valid() && k.m == Step(old(k.m), Event.Halt) && t.Valid()
    ensures old(k.InSync()) ==> k.InSync()
    ensures var s := old(k.m).stacks[old(k.running)];
            if |s| == 1 then
              && r == Enter(old(k.running), s[0].program.entry)
              && forall q, f :: t.InRange(q, f) ==> t.fdas[q, f] == old(t.fdas[q, f])
            else
              && r == Resume(Top(s).ret)
              && forall q, f :: t.InRange(q, f) ==>
                   t.fdas[q, f] ==
                     if q == Top(s).pid && f >= 2 then old(t.fdas[q, f]).(active := false) else old(t.fdas[q, f])
  {
    EligibleByTables(k.V(), k.m, k.running);
    TopIsBase(k.V(), k.m, k.running);
    var p := k.pidArr[k.running];
    if p >= TERMINALS { t.CloseAll(p); }
    r := k.Halt();
  }

  lemma TopIsBase(v: View, m: Machine, t: int)
    requires Coupled(v, m) && 0 <= t < TERMINALS && m.stacks[t] != []
    ensures v.pidArr[t] == Top(m.stacks[t]).pid && (v.pidArr[t] < TERMINALS <==> |m.stacks[t]| == 1)
  {
    assert Holds(m, Top(m.stacks[t]).pid, t, |m.stacks[t]| - 1);
  }
}
