/** File descriptor tables of the six process slots over one image.  A ghost transcript per
    descriptor records what was read since it was opened: always a prefix of the file, whatever
    the other descriptors and processes do. */
module Descriptors {
  import opened Prelude
  import opened CStrings
  import opened FileSystem

  const FDS := 8

  /** Which driver table a descriptor points at. */
  datatype Driver = Keyboard | Screen | Rtc | Directory | File

  datatype Fda = Fda(active: bool, driver: Driver, inode: int, pos: nat)

  /** What the kernel expects of an image: known file types, and files that reads cannot fail on. */
  ghost predicate Sound(img: Image) {
    && Layout(img)
    && (forall d :: d in img.dentries ==> 0 <= d.filetype <= 2)
    && (forall d :: d in img.dentries && d.filetype == 2 ==> 0 <= d.inode && Loadable(img, d.inode))
  }

  function DriverOf(filetype: int): Driver {
    if filetype == 0 then Rtc else if filetype == 1 then Directory else File
  }

  // ---------- what reading to the end yields ----------

  /** The names from directory entry i on, up to the first empty one, at which every reader stops. */
  function NamesFrom(img: Image, i: nat): seq<seq<byte>>
    decreases |img.dentries| - i
  {
    if i >= |img.dentries| || Name(img.dentries[i]) == [] then [] else [Name(img.dentries[i])] + NamesFrom(img, i + 1)
  }

  function Concat(ss: seq<seq<byte>>): seq<byte> { if ss == [] then [] else ss[0] + Concat(ss[1..]) }

  /** What a descriptor in this state still has to deliver; the clock never delivers anything. */
  ghost function Rest(img: Image, e: Fda): seq<byte>
    requires Layout(img)
  {
    match e.driver
    case File =>
      if 0 <= e.inode && Loadable(img, e.inode) && e.pos <= img.inodes[e.inode].length
      then Flat(img, img.inodes[e.inode])[e.pos..] else []
    case Directory => Concat(NamesFrom(img, e.pos))
    case _ => []
  }

  /** What reading a named entry from start to end yields. */
  ghost function Dump(img: Image, e: Dentry): seq<byte>
    requires Layout(img)
  {
    Rest(img, Fda(true, DriverOf(e.filetype), e.inode, 0))
  }

  /** One read: `chunk` was delivered on the way from state e to e', and nothing only at the end. */
  ghost predicate Delivered(img: Image, e: Fda, e': Fda, chunk: seq<byte>)
    requires Layout(img)
  {
    if chunk == [] then Rest(img, e) == [] else Rest(img, e) == chunk + Rest(img, e')
  }

  lemma FileDelivers(img: Image, e: Fda, r: nat, nbytes: nat)
    requires Layout(img) && e.driver == File && 0 <= e.inode && Loadable(img, e.inode) && nbytes > 0
    requires e.pos <= img.inodes[e.inode].length && r == Min(nbytes, img.inodes[e.inode].length - e.pos)
    ensures var flat := Flat(img, img.inodes[e.inode]);
            |flat| == img.inodes[e.inode].length && Delivered(img, e, e.(pos := e.pos + r), flat[e.pos..e.pos + r])
  {
    var flat := Flat(img, img.inodes[e.inode]);
    assert flat[e.pos..] == flat[e.pos..e.pos + r] + flat[e.pos + r..];
  }

  lemma DirectoryDelivers(img: Image, e: Fda)
    requires Layout(img) && e.driver == Directory
    ensures if e.pos < |img.dentries|
            then |Name(img.dentries[e.pos])| <= NAME_LEN
                 && Delivered(img, e, e.(pos := e.pos + 1), Name(img.dentries[e.pos]))
            else Rest(img, e) == []
  {
    if e.pos < |img.dentries| {
      assert img.dentries[e.pos] in img.dentries;
      if Name(img.dentries[e.pos]) != [] { NextName(img, e.pos); }
    }
  }

  lemma NextName(img: Image, i: nat)
    requires i < |img.dentries| && Name(img.dentries[i]) != []
    ensures NamesFrom(img, i)[0] == Name(img.dentries[i]) && NamesFrom(img, i)[1..] == NamesFrom(img, i + 1)
  {
  }

  lemma {:induction false} NamesAre(img: Image, i: nat, k: nat)
    requires k < |NamesFrom(img, i)|
    ensures i + k < |img.dentries| && NamesFrom(img, i)[k] == Name(img.dentries[i + k]) != []
    decreases k
  {
    if k > 0 { NamesAre(img, i + 1, k - 1); }
  }

  /** Only an empty name keeps entries from being listed. */
  lemma {:induction false} AllNamesListed(img: Image, i: nat)
    requires i <= |img.dentries|
    requires forall k :: i <= k < |img.dentries| ==> Name(img.dentries[k]) != []
    ensures |NamesFrom(img, i)| == |img.dentries| - i
    decreases |img.dentries| - i
  {
    if i < |img.dentries| { AllNamesListed(img, i + 1); }
  }

  class Tables {
    const img: Image
    const fdas: array2<Fda>
    ghost var got: map<(int, int), seq<byte>>

    predicate InRange(p: int, fd: int) { 0 <= p < PROCESSES && 0 <= fd < FDS }

    /** Everything read through an open file descriptor is the file's beginning, and the file
        position is how much that is. */
    ghost predicate Prefix(p: int, fd: int)
      requires InRange(p, fd) && Layout(img) && fdas.Length0 == PROCESSES && fdas.Length1 == FDS && (p, fd) in got
      reads this, fdas
    {
      var e := fdas[p, fd];
      e.active && e.driver == File ==>
        && 0 <= e.inode && Loadable(img, e.inode)
        && e.pos <= img.inodes[e.inode].length
        && got[(p, fd)] == Flat(img, img.inodes[e.inode])[..e.pos]
    }

    ghost predicate Valid()
      reads this, fdas
    {
      && Sound(img) && fdas.Length0 == PROCESSES && fdas.Length1 == FDS
      && (forall p, fd :: InRange(p, fd) ==> (p, fd) in got)
      && (forall p, fd :: InRange(p, fd) ==> Prefix(p, fd))
    }

    constructor (img: Image)
      requires Sound(img)
      ensures Valid() && this.img == img && fresh(fdas)
    {
      this.img := img;
      fdas := new Fda[PROCESSES, FDS]((_, _) => Fda(false, Keyboard, 0, 0));
      got := map p, fd | 0 <= p < PROCESSES && 0 <= fd < FDS :: (p, fd) := [];
    }

    /** The descriptor part of `create_pcb`: terminal input and output, nothing else. */
    method Start(p: int)
      requires Valid() && 0 <= p < PROCESSES
      modifies fdas
      ensures Valid()
      ensures fdas[p, 0] == Fda(true, Keyboard, 0, 0) && fdas[p, 1] == Fda(true, Screen, 0, 0)
      ensures forall fd :: 2 <= fd < FDS ==> fdas[p, fd] == old(fdas[p, fd]).(active := false)
      ensures forall q, fd :: InRange(q, fd) && q != p ==> fdas[q, fd] == old(fdas[q, fd])
    {
      fdas[p, 0] := fdas[p, 0].(driver := Keyboard);
      fdas[p, 1] := fdas[p, 1].(driver := Screen);
      var w := 0;
      while w < FDS
        invariant 0 <= w <= FDS
        invariant w <= 0 ==> fdas[p, 0].driver == Keyboard
        invariant w <= 1 ==> fdas[p, 1].driver == Screen
        invariant w > 0 ==> fdas[p, 0] == Fda(true, Keyboard, 0, 0)
        invariant w > 1 ==> fdas[p, 1] == Fda(true, Screen, 0, 0)
        invariant forall fd :: 2 <= fd < w ==> fdas[p, fd] == old(fdas[p, fd]).(active := false)
        invariant forall fd :: 2 <= fd < FDS && w <= fd ==> fdas[p, fd] == old(fdas[p, fd])
        invariant forall q, fd :: InRange(q, fd) && q != p ==> fdas[q, fd] == old(fdas[q, fd])
      {
        fdas[p, w] := if w < 2 then fdas[p, w].(active := true, pos := 0, inode := 0) else fdas[p, w].(active := false);
        w := w + 1;
      }
      forall q, fd | InRange(q, fd) ensures Prefix(q, fd) { assert old(Prefix(q, fd)); }
    }

    /** `open`: the lowest free descriptor from 2 on, at the start of the named entry. */
    method Open(p: int, filename: array?<byte>) returns (fd: int)
      requires Valid() && 0 <= p < PROCESSES && (filename != null ==> Terminated(filename[..]))
      modifies fdas, this`got
      ensures Valid()
      ensures forall q, f :: InRange(q, f) && (q, f) != (p, fd) ==>
                fdas[q, f] == old(fdas[q, f]) && got[(q, f)] == old(got[(q, f)])
      ensures var entry := if filename == null then None else Lookup(img, CStr(filename[..]));
              if entry.Some? && exists f :: 2 <= f < 8 && !old(fdas[p, f].active) then
                && 2 <= fd < 8 && !old(fdas[p, fd].active) && (forall f :: 2 <= f < fd ==> old(fdas[p, f].active))
                && fdas[p, fd] == Fda(true, DriverOf(entry.value.filetype), entry.value.inode, 0) && got[(p, fd)] == []
              else fd == -1
    {
      fd := 2;
      while fd < FDS && fdas[p, fd].active
        invariant 2 <= fd <= FDS && forall f :: 2 <= f < fd ==> fdas[p, f].active
      {
        fd := fd + 1;
      }
      if fd == FDS { return -1; }
      var entry := ReadDentryByName(img, filename);
      if entry.None? { return -1; }
      assert entry.value in img.dentries;
      fdas[p, fd] := Fda(true, DriverOf(entry.value.filetype), entry.value.inode, 0);
      got := got[(p, fd) := []];
      var ok := DriverOpen(entry.value.filetype, filename);
      assert ok == 0;
      forall q, f | InRange(q, f) ensures Prefix(q, f) {
        if (q, f) != (p, fd) { assert old(Prefix(q, f)); }
      }
    }

    /** The open entry of a driver table: files and directories check the type once more. */
    method DriverOpen(filetype: int, filename: array?<byte>) returns (r: int)
      requires Layout(img) && (filename != null ==> Terminated(filename[..]))
      ensures r == 0 <==>
                filetype == 0 ||
                (filename != null && Lookup(img, CStr(filename[..])).Some?
                 && Lookup(img, CStr(filename[..])).value.filetype == (if filetype == 1 then 1 else 2))
    {
      if filetype == 0 { return 0; }
      if filename == null { return -1; }
      var entry := ReadDentryByName(img, filename);
      if entry.None? || entry.value.filetype != (if filetype == 1 then 1 else 2) { return -1; }
      return 0;
    }

    method Close(p: int, fd: int) returns (r: int)
      requires Valid() && 0 <= p < PROCESSES
      modifies fdas
      ensures Valid()
      ensures r == if 2 <= fd < FDS && old(fdas[p, fd].active) then 0 else -1
      ensures forall q, f :: InRange(q, f) ==>
                fdas[q, f] == if (q, f) == (p, fd) && r == 0 then old(fdas[q, f]).(active := false) else old(fdas[q, f])
    {
      if fd < 2 || fd > 7 { return -1; }
      if !fdas[p, fd].active { return -1; }
      fdas[p, fd] := fdas[p, fd].(active := false);
      forall q, f | InRange(q, f) ensures Prefix(q, f) { assert old(Prefix(q, f)); }
      return 0;
    }

    /** The file behind a descriptor. */
    ghost function Content(p: int, fd: int): seq<byte>
      reads this, fdas
      requires Valid() && InRange(p, fd) && fdas[p, fd].active && fdas[p, fd].driver == File
    {
      assert Prefix(p, fd);
      Flat(img, img.inodes[fdas[p, fd].inode])
    }

    /** `file_read`: the next bytes of the file, into the buffer from index `at` on. */
    method FileRead(p: int, fd: int, buf: array<byte>, at: nat, nbytes: nat) returns (r: nat)
      requires Valid() && InRange(p, fd) && fdas[p, fd].active && fdas[p, fd].driver == File
      requires at + nbytes <= buf.Length
      modifies fdas, buf, this`got
      ensures Valid()
      ensures var e, flat := old(fdas[p, fd]), old(Content(p, fd));
              && e.pos <= |flat| && r == Min(nbytes, |flat| - e.pos)
              && buf[at..at + r] == flat[e.pos..e.pos + r]
              && fdas[p, fd] == e.(pos := e.pos + r) && Content(p, fd) == flat
              && got[(p, fd)] == old(got[(p, fd)]) + buf[at..at + r]
      ensures forall k :: 0 <= k < buf.Length && !(at <= k < at + r) ==> buf[k] == old(buf[k])
      ensures forall q, f :: InRange(q, f) && (q, f) != (p, fd) ==>
                fdas[q, f] == old(fdas[q, f]) && got[(q, f)] == old(got[(q, f)])
    {
      var e := fdas[p, fd];
      assert Prefix(p, fd);
      ghost var n := img.inodes[e.inode];
      ReadIsSlice(img, e.inode, e.pos, nbytes);
      r := ReadData(img, e.inode, e.pos, buf, at, nbytes);
      BytesAreASlice(img, n, e.pos, r);
      Advance(p, fd, r, buf[at..at + r]);
    }

    /** The file position moves over what was read. */
    method Advance(p: int, fd: int, r: nat, ghost chunk: seq<byte>)
      requires Valid() && InRange(p, fd) && fdas[p, fd].active && fdas[p, fd].driver == File
      requires fdas[p, fd].pos + r <= |Content(p, fd)|
      requires chunk == Content(p, fd)[fdas[p, fd].pos..fdas[p, fd].pos + r]
      modifies fdas, this`got
      ensures Valid() && fdas[p, fd] == old(fdas[p, fd]).(pos := old(fdas[p, fd]).pos + r)
      ensures Content(p, fd) == old(Content(p, fd)) && got[(p, fd)] == old(got[(p, fd)]) + chunk
      ensures forall q, f :: InRange(q, f) && (q, f) != (p, fd) ==>
                fdas[q, f] == old(fdas[q, f]) && got[(q, f)] == old(got[(q, f)])
    {
      ghost var flat, pos := Content(p, fd), fdas[p, fd].pos;
      assert Prefix(p, fd);
      fdas[p, fd] := fdas[p, fd].(pos := fdas[p, fd].pos + r);
      got := got[(p, fd) := got[(p, fd)] + chunk];
      assert flat[..pos + r] == flat[..pos] + flat[pos..pos + r];
      forall q, f | InRange(q, f) ensures Prefix(q, f) {
        if (q, f) != (p, fd) { assert old(Prefix(q, f)); }
      }
    }

    /** `directory_read`: one name per call, then 0 for ever. */
    method DirectoryRead(p: int, fd: int, buf: array<byte>, nbytes: nat) returns (r: int)
      requires Valid() && InRange(p, fd) && fdas[p, fd].active && fdas[p, fd].driver == Directory
      requires nbytes <= buf.Length
      modifies fdas, buf
      ensures Valid()
      ensures var e := old(fdas[p, fd]);
              if e.pos < |img.dentries| then
                && r == Min(nbytes, |Name(img.dentries[e.pos])|)
                && buf[..r] == Name(img.dentries[e.pos])[..r]
                && fdas[p, fd] == e.(pos := e.pos + 1)
              else r == 0 && fdas[p, fd] == e
      ensures forall k :: r <= k < buf.Length ==> buf[k] == old(buf[k])
      ensures forall q, f :: InRange(q, f) && (q, f) != (p, fd) ==> fdas[q, f] == old(fdas[q, f])
    {
      var entry := ReadDentryByIndex(img, fdas[p, fd].pos);
      if entry.None? { return 0; }
      ghost var name := Name(entry.value);
      assert entry.value in img.dentries;
      var read: nat := 0;
      while read < nbytes && read < NAME_LEN
        invariant read <= nbytes && read <= |name| && buf[..read] == name[..read]
        invariant forall k :: read <= k < buf.Length ==> buf[k] == old(buf[k])
        modifies buf
        decreases NAME_LEN - read
      {
        var c := entry.value.filename[read];
        if c == NUL {
          Ends(entry.value.filename, read);
          break;
        }
        Continues(entry.value.filename, read);
        buf[read] := c;
        read := read + 1;
      }
      fdas[p, fd] := fdas[p, fd].(pos := fdas[p, fd].pos + 1);
      forall q, f | InRange(q, f) ensures Prefix(q, f) { assert old(Prefix(q, f)); }
      return read;
    }

    /** `read` by process p: the answer of the descriptor's driver.  `device` is what the keyboard
        or clock driver answers, which keep no state here; the screen cannot be read. */
    method Read(p: int, fd: int, buf: array?<byte>, nbytes: int, device: int) returns (r: int)
      requires Valid() && 0 <= p < PROCESSES && (buf != null ==> nbytes <= buf.Length)
      modifies fdas, buf, this`got
      ensures Valid()
      ensures if buf == null || nbytes < 0 || !(0 <= fd < FDS) || !old(fdas[p, fd]).active then
                r == -1 && (0 <= fd < FDS ==> fdas[p, fd] == old(fdas[p, fd]))
              else var e := old(fdas[p, fd]);
                match e.driver
                case File =>
                  var flat := old(Content(p, fd));
                  && e.pos <= |flat| && r == Min(nbytes, |flat| - e.pos) && buf[..r] == flat[e.pos..e.pos + r]
                  && fdas[p, fd] == e.(pos := e.pos + r)
                case Directory =>
                  if e.pos < |img.dentries| then
                    && r == Min(nbytes, |Name(img.dentries[e.pos])|) && buf[..r] == Name(img.dentries[e.pos])[..r]
                    && fdas[p, fd] == e.(pos := e.pos + 1)
                  else r == 0 && fdas[p, fd] == e
                case Screen => r == -1 && fdas[p, fd] == e
                case _ => r == device && fdas[p, fd] == e
      ensures forall q, f :: InRange(q, f) && (q, f) != (p, fd) ==>
                fdas[q, f] == old(fdas[q, f]) && got[(q, f)] == old(got[(q, f)])
    {
      if buf == null || nbytes < 0 || fd < 0 || fd > 7 { return -1; }
      if !fdas[p, fd].active { return -1; }
      match fdas[p, fd].driver {
        case File =>
          r := FileRead(p, fd, buf, 0, nbytes);
          assert buf[0..0 + r] == buf[..r];
        case Directory => r := DirectoryRead(p, fd, buf, nbytes);
        case Screen => r := -1;
        case _ => r := device;
      }
    }

    /** The loop of `halt` over the descriptors: only the terminal's two stay open. */
    method CloseAll(p: int)
      requires Valid() && 0 <= p < PROCESSES
      modifies fdas
      ensures Valid()
      ensures forall q, f :: InRange(q, f) ==>
                fdas[q, f] == if q == p && f >= 2 then old(fdas[q, f]).(active := false) else old(fdas[q, f])
    {
      var i := 2;
      while i < FDS
        invariant 2 <= i <= FDS && Valid()
        invariant forall q, f :: InRange(q, f) ==>
                    fdas[q, f] == if q == p && 2 <= f < i then old(fdas[q, f]).(active := false) else old(fdas[q, f])
      {
        var r := Close(p, i);
        i := i + 1;
      }
    }

    // ---------- whole files and whole directories ----------

    /** A read of a named entry with room for a name: it delivers the next part of what is left, and
        nothing only if nothing is left. */
    method ReadOn(p: int, fd: int, buf: array<byte>, nbytes: nat) returns (r: nat)
      requires Valid() && InRange(p, fd) && fdas[p, fd].active && fdas[p, fd].driver in {Rtc, Directory, File}
      requires NAME_LEN <= nbytes <= buf.Length
      modifies fdas, buf, this`got
      ensures Valid() && r <= nbytes && fdas[p, fd].active && fdas[p, fd].driver == old(fdas[p, fd].driver)
      ensures Delivered(img, old(fdas[p, fd]), fdas[p, fd], buf[..r])
    {
      ghost var e := fdas[p, fd];
      assert Prefix(p, fd);
      if e.driver == Directory { DirectoryDelivers(img, e); }
      var n := Read(p, fd, buf, nbytes, 0);
      r := n;
      if e.driver == File {
        FileDelivers(img, e, r, nbytes);
      } else if e.driver == Directory && e.pos < |img.dentries| {
        assert Name(img.dentries[e.pos])[..n] == Name(img.dentries[e.pos]);
      }
    }

    /** The same for the bytes that are left. */
    method ReadSome(p: int, fd: int, buf: array<byte>, nbytes: nat, ghost rest: seq<byte>)
      returns (r: nat, ghost rest': seq<byte>)
      requires Valid() && InRange(p, fd) && fdas[p, fd].active && fdas[p, fd].driver in {Rtc, Directory, File}
      requires NAME_LEN <= nbytes <= buf.Length && rest == Rest(img, fdas[p, fd])
      modifies fdas, buf, this`got
      ensures Valid() && r <= nbytes && fdas[p, fd].active && fdas[p, fd].driver in {Rtc, Directory, File}
      ensures rest' == Rest(img, fdas[p, fd])
      ensures if r == 0 then rest == [] else rest == buf[..r] + rest'
    {
      r := ReadOn(p, fd, buf, nbytes);
      rest' := Rest(img, fdas[p, fd]);
    }

    /** The cat program: open the named entry and read until 0.  What it writes is the file, or the
        names of the directory. */
    method Cat(p: int, filename: array<byte>) returns (r: int, out: seq<byte>)
      requires Valid() && 0 <= p < PROCESSES && Terminated(filename[..])
      modifies fdas, this`got
      ensures Valid()
      ensures var e := Lookup(img, CStr(filename[..]));
              if e.None? || (forall f :: 2 <= f < FDS ==> old(fdas[p, f].active)) then r == 2 && out == []
              else r == 0 && out == Dump(img, e.value)
    {
      var fd := Open(p, filename);
      if fd == -1 { return 2, []; }
      out := Copy(p, fd);
      return 0, out;
    }

    /** The loop of cat. */
    method Copy(p: int, fd: int) returns (out: seq<byte>)
      requires Valid() && InRange(p, fd) && fdas[p, fd].active && fdas[p, fd].driver in {Rtc, Directory, File}
      modifies fdas, this`got
      ensures Valid() && out == old(Rest(img, fdas[p, fd]))
    {
      out := [];
      ghost var rest := Rest(img, fdas[p, fd]);
      ghost var whole := rest;
      var buf := new byte[1024];
      while true
        invariant Valid() && fdas[p, fd].active && fdas[p, fd].driver in {Rtc, Directory, File} && fresh(buf)
        invariant rest == Rest(img, fdas[p, fd]) && whole == out + rest
        decreases |rest|
      {
        var cnt;
        ghost var rest';
        cnt, rest' := ReadSome(p, fd, buf, 1024, rest);
        if cnt == 0 { break; }
        MoveBytes(whole, out, buf[..cnt], rest, rest');
        out, rest := out + buf[..cnt], rest';
      }
    }

    /** One name, with the newline that ls puts behind it. */
    method NextLine(p: int, fd: int, buf: array<byte>, ghost rest: seq<seq<byte>>)
      returns (cnt: nat, ghost rest': seq<seq<byte>>)
      requires Valid() && InRange(p, fd) && fdas[p, fd].active && fdas[p, fd].driver == Directory && buf.Length == 33
      requires rest == NamesFrom(img, fdas[p, fd].pos)
      modifies fdas, buf
      ensures Valid() && fdas[p, fd].active && fdas[p, fd].driver == Directory && cnt <= 32
      ensures (cnt == 0) == (rest == [])
      ensures cnt > 0 ==> rest' == rest[1..] == NamesFrom(img, fdas[p, fd].pos)
      ensures cnt > 0 ==> buf[..cnt] == rest[0] && buf[..cnt + 1] == rest[0] + [NEWLINE]
    {
      ghost var i := fdas[p, fd].pos;
      if i < |img.dentries| {
        assert img.dentries[i] in img.dentries;
        if Name(img.dentries[i]) != [] { NextName(img, i); }
      }
      cnt := DirectoryRead(p, fd, buf, 32);
      rest' := if rest == [] then [] else rest[1..];
      if cnt > 0 {
        buf[cnt] := NEWLINE;
        assert buf[..cnt + 1] == buf[..cnt] + [NEWLINE];
      }
    }

    /** The loop of ls. */
    method ListNames(p: int, fd: int) returns (out: seq<byte>, names: seq<seq<byte>>)
      requires Valid() && InRange(p, fd) && fdas[p, fd].active && fdas[p, fd].driver == Directory
      modifies fdas
      ensures Valid() && names == old(NamesFrom(img, fdas[p, fd].pos)) && out == Terminating(names)
    {
      out, names := [], [];
      ghost var rest := NamesFrom(img, fdas[p, fd].pos);
      ghost var whole := rest;
      var buf := new byte[33];
      while true
        invariant Valid() && fdas[p, fd].active && fdas[p, fd].driver == Directory && fresh(buf)
        invariant rest == NamesFrom(img, fdas[p, fd].pos) && whole == names + rest && out == Terminating(names)
        decreases |rest|
      {
        var cnt;
        ghost var rest';
        cnt, rest' := NextLine(p, fd, buf, rest);
        if cnt == 0 { break; }
        MoveName(whole, names, rest[0], rest);
        out, names, rest := out + buf[..cnt + 1], names + [buf[..cnt]], rest';
      }
    }

    /** The ls program: its output is the listed names, one a line. */
    method Ls(p: int) returns (r: int, out: seq<byte>, names: seq<seq<byte>>)
      requires Valid() && 0 <= p < PROCESSES
      requires var e := Lookup(img, [DOT]); e.Some? ==> e.value.filetype == 1
      modifies fdas, this`got
      ensures Valid()
      ensures if Lookup(img, [DOT]).None? || (forall f :: 2 <= f < FDS ==> old(fdas[p, f].active)) then
                r == 2 && out == []
              else r == 0 && names == NamesFrom(img, 0) && out == Terminating(names)
      ensures UniqueNames(img) && r == 0 ==> forall i :: 0 <= i < |names| ==>
                i < |img.dentries| && Lookup(img, names[i]) == Some(img.dentries[i])
    {
      out, names := [], [];
      var dot := new byte[2][DOT, NUL];
      DotName(dot[..]);
      var fd := Open(p, dot);
      if fd == -1 { return 2, out, names; }
      out, names := ListNames(p, fd);
      if UniqueNames(img) {
        forall i | 0 <= i < |names| ensures i < |img.dentries| && Lookup(img, names[i]) == Some(img.dentries[i]) {
          NamesAre(img, 0, i);
          LookupFindsListedEntry(img, i);
        }
      }
      return 0, out, names;
    }
  }

  /** Every name followed by a newline. */
  function Terminating(names: seq<seq<byte>>): seq<byte> {
    if names == [] then [] else Terminating(names[..|names| - 1]) + names[|names| - 1] + [NEWLINE]
  }

  lemma OneMoreName(names: seq<seq<byte>>, name: seq<byte>)
    ensures Terminating(names + [name]) == Terminating(names) + (name + [NEWLINE])
  {
    assert (names + [name])[..|names|] == names;
  }

  lemma MoveBytes(whole: seq<byte>, out: seq<byte>, chunk: seq<byte>, rest: seq<byte>, rest': seq<byte>)
    requires whole == out + rest && rest == chunk + rest'
    ensures whole == out + chunk + rest'
  {
  }

  lemma MoveName(whole: seq<seq<byte>>, names: seq<seq<byte>>, name: seq<byte>, rest: seq<seq<byte>>)
    requires whole == names + rest && rest != [] && rest[0] == name
    ensures whole == names + [name] + rest[1..]
    ensures Terminating(names + [name]) == Terminating(names) + (name + [NEWLINE])
  {
    OneMoreName(names, name);
  }

  lemma DotName(s: seq<byte>)
    requires s == [DOT, NUL]
    ensures Terminated(s) && CStr(s) == [DOT]
  {
    assert s[..1] == [DOT];
    CStrIs(s, 1);
  }
}
