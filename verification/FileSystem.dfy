/** The read-only file system image: directory entries, inodes, 4 KB blocks.  Walking the blocks
    byte by byte is proved to be slicing one flat file. */
module FileSystem {
  import opened Prelude
  import opened CStrings

  const BLOCK := 4096
  const SLOTS := 1023      // block numbers in an inode

  datatype Dentry = Dentry(filename: seq<byte>, filetype: int, inode: int)
  datatype Inode = Inode(length: int, blockNums: seq<int>)
  datatype Image = Image(dentries: seq<Dentry>, inodes: seq<Inode>, blocks: seq<seq<byte>>)

  /** The fixed layout of an image, with file lengths that an inode can hold. */
  ghost predicate Layout(img: Image) {
    && |img.dentries| <= 63
    && (forall d :: d in img.dentries ==> |d.filename| == NAME_LEN)
    && (forall n :: n in img.inodes ==> |n.blockNums| == SLOTS && 0 <= n.length <= SLOTS * BLOCK)
    && (forall b :: b in img.blocks ==> |b| == BLOCK)
  }

  // ---------- the flat file ----------

  predicate SlotValid(img: Image, n: Inode, slot: nat) {
    slot < |n.blockNums| && 0 <= n.blockNums[slot] < |img.blocks|
  }

  function ByteAt(img: Image, n: Inode, k: nat): byte
    requires SlotValid(img, n, k / BLOCK) && Layout(img)
  {
    img.blocks[n.blockNums[k / BLOCK]][k % BLOCK]
  }

  /** Every block that holds a byte of [from, from + count) is there. */
  ghost predicate Readable(img: Image, n: Inode, from: nat, count: nat) {
    forall k: nat :: from <= k < from + count ==> SlotValid(img, n, k / BLOCK)
  }

  ghost function Bytes(img: Image, n: Inode, from: nat, count: nat): seq<byte>
    requires Layout(img) && Readable(img, n, from, count)
  {
    seq<byte>(count, i requires 0 <= i < count => ByteAt(img, n, from + i))
  }

  /** An inode all of whose used blocks are there. */
  ghost predicate Intact(img: Image, n: Inode) {
    0 <= n.length && Readable(img, n, 0, n.length)
  }

  ghost function Flat(img: Image, n: Inode): seq<byte>
    requires Layout(img) && Intact(img, n)
  {
    Bytes(img, n, 0, n.length)
  }

  lemma OneMoreByte(img: Image, n: Inode, from: nat, count: nat)
    requires Layout(img) && Readable(img, n, from, count) && SlotValid(img, n, (from + count) / BLOCK)
    ensures Readable(img, n, from, count + 1)
    ensures Bytes(img, n, from, count + 1) == Bytes(img, n, from, count) + [ByteAt(img, n, from + count)]
  {
  }

  function Min(a: int, b: int): int { if a <= b then a else b }

  /** Bytes that are left to read. */
  function Left(n: Inode, offset: nat, length: nat): nat {
    if n.length <= offset then 0 else Min(length, n.length - offset)
  }

  lemma BytesAreASlice(img: Image, n: Inode, from: nat, count: nat)
    requires Layout(img) && Intact(img, n) && from + count <= n.length
    ensures Readable(img, n, from, count)
    ensures Bytes(img, n, from, count) == Flat(img, n)[from..from + count]
  {
  }

  /** The first k blocks of an inode, one after the other. */
  ghost function Joined(img: Image, n: Inode, k: nat): (r: seq<byte>)
    requires Layout(img) && forall j: nat :: j < k ==> SlotValid(img, n, j)
    ensures |r| == 4096 * k
  {
    if k == 0 then [] else
      assert SlotValid(img, n, k - 1) && img.blocks[n.blockNums[k - 1]] in img.blocks;
      Joined(img, n, k - 1) + img.blocks[n.blockNums[k - 1]]
  }

  lemma {:induction false} JoinedAt(img: Image, n: Inode, k: nat, i: nat)
    requires Layout(img) && (forall j: nat :: j < k ==> SlotValid(img, n, j)) && i < 4096 * k
    ensures SlotValid(img, n, i / BLOCK) && Joined(img, n, k)[i] == ByteAt(img, n, i)
  {
    var last := 4096 * (k - 1);
    assert SlotValid(img, n, k - 1);
    if i < last {
      JoinedAt(img, n, k - 1, i);
    } else {
      BlockOf(i, k - 1, i - last);
    }
  }

  /** The flat file is its blocks, one after the other, up to its length. */
  lemma FlatIsItsBlocks(img: Image, n: Inode, k: nat)
    requires Layout(img) && Intact(img, n) && (forall j: nat :: j < k ==> SlotValid(img, n, j)) && n.length <= 4096 * k
    ensures Flat(img, n) == Joined(img, n, k)[..n.length]
  {
    forall i | 0 <= i < n.length ensures Flat(img, n)[i] == Joined(img, n, k)[i] {
      JoinedAt(img, n, k, i);
    }
  }

  /** For an intact inode that is as many blocks as its length needs. */
  lemma IntactHasItsBlocks(img: Image, n: Inode, k: nat)
    requires Layout(img) && Intact(img, n) && 4096 * k < n.length + 4096
    ensures forall j: nat :: j < k ==> SlotValid(img, n, j)
  {
    forall j: nat | j < k ensures SlotValid(img, n, j) {
      assert SlotValid(img, n, (BLOCK * j) / BLOCK);
    }
  }

  // ---------- reading ----------

  /** What `read_data` answers, for every inode number, offset and length. */
  ghost function ReadResult(img: Image, inode: nat, offset: nat, length: nat): int {
    if inode >= |img.inodes| then -1
    else var n := img.inodes[inode];
      if offset / BLOCK >= SLOTS then 0
      else
        var count := Left(n, offset, length);
        if SlotValid(img, n, offset / BLOCK) && Readable(img, n, offset, count) then count
      else -1
  }

  lemma OneMoreCell(before: seq<byte>, after: seq<byte>, at: nat, end: nat)
    requires at <= end < |before| && |after| == |before| && after == before[end := after[end]]
    ensures after[at..end + 1] == before[at..end] + [after[end]]
  {
  }

  lemma BlockOf(offset: nat, slot: nat, within: nat)
    requires offset == slot * BLOCK + within && within < BLOCK
    ensures offset / BLOCK == slot && offset % BLOCK == within
  {
  }

  /** `read_data` into the caller's buffer from index `at` on. */
  method ReadData(img: Image, inode: nat, start: nat, buf: array?<byte>, at: nat, length: nat) returns (r: int)
    requires Layout(img) && (buf != null ==> at + length <= buf.Length)
    modifies buf
    ensures r == if buf == null then -1 else ReadResult(img, inode, start, length)
    ensures r >= 0 ==> r <= length
    ensures r > 0 ==> Readable(img, img.inodes[inode], start, r)
    ensures r > 0 ==> buf[at..at + r] == Bytes(img, img.inodes[inode], start, r)
    ensures buf != null ==>
              forall k :: 0 <= k < buf.Length && !(at <= k < at + if r >= 0 then r else length) ==>
                buf[k] == old(buf[k])
  {
    if inode >= |img.inodes| { return -1; }
    if buf == null { return -1; }
    var n := img.inodes[inode];
    assert n in img.inodes;
    if start / BLOCK >= SLOTS { return 0; }
    var block := n.blockNums[start / BLOCK];
    if block < 0 || block >= |img.blocks| { return -1; }
    r := CopyBlocks(img, n, start, buf, at, length);
  }

  /** The loop of `read_data`, from a valid block on. */
  method CopyBlocks(img: Image, n: Inode, start: nat, buf: array<byte>, at: nat, length: nat) returns (r: int)
    requires Layout(img) && n in img.inodes && at + length <= buf.Length && SlotValid(img, n, start / BLOCK)
    modifies buf
    ensures r == if Readable(img, n, start, Left(n, start, length)) then Left(n, start, length) else -1
    ensures r >= 0 ==> Readable(img, n, start, r) && buf[at..at + r] == Bytes(img, n, start, r)
    ensures forall k :: 0 <= k < buf.Length && !(at <= k < at + if r >= 0 then r else length) ==> buf[k] == old(buf[k])
  {
    var offset, read: nat := start, 0;
    var slot, within := offset / BLOCK, offset % BLOCK;
    var block := n.blockNums[slot];
    while offset < n.length && read < length
      invariant offset == start + read && read <= length && (offset <= n.length || read == 0)
      invariant SlotValid(img, n, slot) && block == n.blockNums[slot]
      invariant 0 <= within <= BLOCK && offset == slot * BLOCK + within
      invariant Readable(img, n, start, read) && buf[at..at + read] == Bytes(img, n, start, read)
      invariant forall k :: 0 <= k < buf.Length && !(at <= k < at + read) ==> buf[k] == old(buf[k])
      decreases length - read
    {
      if within == BLOCK {
        slot := slot + 1;
        block := n.blockNums[slot];
        if block < 0 || block >= |img.blocks| {
          BlockOf(offset, slot, 0);
          assert !SlotValid(img, n, offset / BLOCK);
          return -1;
        }
        within := 0;
      }
      BlockOf(offset, slot, within);
      assert img.blocks[block] in img.blocks;
      OneMoreByte(img, n, start, read);
      ghost var before := buf[..];
      buf[at + read] := img.blocks[block][within];
      OneMoreCell(before, buf[..], at, at + read);
      within, read, offset := within + 1, read + 1, offset + 1;
    }
    assert read == Left(n, start, length);
    return read;
  }

  /** On an intact file `read_data` returns exactly the requested slice, across block boundaries
      and at the end, provided the slot of the offset itself is valid. */
  lemma ReadIsSlice(img: Image, inode: nat, offset: nat, length: nat)
    requires Layout(img) && inode < |img.inodes| && Intact(img, img.inodes[inode])
    requires offset <= img.inodes[inode].length
    ensures var n := img.inodes[inode];
            ReadResult(img, inode, offset, length) ==
              if offset < n.length || offset == 1023 * 4096 || SlotValid(img, n, offset / BLOCK)
              then Min(length, n.length - offset) else -1
  {
    var n := img.inodes[inode];
    assert n in img.inodes;
    if offset < n.length { BytesAreASlice(img, n, offset, Left(n, offset, length)); }
  }

  /** All blocks are there, and so is the one just past the end that the last read asks for. */
  ghost predicate Loadable(img: Image, inode: nat) {
    inode < |img.inodes| &&
    var n := img.inodes[inode];
    Intact(img, n) && (n.length == SLOTS * BLOCK || SlotValid(img, n, n.length / BLOCK))
  }

  /** The extra block matters only for files whose length is a multiple of the block size, ... */
  lemma LoadableUnlessLastBlockFull(img: Image, inode: nat)
    requires Layout(img) && inode < |img.inodes| && img.inodes[inode].length % BLOCK != 0
    ensures Loadable(img, inode) <==> Intact(img, img.inodes[inode])
  {
    var n := img.inodes[inode];
    assert n in img.inodes;
    if Intact(img, n) {
      assert SlotValid(img, n, (n.length - 1) / BLOCK);
    }
  }

  /** ... the empty file among them: here is one that reads cannot even find the end of. */
  lemma EmptyFileMayFail() returns (img: Image)
    ensures Layout(img) && |img.inodes| == 1 && img.inodes[0].length == 0 && Intact(img, img.inodes[0])
    ensures !Loadable(img, 0) && ReadResult(img, 0, 0, 1) == -1
  {
    var n := Inode(0, seq(SLOTS, _ => -1));
    img := Image([], [n], []);
    assert !SlotValid(img, n, 0);
  }

  // ---------- looking up names ----------

  function Name(d: Dentry): seq<byte> { CStr(d.filename) }

  /** The first entry of that name from index i on, or |dentries|. */
  function FindFrom(img: Image, name: seq<byte>, i: nat): (k: nat)
    requires i <= |img.dentries|
    ensures i <= k <= |img.dentries|
    ensures forall j :: i <= j < k ==> Name(img.dentries[j]) != name
    ensures k < |img.dentries| ==> Name(img.dentries[k]) == name
    decreases |img.dentries| - i
  {
    if i == |img.dentries| || Name(img.dentries[i]) == name then i else FindFrom(img, name, i + 1)
  }

  function Lookup(img: Image, name: seq<byte>): Option<Dentry> {
    var k := FindFrom(img, name, 0);
    if k < |img.dentries| then Some(img.dentries[k]) else None
  }

  lemma {:induction false} LongNamesAreAbsent(img: Image, name: seq<byte>, i: nat)
    requires Layout(img) && |name| > NAME_LEN && i <= |img.dentries|
    ensures FindFrom(img, name, i) == |img.dentries|
    decreases |img.dentries| - i
  {
    if i < |img.dentries| {
      assert img.dentries[i] in img.dentries;
      LongNamesAreAbsent(img, name, i + 1);
    }
  }

  /** The inner comparison of `read_dentry_by_name`: at most 32 bytes, up to a common NUL. */
  method SameName(fname: array<byte>, d: Dentry) returns (b: bool)
    requires Terminated(fname[..]) && |d.filename| == NAME_LEN && |CStr(fname[..])| <= NAME_LEN
    ensures b <==> Name(d) == CStr(fname[..])
  {
    ghost var name := CStr(fname[..]);
    var s := 0;
    while s < NAME_LEN
      invariant s <= NAME_LEN && s <= |name| && s <= |Name(d)| && name[..s] == Name(d)[..s]
    {
      if fname[s] != d.filename[s] {
        if s < |name| && s < |Name(d)| { assert name[s] == fname[s] && Name(d)[s] == d.filename[s]; }
        return false;
      }
      if fname[s] == NUL {
        Ends(fname[..], s);
        Ends(d.filename, s);
        return true;
      }
      Continues(fname[..], s);
      Continues(d.filename, s);
      assert name[..s + 1] == name[..s] + [name[s]] && Name(d)[..s + 1] == Name(d)[..s] + [Name(d)[s]];
      s := s + 1;
    }
    return true;
  }

  method ReadDentryByName(img: Image, fname: array?<byte>) returns (r: Option<Dentry>)
    requires Layout(img) && (fname != null ==> Terminated(fname[..]))
    ensures r == if fname == null then None else Lookup(img, CStr(fname[..]))
  {
    if fname == null { return None; }
    ghost var name := CStr(fname[..]);
    var len := StrLen(fname[..]);
    if len > NAME_LEN {
      LongNamesAreAbsent(img, name, 0);
      return None;
    }
    var i := 0;
    while i < |img.dentries|
      invariant i <= |img.dentries| && FindFrom(img, name, 0) == FindFrom(img, name, i)
    {
      assert img.dentries[i] in img.dentries;
      var same := SameName(fname, img.dentries[i]);
      if same { return Some(img.dentries[i]); }
      i := i + 1;
    }
    return None;
  }

  method ReadDentryByIndex(img: Image, index: nat) returns (r: Option<Dentry>)
    ensures r == if index < |img.dentries| then Some(img.dentries[index]) else None
  {
    if index >= |img.dentries| { return None; }
    return Some(img.dentries[index]);
  }

  ghost predicate UniqueNames(img: Image) {
    forall i, j :: 0 <= i < j < |img.dentries| ==> Name(img.dentries[i]) != Name(img.dentries[j])
  }

  lemma {:induction false} FindFromReaches(img: Image, from: nat, i: nat)
    requires UniqueNames(img) && from <= i < |img.dentries|
    ensures FindFrom(img, Name(img.dentries[i]), from) == i
    decreases i - from
  {
    if from < i { FindFromReaches(img, from + 1, i); }
  }

  /** Looking up a listed name finds the very entry it was listed from. */
  lemma LookupFindsListedEntry(img: Image, i: nat)
    requires UniqueNames(img) && i < |img.dentries|
    ensures Lookup(img, Name(img.dentries[i])) == Some(img.dentries[i])
  {
    FindFromReaches(img, 0, i);
  }
}
