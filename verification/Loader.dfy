/** The program loader: a file is copied in 64-byte chunks into the mapped 4 MB program page.
    Proved to be one copy of the whole file, and to fail exactly when the file cannot be read. */
module Loader {
  import opened Prelude
  import opened FileSystem

  const CHUNK := 64
  const IMAGE_START := 0x48000     // images run at 0x08048000, the program page at 0x08000000

  /** `load_program_image`: bytes of the buffer to memory at the image's offset. */
  method LoadProgramImage(mem: array<byte>, offset: nat, buf: array?<byte>, length: nat) returns (r: int)
    requires buf != null ==> length <= buf.Length && IMAGE_START + offset + length <= mem.Length && buf != mem
    modifies mem
    ensures r == if buf == null then -1 else 0
    ensures r == 0 ==> mem[IMAGE_START + offset..IMAGE_START + offset + length] == buf[..length]
    ensures var at := IMAGE_START + offset;
            forall k :: 0 <= k < mem.Length && !(r == 0 && at <= k < at + length) ==> mem[k] == old(mem[k])
  {
    if buf == null { return -1; }
    var i := 0;
    while i < length
      invariant 0 <= i <= length
      invariant forall k :: 0 <= k < i ==> mem[IMAGE_START + offset + k] == buf[k]
      invariant forall k :: 0 <= k < mem.Length && !(IMAGE_START + offset <= k < IMAGE_START + offset + i) ==>
          mem[k] == old(mem[k])
    {
      mem[IMAGE_START + offset + i] := buf[i];
      i := i + 1;
    }
    return 0;
  }

  lemma ReadFailsOnlyIfNotLoadable(img: Image, inode: nat, offset: nat)
    requires Layout(img) && (inode < |img.inodes| ==> offset <= img.inodes[inode].length)
    requires ReadResult(img, inode, offset, CHUNK) == -1
    ensures !Loadable(img, inode)
  {
    if Loadable(img, inode) { ReadIsSlice(img, inode, offset, CHUNK); }
  }

  lemma ReadEndsOnlyIfLoadable(img: Image, inode: nat, offset: nat)
    requires Layout(img) && (inode < |img.inodes| ==> offset <= img.inodes[inode].length)
    requires inode < |img.inodes| ==> Readable(img, img.inodes[inode], 0, offset)
    requires ReadResult(img, inode, offset, CHUNK) == 0
    ensures Loadable(img, inode) && offset == img.inodes[inode].length
  {
    var n := img.inodes[inode];
    assert n in img.inodes;
  }

  lemma NextChunk(img: Image, n: Inode, offset: nat, cnt: nat)
    requires Layout(img) && Readable(img, n, 0, offset) && Readable(img, n, offset, cnt)
    ensures Readable(img, n, 0, offset + cnt)
    ensures Bytes(img, n, 0, offset + cnt) == Bytes(img, n, 0, offset) + Bytes(img, n, offset, cnt)
  {
    forall k: nat | 0 <= k < offset + cnt ensures SlotValid(img, n, k / BLOCK) {
      if k < offset { assert SlotValid(img, n, k / BLOCK); }
    }
  }

  lemma ChunkInPlace(before: seq<byte>, after: seq<byte>, start: nat, end: nat, chunk: seq<byte>)
    requires |before| == |after| && start <= end && end + |chunk| <= |after|
    requires after[end..end + |chunk|] == chunk && after[..end] == before[..end]
    ensures after[start..end + |chunk|] == before[start..end] + chunk
  {
    assert after[start..end + |chunk|] == after[start..end] + after[end..end + |chunk|];
    assert after[..end][start..] == after[start..end] && before[..end][start..] == before[start..end];
  }

  method CopyProgramImage(img: Image, inode: nat, mem: array<byte>) returns (r: int)
    requires Layout(img)
    requires inode < |img.inodes| ==> IMAGE_START + img.inodes[inode].length <= mem.Length
    modifies mem
    ensures r == if Loadable(img, inode) then 0 else -1
    ensures r == 0 ==> mem[0x48000..0x48000 + img.inodes[inode].length] == Flat(img, img.inodes[inode])
    ensures forall k :: 0 <= k < mem.Length ==>
              (inode >= |img.inodes| || !(IMAGE_START <= k < IMAGE_START + img.inodes[inode].length)) ==>
                  mem[k] == old(mem[k])
  {
    var buf := new byte[CHUNK];
    if inode >= |img.inodes| {
      var none := ReadData(img, inode, 0, buf, 0, CHUNK);
      return -1;
    }
    ghost var n := img.inodes[inode];
    assert n in img.inodes;
    var offset: nat := 0;
    while true
      invariant offset <= n.length && Readable(img, n, 0, offset)
      invariant mem[IMAGE_START..IMAGE_START + offset] == Bytes(img, n, 0, offset)
      invariant forall k :: 0 <= k < mem.Length && !(IMAGE_START <= k < IMAGE_START + offset) ==> mem[k] == old(mem[k])
      invariant fresh(buf) && buf.Length == CHUNK
      decreases n.length - offset
    {
      var cnt := ReadData(img, inode, offset, buf, 0, CHUNK);
      if cnt == 0 {
        ReadEndsOnlyIfLoadable(img, inode, offset);
        return 0;
      }
      if cnt == -1 {
        ReadFailsOnlyIfNotLoadable(img, inode, offset);
        return -1;
      }
      ghost var before, chunk := mem[..], buf[..cnt];
      assert chunk == buf[0..0 + cnt];
      var loaded := LoadProgramImage(mem, offset, buf, cnt);
      NextChunk(img, n, offset, cnt);
      ChunkInPlace(before, mem[..], IMAGE_START, IMAGE_START + offset, chunk);
      offset := offset + cnt;
    }
  }
}
