/** The contents of an ext2 inode: direct and singly-indirect blocks. */
module Ext2File {
  import opened Words
  import opened LittleEndian
  import opened Ext2Ranges

  type Disk = seq<Bytes>

  const INODE := 128
  const DIRECT := 12

  ghost predicate Blocks(d: Disk, bs: nat) {
    bs >= 1024 && forall i :: 0 <= i < |d| ==> |d[i]| == bs
  }

  function FileSize(ino: Bytes): u32
    requires |ino| == INODE
  {
    Get32(ino, 4)
  }

  function Ptr(ino: Bytes, i: nat): u32
    requires |ino| == INODE && i < 15
  {
    Get32(ino, 40 + 4 * i)
  }

  /** A block of the disk; none for pointer zero, and none past the end. */
  function Fetch(d: Disk, p: nat): Option<Bytes> {
    if 0 < p < |d| then Some(d[p]) else None
  }

  /** The pointers in an indirect block. */
  function PtrIn(b: Bytes, k: nat): u32
    requires 4 * k + 4 <= |b|
  {
    Get32(b, 4 * k)
  }

  function BlockAt(d: Disk, bs: nat, ino: Bytes, i: nat): Option<Bytes>
    requires Blocks(d, bs) && |ino| == INODE && i < DIRECT + bs / 4
  {
    if i < DIRECT then Fetch(d, Ptr(ino, i))
    else
      match Fetch(d, Ptr(ino, DIRECT))
      case None => None
      case Some(t) => Fetch(d, PtrIn(t, i - DIRECT))
  }

  /** Every block an inode maps. */
  function Mapped(d: Disk, bs: nat, ino: Bytes): (bl: BlockList)
    requires Blocks(d, bs) && |ino| == INODE
    ensures Sized(bl, bs) && |bl| == DIRECT + bs / 4
  {
    seq(DIRECT + bs / 4, i requires 0 <= i < DIRECT + bs / 4 => BlockAt(d, bs, ino, i))
  }

  /** Mentioned where the blocks behind a list of them matter. */
  predicate LookAtMap(k: int) {
    true
  }

  /** `bl` are the blocks the inode maps, and `indirect` its indirect block, once loaded. */
  ghost predicate Maps(d: Disk, bs: nat, ino: Bytes, bl: BlockList, indirect: Option<Bytes>) {
    && Blocks(d, bs) && |ino| == INODE
    && forall k: int :: LookAtMap(k) ==>
         bl == Mapped(d, bs, ino) && (indirect.Some? ==> indirect == Fetch(d, Ptr(ino, DIRECT)))
  }

  /** Fetches file block `i`, loading the indirect block the first time it is needed. */
  method FetchBlock(d: Disk, bs: nat, ino: Bytes, i: nat, indirect: Option<Bytes>, ghost bl: BlockList)
    returns (b: Option<Bytes>, loaded: Option<Bytes>)
    requires Maps(d, bs, ino, bl, indirect)
    ensures Maps(d, bs, ino, bl, loaded)
    ensures b.Some? ==> Present(bl, i) && b == bl[i] && |b.value| == bs
    ensures b.None? ==> !Present(bl, i)
  {
    assert LookAtMap(0);
    loaded := indirect;
    var phys: nat;
    if i < DIRECT {
      phys := Ptr(ino, i);
    } else if i < DIRECT + bs / 4 {
      if Ptr(ino, DIRECT) == 0 {
        return None, loaded;
      }
      if loaded.None? {
        loaded := Fetch(d, Ptr(ino, DIRECT));
        if loaded.None? {
          return None, loaded;
        }
      }
      phys := PtrIn(loaded.value, i - DIRECT);
    } else {
      return None, loaded;
    }
    if phys == 0 {
      return None, loaded;
    }
    b := Fetch(d, phys);
  }

  /** Reads `toRead` bytes from byte `start` of block `first` on. */
  method ReadOn(d: Disk, bs: nat, ino: Bytes, first: nat, start: nat, toRead: nat, ghost bl: BlockList, ghost all: Bytes)
    returns (out: Bytes)
    requires Maps(d, bs, ino, bl, None) && start < bs && Reading(bl, bs, all, [], first, start, toRead)
    ensures out == all
  {
    out := [];
    var indirect: Option<Bytes> := None;
    var blockIndex: nat, inBlock: nat := first, start;
    while |out| < toRead
      invariant |out| <= toRead && inBlock < bs
      invariant Reading(bl, bs, all, out, blockIndex, inBlock, toRead - |out|)
      invariant Maps(d, bs, ino, bl, indirect)
    {
      var b: Option<Bytes>;
      b, indirect := FetchBlock(d, bs, ino, blockIndex, indirect, bl);
      if b.None? {
        break;
      }
      var chunk := bs - inBlock;
      if chunk > toRead - |out| {
        chunk := toRead - |out|;
      }
      ReadStep(bl, bs, all, out, blockIndex, inBlock, toRead - |out|, chunk);
      out := out + b.value[inBlock..inBlock + chunk];
      inBlock := 0;
      blockIndex := blockIndex + 1;
    }
    ReadStops(bl, bs, all, out, blockIndex, inBlock, toRead - |out|);
  }

  method ReadInodeDataAt(d: Disk, bs: nat, ino: Bytes, offset: nat, bufSize: nat) returns (out: Bytes)
    requires Blocks(d, bs) && |ino| == INODE
    ensures out == ReadAt(Mapped(d, bs, ino), bs, FileSize(ino), offset, bufSize)
  {
    if offset >= FileSize(ino) {
      return [];
    }
    var toRead := FileSize(ino) - offset;
    if toRead > bufSize {
      toRead := bufSize;
    }
    var q, r := offset / bs, offset % bs;
    ghost var bl := Mapped(d, bs, ino);
    SkipBlocks(bl, bs, 0, offset, q, r, toRead);
    ReadStarts(bl, bs, q, r, toRead);
    out := ReadOn(d, bs, ino, q, r, toRead, bl, ReadFrom(bl, bs, q, r, toRead));
  }
}
