/** Creating a file on a consistent ext2 volume. */
module Ext2Create {
  import opened Words
  import opened LittleEndian
  import opened Ext2Bits
  import opened Ext2Dirents
  import opened Ext2Ranges
  import opened Ext2File
  import opened Ext2Volume
  import opened Ext2Alloc

  // ---- the files of a volume ----

  lemma {:induction false} LookupIn(es: seq<Entry>, name: Bytes)
    requires Lookup(es, name).Some?
    ensures exists e :: e in es && e.ino != 0 && Lookup(es, name) == Some(e.ino)
  {
    if !(es[0].ino != 0 && es[0].name == name) {
      LookupIn(es[1..], name);
    } else {
      assert es[0] in es;
    }
  }

  /** A name of a file: it leads to an inode, and not to the root directory's. */
  predicate IsFile(es: seq<Entry>, name: Bytes) {
    Lookup(es, name).Some? && Lookup(es, name).value != ROOT_INODE
  }

  lemma FileIsOk(g: Geo, d: Disk, name: Bytes)
    requires OnDisk(g, d) && Tiles(d[g.root], 0) && FilesOk(g, d) && IsFile(Listing(g, d), name)
    ensures InodeOk(g, d, Lookup(Listing(g, d), name).value)
  {
    LookupIn(Listing(g, d), name);
  }

  /** Inode `n` reads in `d'` as it did in `d`. */
  ghost predicate SameContent(g: Geo, d: Disk, d': Disk, n: nat)
    requires OnDisk(g, d) && OnDisk(g, d')
  {
    0 < n <= g.ipg && Content(g, d', n) == Content(g, d, n)
  }

  /** Every file name but `but` leads where it led and reads as it read. */
  ghost predicate SameFiles(g: Geo, d: Disk, d': Disk, but: Option<Bytes>)
    requires OnDisk(g, d) && OnDisk(g, d') && Tiles(d[g.root], 0) && Tiles(d'[g.root], 0)
  {
    forall name: Bytes :: Some(name) != but ==>
      && Lookup(Listing(g, d'), name) == Lookup(Listing(g, d), name)
      && (IsFile(Listing(g, d), name) ==> SameContent(g, d, d', Lookup(Listing(g, d), name).value))
  }

  lemma KeptInode(g: Geo, v: Vol, w: Vol, n: nat)
    requires Keeps(g, v, w) && InodeOk(g, v.d, n)
    ensures InodeOk(g, w.d, n) && SameContent(g, v.d, w.d, n)
  {
    MappedFrame(g, v.d, w.d, Inode(g, v.d, n));
    FileSafeFrame(g, v.d, w.d, Inode(g, v.d, n));
  }

  /** What keeps the blocks, the directory and the inodes in use keeps the files. */
  lemma KeptFiles(g: Geo, v: Vol, w: Vol)
    requires Consistent(g, v) && Keeps(g, v, w)
    ensures Consistent(g, w) && SameFiles(g, v.d, w.d, None)
  {
    forall e | e in Listing(g, v.d) && e.ino != 0 && e.ino != ROOT_INODE ensures InodeOk(g, w.d, e.ino) {
      KeptInode(g, v, w, e.ino);
    }
    forall name: Bytes | IsFile(Listing(g, v.d), name)
      ensures SameContent(g, v.d, w.d, Lookup(Listing(g, v.d), name).value)
    {
      FileIsOk(g, v.d, name);
      KeptInode(g, v, w, Lookup(Listing(g, v.d), name).value);
    }
  }

  // ---- the data ----

  /** `data` cut into blocks, the last one filled up with zeros. */
  function Chunks(data: Bytes, bs: nat): (cs: seq<Bytes>)
    requires bs > 0
    ensures forall i :: 0 <= i < |cs| ==> |cs[i]| == bs
  {
    if data == [] then []
    else if |data| <= bs then [data + Zeros(bs - |data|)]
    else [data[..bs]] + Chunks(data[bs..], bs)
  }

  /** As many as rounding up says. */
  lemma {:induction false} ChunkCount(data: Bytes, bs: nat)
    requires bs > 0
    ensures |Chunks(data, bs)| * bs < |data| + bs <= |Chunks(data, bs)| * bs + bs
  {
    if |data| > bs {
      ChunkCount(data[bs..], bs);
      var n := |Chunks(data[bs..], bs)|;
      assert |Chunks(data, bs)| == n + 1 && (n + 1) * bs == n * bs + bs;
    }
  }

  lemma RoundUp(data: Bytes, bs: nat)
    requires bs > 0
    ensures |Chunks(data, bs)| == (|data| + bs - 1) / bs
  {
    ChunkCount(data, bs);
    DivParts(|data| + bs - 1, bs);
    var n, q := |Chunks(data, bs)|, (|data| + bs - 1) / bs;
    if n < q {
      BlocksApart(n, q, bs);
    } else if q < n {
      BlocksApart(q, n, bs);
    }
  }

  /** Reading blocks that hold the chunks of `data` gives `data`. */
  lemma {:induction false} ChunksRead(bl: BlockList, bs: nat, i: nat, data: Bytes)
    requires Sized(bl, bs) && i + |Chunks(data, bs)| <= |bl|
    requires forall j :: 0 <= j < |Chunks(data, bs)| ==> bl[i + j] == Some(Chunks(data, bs)[j])
    ensures ReadFrom(bl, bs, i, 0, |data|) == data
    decreases |data|
  {
    if data != [] {
      assert bl[i + 0] == Some(Chunks(data, bs)[0]);
      if |data| <= bs {
        ReadPart(bl, bs, i, 0, |data|);
      } else {
        var cs := Chunks(data[bs..], bs);
        forall j | 0 <= j < |cs| ensures bl[i + 1 + j] == Some(cs[j]) {
          assert bl[i + (j + 1)] == Some(Chunks(data, bs)[j + 1]);
        }
        ChunksRead(bl, bs, i + 1, data[bs..]);
        ReadBlock(bl, bs, i, |data|);
        assert data[..bs] + data[bs..] == data;
      }
    }
  }

  // ---- the new inode ----

  const REGULAR: u16 := 0x81A4

  /** A fresh inode for `size` bytes in `sectors` sectors, with no blocks yet. */
  function NewInode(size: u32, sectors: u32): (ino: Bytes)
    ensures |ino| == INODE
  {
    Put(Put(Put(Put(Zeros(INODE), 0, Enc16(REGULAR)), 4, Enc32(size)), 26, Enc16(1)), 28, Enc32(sectors))
  }

  lemma NewInodeFields(size: u32, sectors: u32)
    ensures FileSize(NewInode(size, sectors)) == size
    ensures forall i: nat :: i < 15 ==> Ptr(NewInode(size, sectors), i) == 0
  {
    var a := Put(Zeros(INODE), 0, Enc16(REGULAR));
    var b := Put(a, 4, Enc32(size));
    var c := Put(b, 26, Enc16(1));
    Enc32Get(b, 4, size);
    GetElsewhere(b, 26, Enc16(1), 4);
    GetElsewhere(c, 28, Enc32(sectors), 4);
    forall i: nat | i < 15 ensures Ptr(NewInode(size, sectors), i) == 0 {
      GetElsewhere(Zeros(INODE), 0, Enc16(REGULAR), 40 + 4 * i);
      GetElsewhere(a, 4, Enc32(size), 40 + 4 * i);
      GetElsewhere(b, 26, Enc16(1), 40 + 4 * i);
      GetElsewhere(c, 28, Enc32(sectors), 40 + 4 * i);
    }
  }

  /** The first 40 bytes of a file's inode: mode, size, one link and the sectors taken; no owner,
      no times, no flags. */
  function FileHead(size: u32, sectors: u32): Bytes {
    Enc16(0x81A4) + Zeros(2) + Enc32(size) + Zeros(18) + Enc16(1) + Enc32(sectors) + Zeros(8)
  }

  lemma NewInodeHead(size: u32, sectors: u32)
    ensures NewInode(size, sectors)[..40] == FileHead(size, sectors)
  {
    var a := Put(Zeros(INODE), 0, Enc16(REGULAR));
    var b := Put(a, 4, Enc32(size));
    var c := Put(b, 26, Enc16(1));
    PutPrefix(Zeros(INODE), 0, Enc16(REGULAR), 4);
    ZeroPart(INODE, 2, 4);
    PutPrefix(a, 4, Enc32(size), 26);
    PutElsewhere(Zeros(INODE), 0, Enc16(REGULAR), 8, 18);
    ZeroPart(INODE, 8, 26);
    PutPrefix(b, 26, Enc16(1), 28);
    PutElsewhere(Zeros(INODE), 0, Enc16(REGULAR), 32, 8);
    PutElsewhere(a, 4, Enc32(size), 32, 8);
    PutElsewhere(b, 26, Enc16(1), 32, 8);
    ZeroPart(INODE, 32, 40);
    PutPrefix(c, 28, Enc32(sectors), 40);
  }

  lemma PutPrefix(b: Bytes, off: nat, data: Bytes, n: nat)
    requires off + |data| <= n <= |b|
    ensures Put(b, off, data)[..n] == b[..off] + data + b[off + |data|..n]
  {
  }

  lemma ZeroPart(n: nat, lo: nat, hi: nat)
    requires lo <= hi <= n
    ensures Zeros(n)[lo..hi] == Zeros(hi - lo)
  {
  }

  /** Block `x` belongs to files and holds `b`. */
  ghost predicate Holds(g: Geo, d: Disk, x: nat, b: Bytes)
    requires OnDisk(g, d)
  {
    0 < x && Safe(g, d, x) && d[x] == b
  }

  /** The first `n` pointers of the inode are blocks taken since `v`, which hold the first
      `n` chunks; the others are zero. */
  ghost predicate Written(g: Geo, v: Vol, w: Vol, ino: Bytes, size: u32, cs: seq<Bytes>, n: nat) {
    && Keeps(g, v, w) && |ino| == INODE && FileSize(ino) == size && n <= |cs| && n <= DIRECT
    && (forall i: nat :: i < n ==> Holds(g, w.d, Ptr(ino, i), cs[i]))
    && (forall i: nat :: n <= i < 15 ==> Ptr(ino, i) == 0)
  }

  lemma PtrPut(ino: Bytes, n: nat, x: u32)
    requires |ino| == INODE && n < 15
    ensures var r := Put(ino, 40 + 4 * n, Enc32(x));
            && FileSize(r) == FileSize(ino)
            && forall i: nat :: i < 15 ==> Ptr(r, i) == if i == n then x else Ptr(ino, i)
  {
    PutGet32(ino, 40 + 4 * n, x);
  }

  /** The volume after block `k` of the group was taken and `b` written to it. */
  function BlockFilled(g: Geo, w: Vol, k: nat, b: Bytes): (u: Vol)
    requires Shape(g, w) && k < g.bpg && g.sblk + k < |w.d| && |b| == g.bs
    ensures |u.d| == |w.d| && Shape(g, u)
  {
    var u := BlockTaken(g, w, k);
    u.(d := u.d[g.sblk + k := b])
  }

  lemma BlockFilledKeeps(g: Geo, v: Vol, w: Vol, k: nat, b: Bytes)
    requires Keeps(g, v, w) && k < g.bpg && !Bit(w.d[g.bb], k) && |b| == g.bs
    ensures g.sblk + k < |w.d|
    ensures var u, x := BlockFilled(g, w, k, b), g.sblk + k;
            && Keeps(g, v, u) && Holds(g, u.d, x, b)
            && (forall y: nat, c: Bytes :: Holds(g, w.d, y, c) ==> Holds(g, u.d, y, c))
            && u.d[g.bb] == SetBit(w.d[g.bb], k) && u.d[g.ib] == w.d[g.ib]
  {
    BlockTakenKeeps(g, w, k);
    Unmarked(g, w, k);
    var x, u := g.sblk + k, BlockTaken(g, w, k);
    KeepsTrans(g, v, w, u);
    WriteKeeps(g, v, u, x, b);
    WriteKeeps(g, w, u, x, b);
  }

  /** One more block. */
  lemma WrittenNext(g: Geo, v: Vol, w: Vol, ino: Bytes, size: u32, cs: seq<Bytes>, n: nat, k: nat)
    requires Written(g, v, w, ino, size, cs, n) && n < |cs| && n < DIRECT && |cs[n]| == g.bs
    requires k < g.bpg && !Bit(w.d[g.bb], k)
    ensures g.sblk + k < |w.d|
    ensures Written(g, v, BlockFilled(g, w, k, cs[n]), Put(ino, 40 + 4 * n, Enc32(g.sblk + k)), size, cs, n + 1)
  {
    BlockFilledKeeps(g, v, w, k, cs[n]);
    PtrPut(ino, n, g.sblk + k);
  }

  /** The finished inode reads as the data, if it has all its chunks. */
  lemma WrittenReads(g: Geo, v: Vol, w: Vol, ino: Bytes, data: Bytes)
    requires OnDisk(g, w.d) && |data| < TWO32 && Written(g, v, w, ino, |data|, Chunks(data, g.bs), |Chunks(data, g.bs)|)
    ensures Whole(Mapped(w.d, g.bs, ino), g.bs, |data|) == data
  {
    var bl, cs := Mapped(w.d, g.bs, ino), Chunks(data, g.bs);
    forall j | 0 <= j < |cs| ensures bl[0 + j] == Some(cs[j]) {
      assert bl[j] == BlockAt(w.d, g.bs, ino, j) == Fetch(w.d, Ptr(ino, j));
    }
    ChunksRead(bl, g.bs, 0, data);
  }

  /** And reads as nothing if it has no block at all. */
  lemma NothingReads(g: Geo, w: Vol, ino: Bytes, size: nat)
    requires OnDisk(g, w.d) && |ino| == INODE && Ptr(ino, 0) == 0
    ensures Whole(Mapped(w.d, g.bs, ino), g.bs, size) == []
  {
    assert !Present(Mapped(w.d, g.bs, ino), 0);
  }

  lemma WrittenSafe(g: Geo, v: Vol, w: Vol, ino: Bytes, size: u32, cs: seq<Bytes>, n: nat)
    requires Written(g, v, w, ino, size, cs, n)
    ensures FileSafe(g, w.d, ino)
  {
  }

  // ---- the directory entry ----

  /** The volume with a new root directory block. */
  function Rooted(g: Geo, w: Vol, b: Bytes): (u: Vol)
    requires OnDisk(g, w.d) && |b| == g.bs
    ensures OnDisk(g, u.d) && |u.d| == |w.d|
  {
    w.(d := w.d[g.root := b])
  }

  lemma RootedSound(g: Geo, w: Vol, b: Bytes)
    requires Sound(g, w) && |b| == g.bs && Tiles(b, 0)
    ensures Sound(g, Rooted(g, w, b)) && Rooted(g, w, b).d[g.ib] == w.d[g.ib] && Rooted(g, w, b).d[g.bb] == w.d[g.bb]
    ensures forall n: nat :: 0 < n <= g.ipg ==> Inode(g, Rooted(g, w, b).d, n) == Inode(g, w.d, n)
  {
    assert LookAtLayout(0);
    var u := Rooted(g, w, b);
    RecordedFrame(g, w, u);
    MarksFrame(g, w.d, u.d);
    InodesFrame(g, w.d, u.d);
    RootFrame(g, w.d, u.d);
  }

  lemma RootedFrame(g: Geo, w: Vol, b: Bytes)
    requires Sound(g, w) && |b| == g.bs && Tiles(b, 0)
    ensures Sound(g, Rooted(g, w, b))
    ensures forall n: nat :: InodeOk(g, w.d, n) ==> InodeOk(g, Rooted(g, w, b).d, n) && SameContent(g, w.d, Rooted(g, w, b).d, n)
  {
    var u := Rooted(g, w, b);
    RootedSound(g, w, b);
    forall n: nat | InodeOk(g, w.d, n) ensures InodeOk(g, u.d, n) && SameContent(g, w.d, u.d, n) {
      MappedFrame(g, w.d, u.d, Inode(g, w.d, n));
      FileSafeFrame(g, w.d, u.d, Inode(g, w.d, n));
    }
  }

  lemma InsertedIn(es: seq<Entry>, k: nat, x: Entry, e: Entry)
    requires k < |es| && e in Inserted(es, k, x)
    ensures e in es || e == x
  {
  }

  lemma RootedConsistent(g: Geo, w: Vol, b: Bytes, k: nat, x: Entry)
    requires Consistent(g, w) && InodeOk(g, w.d, x.ino) && |b| == g.bs && Tiles(b, 0)
    requires k < |Listing(g, w.d)| && Entries(b, 0) == Inserted(Listing(g, w.d), k, x)
    ensures Consistent(g, Rooted(g, w, b)) && SameContent(g, w.d, Rooted(g, w, b).d, x.ino)
  {
    var u := Rooted(g, w, b);
    RootedFrame(g, w, b);
    forall e | e in Listing(g, u.d) && e.ino != 0 && e.ino != ROOT_INODE ensures InodeOk(g, u.d, e.ino) {
      InsertedIn(Listing(g, w.d), k, x, e);
    }
  }

  /** Entering a sound inode in the directory keeps the volume consistent. The new name is
      found exactly if it has at most 255 bytes; no name but what is kept of it is affected. */
  lemma Linked(g: Geo, w: Vol, name: Bytes, n: u32, b: Bytes)
    requires Consistent(g, w) && InodeOk(g, w.d, n) && Lookup(Listing(g, w.d), name) == None
    requires Inserts(w.d[g.root], name, n, b)
    ensures |b| == g.bs && Consistent(g, Rooted(g, w, b)) && SameContent(g, w.d, Rooted(g, w, b).d, n)
    ensures NameEntered(Listing(g, w.d), Earlier(w.d[g.root], name), Listing(g, Rooted(g, w, b).d), name, n)
    ensures SameFiles(g, w.d, Rooted(g, w, b).d, Some(Kept(name)))
  {
    InsertTheorem(w.d[g.root], name, n, b);
    var k := InsertList(w.d[g.root], name, n, b);
    RootedConsistent(g, w, b, k, Entry(n, Kept(name), REG_FILE));
    RootedSame(g, w, b, Kept(name));
  }

  lemma RootedSame(g: Geo, w: Vol, b: Bytes, name: Bytes)
    requires Consistent(g, w) && |b| == g.bs && Tiles(b, 0)
    requires forall m: Bytes :: m != name ==> Lookup(Entries(b, 0), m) == Lookup(Entries(w.d[g.root], 0), m)
    ensures SameFiles(g, w.d, Rooted(g, w, b).d, Some(name))
  {
    RootedFrame(g, w, b);
    forall m: Bytes | IsFile(Listing(g, w.d), m)
      ensures SameContent(g, w.d, Rooted(g, w, b).d, Lookup(Listing(g, w.d), m).value)
    {
      FileIsOk(g, w.d, m);
    }
  }
}
