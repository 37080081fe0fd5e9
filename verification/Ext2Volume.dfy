/** A one-group ext2 volume: where its metadata lies and when it is consistent. */
module Ext2Volume {
  import opened Words
  import opened LittleEndian
  import opened Ext2Bits
  import opened Ext2Dirents
  import opened Ext2Ranges
  import opened Ext2File

  const SUPER := 90
  const SUPER_AREA := 1024
  const ROOT_INODE := 2

  /** Block and inode size; the block and byte of the superblock; the blocks of the group
      descriptor, the bitmaps, the inode table and the root directory; the numbers of blocks
      and inodes in the group. */
  datatype Geo = Geo(bs: nat, isz: nat, sblk: nat, soff: nat, bgd: nat, bb: nat, ib: nat,
                     table: nat, tlen: nat, root: nat, bpg: nat, ipg: nat) {
    predicate InTable(x: nat) {
      table <= x < table + tlen
    }

    /** The blocks that hold metadata. */
    predicate Meta(x: nat) {
      x == sblk || x == bgd || x == bb || x == ib || x == root || InTable(x)
    }

    /** The metadata lies in different blocks. */
    predicate Apart() {
      && sblk != bgd && sblk != bb && sblk != ib && sblk != root
      && bgd != bb && bgd != ib && bgd != root && bb != ib && bb != root && ib != root
      && !InTable(sblk) && !InTable(bgd) && !InTable(bb) && !InTable(ib) && !InTable(root)
    }

    /** The superblock lies at byte 1024, and the descriptors in the block after it. */
    predicate Standard() {
      && (bs == 1024 || bs == 2048 || bs == 4096)
      && sblk == 1024 / bs && soff == 1024 % bs && bgd == sblk + 1
      && isz >= INODE && bs % isz == 0 && ipg * isz <= tlen * bs
    }
  }

  /** The cached superblock and the blocks of the disk. */
  datatype Vol = Vol(sb: Bytes, d: Disk)

  /* The predicates hidden behind a quantifier below are each unfolded where the matching `LookAt` is asserted. */
  predicate LookAtGeo(k: int) {
    true
  }

  predicate LookAtLayout(k: int) {
    true
  }

  predicate LookAtFields(k: int) {
    true
  }

  predicate LookAtCounts(k: int) {
    true
  }

  predicate LookAtMarks(k: int) {
    true
  }

  predicate LookAtRoot(k: int) {
    true
  }

  ghost predicate Geometry(g: Geo, blocks: nat) {
    && g.bs >= 1024 && g.soff + SUPER_AREA <= g.bs && g.isz >= INODE
    && g.sblk < blocks && g.bgd < blocks && g.bb < blocks && g.ib < blocks && 0 < g.root < blocks
    && g.table + g.tlen <= blocks < TWO32
    && 0 < g.bpg <= 8 * g.bs && ROOT_INODE <= g.ipg <= 8 * g.bs
    && (forall k: int :: LookAtGeo(k) ==> g.Standard())
    && (forall k: int :: LookAtLayout(k) ==> g.Apart())
  }

  ghost predicate OnDisk(g: Geo, d: Disk) {
    Blocks(d, g.bs) && Geometry(g, |d|)
  }

  ghost predicate Shape(g: Geo, v: Vol) {
    |v.sb| == SUPER && OnDisk(g, v.d)
  }

  /** The volume's own record of its geometry: the superblock, in memory and on disk, and the
      group descriptor. */
  predicate FieldsIn(g: Geo, sb: Bytes, bgd: Bytes, sblk: Bytes)
    requires |sb| == SUPER && |bgd| >= 32 && g.soff + SUPER <= |sblk|
  {
    && Get32(sb, 20) == g.sblk && Get32(sb, 32) == g.bpg && Get32(sb, 40) == g.ipg
    && Get32(bgd, 0) == g.bb && Get32(bgd, 4) == g.ib && Get32(bgd, 8) == g.table
    && sblk[g.soff..g.soff + SUPER] == sb
  }

  ghost predicate Fields(g: Geo, v: Vol)
    requires Shape(g, v)
  {
    FieldsIn(g, v.sb, v.d[g.bgd], v.d[g.sblk])
  }

  /** Both records of free blocks and of free inodes are the numbers of clear bits. */
  ghost predicate CountsIn(sb: Bytes, bgd: Bytes, blocks: nat, inodes: nat)
    requires |sb| == SUPER && |bgd| >= 32
  {
    Get16(bgd, 12) == blocks == Get32(sb, 12) && Get16(bgd, 14) == inodes == Get32(sb, 16)
  }

  ghost predicate Counts(g: Geo, v: Vol)
    requires Shape(g, v)
  {
    CountsIn(v.sb, v.d[g.bgd], ClearBits(v.d[g.bb], g.bpg), ClearBits(v.d[g.ib], g.ipg))
  }

  ghost predicate Recorded(g: Geo, v: Vol)
    requires Shape(g, v)
  {
    && (forall k: int :: LookAtFields(k) ==> Fields(g, v))
    && (forall k: int :: LookAtCounts(k) ==> Counts(g, v))
  }

  /** Block `x` is outside the group or marked as taken. Blocks count from the superblock's. */
  ghost predicate Marked(g: Geo, bits: Bytes, x: nat)
    requires g.bpg <= 8 * |bits|
  {
    g.sblk <= x < g.sblk + g.bpg ==> Bit(bits, x - g.sblk)
  }

  ghost predicate MarksTrue(g: Geo, bits: Bytes, blocks: nat)
    requires g.bpg <= 8 * |bits|
  {
    && (forall x: nat :: g.Meta(x) ==> Marked(g, bits, x))
    && (forall x: nat :: !Marked(g, bits, x) ==> x < blocks)
  }

  /** Metadata is marked, and what is not marked exists. */
  ghost predicate Marks(g: Geo, d: Disk)
    requires OnDisk(g, d)
  {
    forall k: int :: LookAtMarks(k) ==> MarksTrue(g, d[g.bb], |d|)
  }

  // ---- inodes ----

  /** Block of the table and byte in it where inode `n` is stored: one after another, and
      none across blocks. */
  function Place(g: Geo, n: nat): (p: (nat, nat))
    requires n > 0 && g.isz <= g.bs
    ensures p.1 + g.isz <= g.bs
  {
    if n == 1 then (0, 0)
    else
      var q := Place(g, n - 1);
      if q.1 + 2 * g.isz <= g.bs then (q.0, q.1 + g.isz) else (q.0 + 1, 0)
  }

  lemma {:induction false} PlaceIs(g: Geo, n: nat)
    requires n > 0 && 0 < g.isz <= g.bs && g.bs % g.isz == 0
    ensures Place(g, n).0 * g.bs + Place(g, n).1 == (n - 1) * g.isz && Place(g, n).1 % g.isz == 0
  {
    if n > 1 {
      PlaceIs(g, n - 1);
      PlaceNext(Place(g, n - 1).0, Place(g, n - 1).1, Place(g, n).0, Place(g, n).1, g.bs, g.isz, n);
    } else {
      assert 0 * g.bs == 0 && 0 * g.isz == 0;
    }
  }

  lemma PlaceNext(b: nat, o: nat, b': nat, o': nat, bs: nat, isz: nat, n: nat)
    requires n > 1 && 0 < isz && o % isz == 0 && bs % isz == 0 && o + isz <= bs && b * bs + o == (n - 2) * isz
    requires if o + 2 * isz <= bs then b' == b && o' == o + isz else b' == b + 1 && o' == 0
    ensures b' * bs + o' == (n - 1) * isz && o' % isz == 0
  {
    PlaceStep(b, o, bs, isz);
    assert (n - 1) * isz == (n - 2) * isz + isz;
    if o + 2 * isz <= bs {
      assert b' * bs == b * bs;
    } else {
      assert b' * bs == b * bs + bs;
    }
  }

  /** In a block of whole inodes there is room for another, or the block is full. */
  lemma PlaceStep(b: nat, o: nat, bs: nat, isz: nat)
    requires 0 < isz && o % isz == 0 && bs % isz == 0 && o + isz <= bs
    ensures o + 2 * isz <= bs || o + isz == bs
    ensures (o + isz) % isz == 0 && b * bs + bs == (b + 1) * bs
  {
    var m, t := bs / isz, o / isz;
    assert bs == m * isz && o == t * isz;
    assert (t + 1) * isz == o + isz;
    if t + 1 < m {
      BlocksApart(t + 1, m, isz);
    } else if m < t + 1 {
      BlocksApart(m, t + 1, isz);
    }
    AddMultiple(t, isz);
  }

  lemma AddMultiple(t: nat, isz: nat)
    requires isz > 0
    ensures (t * isz + isz) % isz == 0
  {
    var x := t * isz + isz;
    assert x == (t + 1) * isz;
    DivParts(x, isz);
    var q := x / isz;
    if q < t + 1 {
      BlocksApart(q, t + 1, isz);
    }
    if t + 1 < q {
      BlocksApart(t + 1, q, isz);
    }
  }

  lemma {:induction false} PlacesApart(g: Geo, m: nat, n: nat)
    requires 0 < m < n && g.isz <= g.bs
    ensures Place(g, m).0 <= Place(g, n).0
    ensures Place(g, m).0 == Place(g, n).0 ==> Place(g, m).1 + g.isz <= Place(g, n).1
    decreases n
  {
    if m < n - 1 {
      PlacesApart(g, m, n - 1);
    }
  }

  lemma InoInRange(g: Geo, blocks: nat, n: nat)
    requires Geometry(g, blocks) && 0 < n <= g.ipg
    ensures g.isz <= g.bs && Place(g, n).0 < g.tlen
  {
    assert LookAtGeo(0);
    IszFits(g.bs, g.isz);
    PlaceIs(g, n);
    BlocksApart(n - 1, g.ipg, g.isz);
    if g.tlen <= Place(g, n).0 {
      Monotone(g.tlen, Place(g, n).0, g.bs);
    }
  }

  lemma IszFits(bs: nat, isz: nat)
    requires 0 < bs && 0 < isz && bs % isz == 0
    ensures isz <= bs
  {
  }

  function Inode(g: Geo, d: Disk, n: nat): (ino: Bytes)
    requires OnDisk(g, d) && 0 < n <= g.ipg
    ensures |ino| == INODE
  {
    InoInRange(g, |d|, n);
    var p := Place(g, n);
    d[g.table + p.0][p.1..p.1 + INODE]
  }

  function InodeStored(g: Geo, d: Disk, n: nat, ino: Bytes): (r: Disk)
    requires OnDisk(g, d) && 0 < n <= g.ipg && |ino| == INODE
    ensures |r| == |d| && Blocks(r, g.bs)
    ensures forall x: nat :: x < |d| && !g.InTable(x) ==> r[x] == d[x]
  {
    InoInRange(g, |d|, n);
    var p := Place(g, n);
    assert g.InTable(g.table + p.0);
    d[g.table + p.0 := Put(d[g.table + p.0], p.1, ino)]
  }

  /** A stored inode reads back, and every other inode is as before. */
  lemma InodeStoredReads(g: Geo, d: Disk, n: nat, ino: Bytes, m: nat)
    requires OnDisk(g, d) && 0 < n <= g.ipg && |ino| == INODE && 0 < m <= g.ipg
    ensures Inode(g, InodeStored(g, d, n, ino), m) == if m == n then ino else Inode(g, d, m)
  {
    InoInRange(g, |d|, m);
    InoInRange(g, |d|, n);
    var p, q := Place(g, n), Place(g, m);
    if m < n {
      PlacesApart(g, m, n);
    } else if n < m {
      PlacesApart(g, n, m);
    }
    if m != n && p.0 == q.0 {
      PutElsewhere(d[g.table + p.0], p.1, ino, q.1, INODE);
    }
  }

  /** An inode of a table whose blocks are the same is the same. */
  lemma InodeFrame(g: Geo, d: Disk, d': Disk, n: nat)
    requires OnDisk(g, d) && Blocks(d', g.bs) && |d'| == |d| && 0 < n <= g.ipg
    requires forall x: nat :: g.InTable(x) ==> d'[x] == d[x]
    ensures Inode(g, d', n) == Inode(g, d, n)
  {
    InoInRange(g, |d|, n);
    assert g.InTable(g.table + Place(g, n).0);
  }

  lemma InodesFrame(g: Geo, d: Disk, d': Disk)
    requires OnDisk(g, d) && Blocks(d', g.bs) && |d'| == |d|
    requires forall x: nat :: g.InTable(x) ==> d'[x] == d[x]
    ensures forall n: nat :: 0 < n <= g.ipg ==> Inode(g, d', n) == Inode(g, d, n)
  {
    forall n: nat | 0 < n <= g.ipg ensures Inode(g, d', n) == Inode(g, d, n) {
      InodeFrame(g, d, d', n);
    }
  }

  // ---- files ----

  /** A block that belongs to files: it exists, holds no metadata and is marked. */
  ghost predicate Safe(g: Geo, d: Disk, x: nat)
    requires OnDisk(g, d)
  {
    x < |d| && !g.Meta(x) && Marked(g, d[g.bb], x)
  }

  /** Every block an inode points to belongs to files. */
  ghost predicate FileSafe(g: Geo, d: Disk, ino: Bytes)
    requires OnDisk(g, d) && |ino| == INODE
  {
    && (forall i :: 0 <= i <= DIRECT ==> Ptr(ino, i) == 0 || Safe(g, d, Ptr(ino, i)))
    && (Ptr(ino, DIRECT) != 0 ==>
          forall k :: 0 <= k < g.bs / 4 ==>
            PtrIn(d[Ptr(ino, DIRECT)], k) == 0 || Safe(g, d, PtrIn(d[Ptr(ino, DIRECT)], k)))
  }

  /** A file all of whose blocks are as before maps to what it did. */
  lemma MappedFrame(g: Geo, d: Disk, d': Disk, ino: Bytes)
    requires OnDisk(g, d) && Blocks(d', g.bs) && |d'| == |d| && |ino| == INODE
    requires FileSafe(g, d, ino) && forall x: nat :: Safe(g, d, x) ==> d'[x] == d[x]
    ensures Mapped(d', g.bs, ino) == Mapped(d, g.bs, ino)
  {
    forall i | 0 <= i < DIRECT + g.bs / 4 ensures BlockAt(d', g.bs, ino, i) == BlockAt(d, g.bs, ino, i) {
      if i >= DIRECT && Fetch(d, Ptr(ino, DIRECT)).Some? {
        assert Safe(g, d, Ptr(ino, DIRECT));
        var t := d[Ptr(ino, DIRECT)];
        assert PtrIn(t, i - DIRECT) == 0 || Safe(g, d, PtrIn(t, i - DIRECT));
      }
    }
  }

  /** And stays safe where no block for files is lost. */
  lemma FileSafeFrame(g: Geo, d: Disk, d': Disk, ino: Bytes)
    requires OnDisk(g, d) && Blocks(d', g.bs) && |d'| == |d| && |ino| == INODE && FileSafe(g, d, ino)
    requires forall x: nat :: Safe(g, d, x) ==> d'[x] == d[x] && Safe(g, d', x)
    ensures FileSafe(g, d', ino)
  {
    if Ptr(ino, DIRECT) != 0 {
      assert Safe(g, d, Ptr(ino, DIRECT));
    }
  }

  /** Inode `n` exists and is marked as taken. */
  ghost predicate InUse(g: Geo, d: Disk, n: nat)
    requires OnDisk(g, d)
  {
    0 < n <= g.ipg && Bit(d[g.ib], n - 1)
  }

  ghost predicate InodeOk(g: Geo, d: Disk, n: nat)
    requires OnDisk(g, d)
  {
    InUse(g, d, n) && FileSafe(g, d, Inode(g, d, n))
  }

  /** The root directory is one block of records, and so says its inode. */
  ghost predicate RootOk(g: Geo, d: Disk)
    requires OnDisk(g, d)
  {
    && InUse(g, d, ROOT_INODE) && Tiles(d[g.root], 0)
    && forall k: int :: LookAtRoot(k) ==>
         var ino := Inode(g, d, ROOT_INODE); FileSize(ino) == g.bs && Ptr(ino, 0) == g.root
  }

  ghost predicate Sound(g: Geo, v: Vol) {
    Shape(g, v) && Recorded(g, v) && Marks(g, v.d) && RootOk(g, v.d)
  }

  /** The directory, from the root block. */
  function Listing(g: Geo, d: Disk): seq<Entry>
    requires OnDisk(g, d) && Tiles(d[g.root], 0)
  {
    Entries(d[g.root], 0)
  }

  /** Every name but those of the root directory itself leads to a sound inode. */
  ghost predicate FilesOk(g: Geo, d: Disk)
    requires OnDisk(g, d) && Tiles(d[g.root], 0)
  {
    forall e :: e in Listing(g, d) && e.ino != 0 && e.ino != ROOT_INODE ==> InodeOk(g, d, e.ino)
  }

  ghost predicate Consistent(g: Geo, v: Vol) {
    Sound(g, v) && FilesOk(g, v.d)
  }

  /** All that can be read of inode `n`. */
  function Content(g: Geo, d: Disk, n: nat): Bytes
    requires OnDisk(g, d) && 0 < n <= g.ipg
  {
    Whole(Mapped(d, g.bs, Inode(g, d, n)), g.bs, FileSize(Inode(g, d, n)))
  }
}
