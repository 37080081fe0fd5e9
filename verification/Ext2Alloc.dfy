/** Taking a block or an inode from its bitmap: what the volume is afterwards. */
module Ext2Alloc {
  import opened Words
  import opened LittleEndian
  import opened Ext2Bits
  import opened Ext2Dirents
  import opened Ext2Ranges
  import opened Ext2File
  import opened Ext2Volume

  /** A 16-bit decrement. */
  function Less16(x: u16): u16 {
    if x == 0 then 0xFFFF else x - 1
  }

  /** One off a 16-bit count of the group descriptor. */
  function GroupLess(b: Bytes, off: nat): (r: Bytes)
    requires off + 2 <= |b|
    ensures |r| == |b|
  {
    Put(b, off, Enc16(Less16(Get16(b, off))))
  }

  /** One off a 32-bit count of the superblock. */
  function SuperLess(sb: Bytes, off: nat): (r: Bytes)
    requires off + 4 <= |sb|
    ensures |r| == |sb|
  {
    Put(sb, off, Enc32(WrapSub(Get32(sb, off), 1)))
  }

  /** The superblock's block after the superblock is written: the rest of its area is zero. */
  function WithSuper(b: Bytes, at: nat, sb: Bytes): (r: Bytes)
    requires |sb| == SUPER && at + SUPER_AREA <= |b|
    ensures |r| == |b|
  {
    Put(b, at, sb + Zeros(SUPER_AREA - SUPER))
  }

  lemma WithSuperReads(b: Bytes, at: nat, sb: Bytes)
    requires |sb| == SUPER && at + SUPER_AREA <= |b|
    ensures WithSuper(b, at, sb)[at..at + SUPER] == sb
  {
    var area := sb + Zeros(SUPER_AREA - SUPER);
    SubSlice(WithSuper(b, at, sb), at, at + SUPER_AREA, 0, SUPER);
    assert area[0..SUPER] == sb;
  }

  /** Writing the superblock clears the rest of its area, bytes 90 to 1023: the fields after the
      inode size are lost, and nothing outside the area changes. */
  lemma WithSuperExactly(b: Bytes, at: nat, sb: Bytes, i: nat)
    requires |sb| == SUPER && at + SUPER_AREA <= |b| && i < |b|
    ensures WithSuper(b, at, sb)[i]
            == if at <= i < at + SUPER then sb[i - at] else if at + SUPER <= i < at + SUPER_AREA then 0 else b[i]
  {
    var area := sb + Zeros(SUPER_AREA - SUPER);
    var r := WithSuper(b, at, sb);
    if at <= i < at + SUPER_AREA {
      assert r[i] == r[at..at + SUPER_AREA][i - at] == area[i - at];
    } else {
      SameBytes(b, at, area, i);
    }
  }

  /** So the block is left as it was exactly if it held that superblock and nothing after it. */
  lemma WithSuperKeeps(b: Bytes, at: nat, sb: Bytes)
    requires |sb| == SUPER && at + SUPER_AREA <= |b|
    ensures WithSuper(b, at, sb) == b <==>
            b[at..at + SUPER] == sb && forall i :: at + SUPER <= i < at + SUPER_AREA ==> b[i] == 0
  {
    var r := WithSuper(b, at, sb);
    forall i | 0 <= i < |b|
      ensures r[i] == if at <= i < at + SUPER then sb[i - at] else if at + SUPER <= i < at + SUPER_AREA then 0 else b[i]
    {
      WithSuperExactly(b, at, sb, i);
    }
    if b[at..at + SUPER] == sb && forall i :: at + SUPER <= i < at + SUPER_AREA ==> b[i] == 0 {
      forall i | at <= i < at + SUPER ensures r[i] == b[i] {
        assert b[at..at + SUPER][i - at] == sb[i - at];
      }
      assert r == b;
    } else if r == b {
      WithSuperReads(b, at, sb);
    }
  }

  lemma GroupLessFields(b: Bytes, off: nat)
    requires 32 <= |b| && (off == 12 || off == 14) && Get16(b, off) > 0
    ensures var r := GroupLess(b, off);
            && Get16(r, off) == Get16(b, off) - 1 && Get16(r, 26 - off) == Get16(b, 26 - off)
            && Get32(r, 0) == Get32(b, 0) && Get32(r, 4) == Get32(b, 4) && Get32(r, 8) == Get32(b, 8)
  {
    var data := Enc16(Less16(Get16(b, off)));
    Enc16Get(GroupLess(b, off), off, Get16(b, off) - 1);
    GetElsewhere(b, off, data, 0);
    GetElsewhere(b, off, data, 4);
    GetElsewhere(b, off, data, 8);
    GetElsewhere(b, off, data, 26 - off);
  }

  lemma SuperLessFields(sb: Bytes, off: nat)
    requires |sb| == SUPER && (off == 12 || off == 16) && Get32(sb, off) > 0
    ensures var r := SuperLess(sb, off);
            && Get32(r, off) == Get32(sb, off) - 1 && Get32(r, 28 - off) == Get32(sb, 28 - off)
            && Get32(r, 20) == Get32(sb, 20) && Get32(r, 32) == Get32(sb, 32) && Get32(r, 40) == Get32(sb, 40)
  {
    var v := WrapSub(Get32(sb, off), 1);
    Enc32Get(SuperLess(sb, off), off, v);
    GetElsewhere(sb, off, Enc32(v), 28 - off);
    GetElsewhere(sb, off, Enc32(v), 20);
    GetElsewhere(sb, off, Enc32(v), 32);
    GetElsewhere(sb, off, Enc32(v), 40);
  }

  // ---- the counts ----

  /** Both counts at `goff` and `soff` lowered and the superblock written out. */
  function Lowered(g: Geo, v: Vol, goff: nat, soff: nat): (r: Vol)
    requires Shape(g, v) && goff + 2 <= 32 && soff + 4 <= SUPER
    ensures |r.d| == |v.d| && Shape(g, r)
    ensures forall x: nat :: x < |v.d| && x != g.bgd && x != g.sblk ==> r.d[x] == v.d[x]
  {
    var sb := SuperLess(v.sb, soff);
    Vol(sb, v.d[g.bgd := GroupLess(v.d[g.bgd], goff)][g.sblk := WithSuper(v.d[g.sblk], g.soff, sb)])
  }

  lemma LoweredDisk(g: Geo, v: Vol, goff: nat, soff: nat)
    requires Shape(g, v) && goff + 2 <= 32 && soff + 4 <= SUPER
    ensures var r := Lowered(g, v, goff, soff);
            && r.sb == SuperLess(v.sb, soff) && r.d[g.bgd] == GroupLess(v.d[g.bgd], goff)
            && r.d[g.sblk] == WithSuper(v.d[g.sblk], g.soff, SuperLess(v.sb, soff))
            && r.d[g.bb] == v.d[g.bb] && r.d[g.ib] == v.d[g.ib]
  {
    assert LookAtLayout(0);
  }

  lemma LoweredFields(g: Geo, v: Vol, goff: nat, soff: nat)
    requires (goff == 12 && soff == 12) || (goff == 14 && soff == 16)
    requires Shape(g, v) && Fields(g, v) && Get16(v.d[g.bgd], goff) > 0 && Get32(v.sb, soff) > 0
    ensures Fields(g, Lowered(g, v, goff, soff))
  {
    LoweredDisk(g, v, goff, soff);
    GroupLessFields(v.d[g.bgd], goff);
    SuperLessFields(v.sb, soff);
    WithSuperReads(v.d[g.sblk], g.soff, SuperLess(v.sb, soff));
  }

  lemma CountsLowered(sb: Bytes, bgd: Bytes, blocks: nat, inodes: nat)
    requires |sb| == SUPER && |bgd| >= 32 && CountsIn(sb, bgd, blocks, inodes)
    ensures blocks > 0 ==> CountsIn(SuperLess(sb, 12), GroupLess(bgd, 12), blocks - 1, inodes)
    ensures inodes > 0 ==> CountsIn(SuperLess(sb, 16), GroupLess(bgd, 14), blocks, inodes - 1)
  {
    if blocks > 0 {
      GroupLessFields(bgd, 12);
      SuperLessFields(sb, 12);
    }
    if inodes > 0 {
      GroupLessFields(bgd, 14);
      SuperLessFields(sb, 16);
    }
  }

  /** `u` is `v` with one more block taken, and the counts lowered to match. */
  lemma LoweredBlocks(g: Geo, v: Vol, u: Vol)
    requires Shape(g, v) && Counts(g, v) && Shape(g, u) && u.sb == v.sb
    requires u.d[g.bgd] == v.d[g.bgd] && u.d[g.ib] == v.d[g.ib]
    requires ClearBits(u.d[g.bb], g.bpg) == ClearBits(v.d[g.bb], g.bpg) - 1
    ensures Counts(g, Lowered(g, u, 12, 12))
  {
    LoweredDisk(g, u, 12, 12);
    CountsLowered(v.sb, v.d[g.bgd], ClearBits(v.d[g.bb], g.bpg), ClearBits(v.d[g.ib], g.ipg));
  }

  /** The same with one more inode. */
  lemma LoweredInodes(g: Geo, v: Vol, u: Vol)
    requires Shape(g, v) && Counts(g, v) && Shape(g, u) && u.sb == v.sb
    requires u.d[g.bgd] == v.d[g.bgd] && u.d[g.bb] == v.d[g.bb]
    requires ClearBits(u.d[g.ib], g.ipg) == ClearBits(v.d[g.ib], g.ipg) - 1
    ensures Counts(g, Lowered(g, u, 14, 16))
  {
    LoweredDisk(g, u, 14, 16);
    CountsLowered(v.sb, v.d[g.bgd], ClearBits(v.d[g.bb], g.bpg), ClearBits(v.d[g.ib], g.ipg));
  }

  /** Taking a bit of either bitmap and lowering its counts keeps the record true. */
  lemma RecordedAfterBlock(g: Geo, v: Vol, k: nat)
    requires Shape(g, v) && Recorded(g, v) && k < g.bpg && !Bit(v.d[g.bb], k)
    ensures Recorded(g, Lowered(g, v.(d := v.d[g.bb := SetBit(v.d[g.bb], k)]), 12, 12))
    ensures ClearBits(SetBit(v.d[g.bb], k), g.bpg) == ClearBits(v.d[g.bb], g.bpg) - 1
  {
    assert LookAtLayout(0);
    var u := v.(d := v.d[g.bb := SetBit(v.d[g.bb], k)]);
    assert LookAtCounts(0);
    ClearBitsNone(v.d[g.bb], g.bpg);
    ClearBitsSet(v.d[g.bb], g.bpg, k);
    LoweredBlocks(g, v, u);
    FieldsKept(g, v, u, 12, 12);
  }

  lemma RecordedAfterInode(g: Geo, v: Vol, k: nat)
    requires Shape(g, v) && Recorded(g, v) && k < g.ipg && !Bit(v.d[g.ib], k)
    ensures Recorded(g, Lowered(g, v.(d := v.d[g.ib := SetBit(v.d[g.ib], k)]), 14, 16))
    ensures ClearBits(SetBit(v.d[g.ib], k), g.ipg) == ClearBits(v.d[g.ib], g.ipg) - 1
  {
    assert LookAtLayout(0);
    var u := v.(d := v.d[g.ib := SetBit(v.d[g.ib], k)]);
    assert LookAtCounts(0);
    ClearBitsNone(v.d[g.ib], g.ipg);
    ClearBitsSet(v.d[g.ib], g.ipg, k);
    LoweredInodes(g, v, u);
    FieldsKept(g, v, u, 14, 16);
  }

  lemma FieldsKept(g: Geo, v: Vol, u: Vol, goff: nat, soff: nat)
    requires (goff == 12 && soff == 12) || (goff == 14 && soff == 16)
    requires Shape(g, v) && Recorded(g, v) && Shape(g, u) && u.sb == v.sb
    requires u.d[g.bgd] == v.d[g.bgd] && u.d[g.sblk] == v.d[g.sblk]
    requires Get16(v.d[g.bgd], goff) > 0 && Get32(v.sb, soff) > 0
    ensures forall k: int :: LookAtFields(k) ==> Fields(g, Lowered(g, u, goff, soff))
  {
    assert LookAtFields(0);
    LoweredFields(g, u, goff, soff);
  }

  // ---- frames ----

  lemma RecordedFrame(g: Geo, v: Vol, w: Vol)
    requires Shape(g, v) && Recorded(g, v) && w.sb == v.sb && |w.d| == |v.d| && Blocks(w.d, g.bs)
    requires w.d[g.bgd] == v.d[g.bgd] && w.d[g.sblk] == v.d[g.sblk] && w.d[g.bb] == v.d[g.bb] && w.d[g.ib] == v.d[g.ib]
    ensures Shape(g, w) && Recorded(g, w)
  {
    assert LookAtFields(0) && LookAtCounts(0);
  }

  lemma MarksFrame(g: Geo, d: Disk, d': Disk)
    requires OnDisk(g, d) && Marks(g, d) && |d'| == |d| && Blocks(d', g.bs) && d'[g.bb] == d[g.bb]
    ensures OnDisk(g, d') && Marks(g, d')
  {
    assert LookAtMarks(0);
  }

  lemma RootFrame(g: Geo, d: Disk, d': Disk)
    requires OnDisk(g, d) && RootOk(g, d) && |d'| == |d| && Blocks(d', g.bs) && Tiles(d'[g.root], 0)
    requires InUse(g, d', ROOT_INODE) && Inode(g, d', ROOT_INODE) == Inode(g, d, ROOT_INODE)
    ensures RootOk(g, d')
  {
    assert LookAtRoot(0);
  }

  // ---- what is kept ----

  /** What later states keep of an earlier one: every block of a file, the directory, and
      every inode in use. */
  ghost predicate Keeps(g: Geo, v: Vol, w: Vol) {
    && Sound(g, v) && Sound(g, w) && |w.d| == |v.d| && w.d[g.root] == v.d[g.root]
    && (forall x: nat :: Safe(g, v.d, x) ==> w.d[x] == v.d[x] && Safe(g, w.d, x))
    && (forall n: nat :: InUse(g, v.d, n) ==> InUse(g, w.d, n) && Inode(g, w.d, n) == Inode(g, v.d, n))
  }

  lemma KeepsTrans(g: Geo, u: Vol, v: Vol, w: Vol)
    requires Keeps(g, u, v) && Keeps(g, v, w)
    ensures Keeps(g, u, w)
  {
  }

  // ---- a block ----

  /** The volume after bit `k` of the block bitmap was taken and its block zeroed. */
  function BlockTaken(g: Geo, v: Vol, k: nat): (r: Vol)
    requires Shape(g, v) && k < g.bpg && g.sblk + k < |v.d|
    ensures |r.d| == |v.d| && Shape(g, r)
  {
    var w := Lowered(g, v.(d := v.d[g.bb := SetBit(v.d[g.bb], k)]), 12, 12);
    w.(d := w.d[g.sblk + k := Zeros(g.bs)])
  }

  /** An unmarked block is no metadata and exists. */
  lemma Unmarked(g: Geo, v: Vol, k: nat)
    requires Sound(g, v) && k < g.bpg && !Bit(v.d[g.bb], k)
    ensures 0 < g.sblk + k < |v.d| && !g.Meta(g.sblk + k) && !Safe(g, v.d, g.sblk + k)
  {
    assert LookAtMarks(0);
    assert !Marked(g, v.d[g.bb], g.sblk + k);
    assert g.Meta(g.sblk);
  }

  /** One more mark, on a block that may be marked. */
  lemma MarksAfter(g: Geo, d: Disk, d': Disk, k: nat)
    requires OnDisk(g, d) && Marks(g, d) && |d'| == |d| && Blocks(d', g.bs) && k < g.bpg && d'[g.bb] == SetBit(d[g.bb], k)
    ensures Marks(g, d')
    ensures forall x: nat :: Marked(g, d'[g.bb], x) <==> x == g.sblk + k || Marked(g, d[g.bb], x)
  {
    assert LookAtMarks(0);
    SetBitOnly(d[g.bb], k);
    forall x: nat ensures Marked(g, d'[g.bb], x) <==> x == g.sblk + k || Marked(g, d[g.bb], x) {
    }
  }

  lemma BlockTakenDisk(g: Geo, v: Vol, k: nat)
    requires Shape(g, v) && k < g.bpg && g.sblk + k < |v.d| && !g.Meta(g.sblk + k)
    ensures var d := BlockTaken(g, v, k).d;
            && d[g.bb] == SetBit(v.d[g.bb], k) && d[g.ib] == v.d[g.ib] && d[g.root] == v.d[g.root]
            && (forall x: nat :: g.InTable(x) ==> d[x] == v.d[x])
            && forall x: nat :: x < |v.d| && x != g.bb && x != g.bgd && x != g.sblk && x != g.sblk + k ==> d[x] == v.d[x]
  {
    assert LookAtLayout(0);
  }

  lemma BlockTakenSound(g: Geo, v: Vol, k: nat)
    requires Sound(g, v) && k < g.bpg && !Bit(v.d[g.bb], k) && g.sblk + k < |v.d| && !g.Meta(g.sblk + k)
    ensures Sound(g, BlockTaken(g, v, k))
    ensures forall n: nat :: InUse(g, v.d, n) ==> Inode(g, BlockTaken(g, v, k).d, n) == Inode(g, v.d, n)
  {
    var w := BlockTaken(g, v, k);
    BlockTakenDisk(g, v, k);
    RecordedAfterBlock(g, v, k);
    RecordedFrame(g, Lowered(g, v.(d := v.d[g.bb := SetBit(v.d[g.bb], k)]), 12, 12), w);
    MarksAfter(g, v.d, w.d, k);
    InodesFrame(g, v.d, w.d);
    RootFrame(g, v.d, w.d);
  }

  /** Taking a block keeps the volume sound and every file; the block is now one for files
      and was not before. */
  lemma BlockTakenKeeps(g: Geo, v: Vol, k: nat)
    requires Sound(g, v) && k < g.bpg && !Bit(v.d[g.bb], k)
    ensures g.sblk + k < |v.d| && Keeps(g, v, BlockTaken(g, v, k))
    ensures Safe(g, BlockTaken(g, v, k).d, g.sblk + k)
    ensures BlockTaken(g, v, k).d[g.bb] == SetBit(v.d[g.bb], k)
    ensures BlockTaken(g, v, k).d[g.ib] == v.d[g.ib]
  {
    Unmarked(g, v, k);
    BlockTakenSound(g, v, k);
    BlockTakenDisk(g, v, k);
    MarksAfter(g, v.d, BlockTaken(g, v, k).d, k);
  }

  // ---- an inode ----

  /** The volume after bit `k` of the inode bitmap was taken. */
  function InodeTaken(g: Geo, v: Vol, k: nat): (r: Vol)
    requires Shape(g, v) && k < g.ipg
    ensures |r.d| == |v.d| && Shape(g, r)
  {
    Lowered(g, v.(d := v.d[g.ib := SetBit(v.d[g.ib], k)]), 14, 16)
  }

  lemma InodeTakenDisk(g: Geo, v: Vol, k: nat)
    requires Shape(g, v) && k < g.ipg
    ensures var d := InodeTaken(g, v, k).d;
            && d[g.ib] == SetBit(v.d[g.ib], k) && d[g.bb] == v.d[g.bb] && d[g.root] == v.d[g.root]
            && (forall x: nat :: x < |v.d| && x != g.ib && x != g.bgd && x != g.sblk ==> d[x] == v.d[x])
            && forall x: nat :: g.InTable(x) ==> d[x] == v.d[x]
  {
    assert LookAtLayout(0);
  }

  lemma InodeTakenSound(g: Geo, v: Vol, k: nat)
    requires Sound(g, v) && k < g.ipg && !Bit(v.d[g.ib], k)
    ensures Sound(g, InodeTaken(g, v, k))
  {
    RecordedAfterInode(g, v, k);
    InodeTakenFrame(g, v, k);
  }

  lemma InodeTakenFrame(g: Geo, v: Vol, k: nat)
    requires Sound(g, v) && k < g.ipg
    ensures Marks(g, InodeTaken(g, v, k).d) && RootOk(g, InodeTaken(g, v, k).d)
    ensures forall n: nat :: 0 < n <= g.ipg ==> Inode(g, InodeTaken(g, v, k).d, n) == Inode(g, v.d, n)
    ensures forall n: nat :: InUse(g, v.d, n) ==> InUse(g, InodeTaken(g, v, k).d, n)
    ensures InUse(g, InodeTaken(g, v, k).d, k + 1)
  {
    var w := InodeTaken(g, v, k);
    InodeTakenDisk(g, v, k);
    SetBitOnly(v.d[g.ib], k);
    MarksFrame(g, v.d, w.d);
    InodesFrame(g, v.d, w.d);
    RootFrame(g, v.d, w.d);
  }

  lemma InodeTakenKeeps(g: Geo, v: Vol, k: nat)
    requires Sound(g, v) && k < g.ipg && !Bit(v.d[g.ib], k)
    ensures Keeps(g, v, InodeTaken(g, v, k)) && InUse(g, InodeTaken(g, v, k).d, k + 1)
  {
    InodeTakenSound(g, v, k);
    InodeTakenFrame(g, v, k);
    InodeTakenDisk(g, v, k);
  }

  // ---- writing what was taken ----

  /** Writing a block that was not in use before disturbs nothing from before. */
  lemma WriteKeeps(g: Geo, v: Vol, w: Vol, x: nat, b: Bytes)
    requires Keeps(g, v, w) && x < |w.d| && !g.Meta(x) && !Safe(g, v.d, x) && |b| == g.bs
    ensures Keeps(g, v, w.(d := w.d[x := b]))
  {
    var u := w.(d := w.d[x := b]);
    RecordedFrame(g, w, u);
    MarksFrame(g, w.d, u.d);
    InodesFrame(g, w.d, u.d);
    RootFrame(g, w.d, u.d);
  }

  /** Nor does writing an inode that was not in use. */
  lemma StoreKeeps(g: Geo, v: Vol, w: Vol, n: nat, ino: Bytes)
    requires Keeps(g, v, w) && 0 < n <= g.ipg && !InUse(g, v.d, n) && |ino| == INODE
    ensures Keeps(g, v, w.(d := InodeStored(g, w.d, n, ino)))
    ensures Inode(g, InodeStored(g, w.d, n, ino), n) == ino && InodeStored(g, w.d, n, ino)[g.ib] == w.d[g.ib]
  {
    assert LookAtLayout(0);
    var u := w.(d := InodeStored(g, w.d, n, ino));
    RecordedFrame(g, w, u);
    MarksFrame(g, w.d, u.d);
    forall m: nat | 0 < m <= g.ipg ensures Inode(g, u.d, m) == if m == n then ino else Inode(g, w.d, m) {
      InodeStoredReads(g, w.d, n, ino, m);
    }
    RootFrame(g, w.d, u.d);
  }
}
