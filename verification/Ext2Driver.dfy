/** The ext2 driver: its cached superblock and the disk it writes. */
module Ext2Driver {
  import opened Words
  import opened LittleEndian
  import opened Ext2Bits
  import opened Ext2Dirents
  import opened Ext2Ranges
  import opened Ext2File
  import opened Ext2Volume
  import opened Ext2Alloc
  import opened Ext2Create

  const MAX_ROOT_DIR_BYTES := 16384

  /** Writing a group descriptor's 32 bytes back with one field changed. */
  lemma PrefixPut(b: Bytes, off: nat, data: Bytes)
    requires 32 <= |b| && off + |data| <= 32
    ensures Put(b, 0, Put(b[..32], off, data)) == Put(b, off, data)
  {
  }

  lemma BitmapsApart(g: Geo, blocks: nat)
    requires Geometry(g, blocks)
    ensures g.bgd != g.bb && g.bgd != g.ib
  {
    assert LookAtLayout(0);
  }

  /** Where the table arithmetic puts inode `n`. */
  lemma PlaceDiv(g: Geo, blocks: nat, n: nat)
    requires Geometry(g, blocks) && 0 < n <= g.ipg
    ensures g.isz <= g.bs && Place(g, n).0 < g.tlen
    ensures (n - 1) * g.isz / g.bs == Place(g, n).0 && (n - 1) * g.isz % g.bs == Place(g, n).1
  {
    InoInRange(g, blocks, n);
    assert LookAtGeo(0);
    PlaceIs(g, n);
    Quotient(Place(g, n).0, Place(g, n).1, g.bs);
  }

  lemma Quotient(q: nat, r: nat, k: nat)
    requires r < k
    ensures (q * k + r) / k == q && (q * k + r) % k == r
  {
    var x := q * k + r;
    DivParts(x, k);
    var p := x / k;
    if p < q {
      BlocksApart(p, q, k);
    } else if q < p {
      BlocksApart(q, p, k);
    }
    assert x == p * k + x % k;
  }

  /** The inode whose group's descriptor is at byte `at` of block `desc`, and which lies at byte
      `r` of block `q` of the group's inode table, as far as the blocks are on the disk. */
  function InodeAt(d: Disk, bs: nat, desc: nat, at: nat, q: nat, r: nat): Option<Bytes>
    requires Blocks(d, bs)
  {
    if desc >= |d| || at + 32 > bs then None
    else
      var place := Wrap32(Get32(d[desc], at + 8) + q);
      if place >= |d| || r + INODE > bs then None else Some(d[place][r..r + INODE])
  }

  /** Block and byte of a byte offset: quotient and remainder. */
  function Parts(x: nat, bs: nat): (p: (nat, nat))
    requires bs > 0
    ensures p.1 < bs
  {
    if x < bs then (0, x) else (Parts(x - bs, bs).0 + 1, Parts(x - bs, bs).1)
  }

  lemma {:induction false} PartsAre(q: nat, r: nat, bs: nat)
    requires r < bs
    ensures Parts(q * bs + r, bs) == (q, r)
  {
    if q > 0 {
      PartsAre(q - 1, r, bs);
      assert q * bs + r - bs == (q - 1) * bs + r;
      assert q * bs + r >= bs;
    } else {
      assert q * bs == 0;
    }
  }

  lemma PartsDiv(x: nat, bs: nat)
    requires bs > 0
    ensures Parts(x, bs) == (x / bs, x % bs)
  {
    PartsAre(x / bs, x % bs, bs);
    DivParts(x, bs);
    assert x / bs * bs + x % bs == x;
  }

  /** Inode `index` of a group. */
  function InodeIn(g: Geo, d: Disk, group: nat, index: nat): Option<Bytes>
    requires OnDisk(g, d)
  {
    var desc, place := Parts(Wrap32(group * 32), g.bs), Parts(index * g.isz, g.bs);
    InodeAt(d, g.bs, Wrap32(g.bgd + desc.0), desc.1, place.0, place.1)
  }

  /** The group of inode `n`, and its number there. */
  function InGroup(n: nat, ipg: nat): (p: (nat, nat))
    requires n > 0 && ipg > 0
    ensures p.1 < ipg
  {
    DivParts(n - 1, ipg);
    ((n - 1) / ipg, (n - 1) % ipg)
  }

  lemma FirstAt(g: Geo, v: Vol, n: nat)
    requires Shape(g, v) && Recorded(g, v) && 0 < n <= g.ipg
    ensures g.isz <= g.bs && InodeAt(v.d, g.bs, g.bgd, 0, Place(g, n).0, Place(g, n).1) == Some(Inode(g, v.d, n))
  {
    FieldsRead(g, v);
    InoInRange(g, |v.d|, n);
    DescriptorField(v.d[g.bgd]);
    assert Wrap32(g.table + Place(g, n).0) == g.table + Place(g, n).0;
  }

  lemma FirstIn(g: Geo, v: Vol, index: nat)
    requires Shape(g, v) && Recorded(g, v) && index < g.ipg
    ensures InodeIn(g, v.d, 0, index) == Some(Inode(g, v.d, index + 1))
  {
    FirstAt(g, v, index + 1);
    PlaceParts(g, |v.d|, index);
    InodeInAt(g, v.d, 0, index, g.bgd, (0, 0), Place(g, index + 1));
  }

  lemma InodeInAt(g: Geo, d: Disk, group: nat, index: nat, at: u32, desc: (nat, nat), place: (nat, nat))
    requires OnDisk(g, d) && Parts(Wrap32(group * 32), g.bs) == desc && Parts(index * g.isz, g.bs) == place
    requires Wrap32(g.bgd + desc.0) == at
    ensures InodeIn(g, d, group, index) == InodeAt(d, g.bs, at, desc.1, place.0, place.1)
  {
  }

  lemma PlaceParts(g: Geo, blocks: nat, index: nat)
    requires Geometry(g, blocks) && index < g.ipg
    ensures g.isz <= g.bs && Parts(index * g.isz, g.bs) == Place(g, index + 1)
  {
    InoInRange(g, blocks, index + 1);
    assert LookAtGeo(0);
    PlaceIs(g, index + 1);
    PartsAre(Place(g, index + 1).0, Place(g, index + 1).1, g.bs);
  }

  /** In the first group that is the inode table. */
  lemma FirstGroup(g: Geo, v: Vol, n: nat)
    requires Shape(g, v) && Recorded(g, v) && 0 < n <= g.ipg
    ensures InodeIn(g, v.d, InGroup(n, g.ipg).0, InGroup(n, g.ipg).1) == Some(Inode(g, v.d, n))
  {
    Quotient(0, n - 1, g.ipg);
    FirstIn(g, v, n - 1);
  }

  lemma DescriptorField(b: Bytes)
    requires |b| >= 32
    ensures Get32(b, 8) == Get32(b[..32], 8)
  {
  }

  /** Descriptors do not cross blocks. */
  lemma DescriptorFits(g: Geo, blocks: nat, group: nat)
    requires Geometry(g, blocks)
    ensures Parts(Wrap32(group * 32), g.bs).1 + 32 <= g.bs
  {
    PartsDiv(Wrap32(group * 32), g.bs);
    assert LookAtGeo(0);
    WrappedMultiple(group);
    if g.bs == 1024 {
      MultipleOf32(group % 0x800_0000, 32);
    } else if g.bs == 2048 {
      MultipleOf32(group % 0x800_0000, 64);
    } else {
      MultipleOf32(group % 0x800_0000, 128);
    }
  }

  lemma WrappedMultiple(x: nat)
    ensures Wrap32(x * 32) == 32 * (x % 0x800_0000)
  {
    Quotient(x / 0x800_0000, 32 * (x % 0x800_0000), TWO32);
  }

  lemma MultipleOf32(z: nat, per: nat)
    requires per > 0
    ensures 32 * z % (32 * per) + 32 <= 32 * per
  {
    DivParts(z, per);
    assert z == z / per * per + z % per;
    assert 32 * z == z / per * (32 * per) + 32 * (z % per);
    Quotient(z / per, 32 * (z % per), 32 * per);
  }

  /** Reading the root directory's inode gives the root directory's block. */
  lemma RootReads(g: Geo, d: Disk)
    requires OnDisk(g, d) && RootOk(g, d)
    ensures var ino := Inode(g, d, ROOT_INODE);
            && Ptr(ino, 0) == g.root
            && ReadAt(Mapped(d, g.bs, ino), g.bs, FileSize(ino), 0, MAX_ROOT_DIR_BYTES) == d[g.root]
  {
    assert LookAtRoot(0);
    assert LookAtGeo(0);
    var ino := Inode(g, d, ROOT_INODE);
    var bl := Mapped(d, g.bs, ino);
    assert bl[0] == BlockAt(d, g.bs, ino, 0) == Some(d[g.root]);
    Ext2Ranges.ReadBlock(bl, g.bs, 0, g.bs);
  }

  class Driver {
    ghost const g: Geo
    const bs: nat
    const isz: nat
    const sblk: nat
    const soff: nat
    const bgdStart: nat
    var mounted: bool
    var sb: Bytes
    var disk: Disk

    ghost function V(): Vol
      reads this
    {
      Vol(sb, disk)
    }

    ghost predicate Valid()
      reads this
    {
      && Shape(g, V())
      && bs == g.bs && isz == g.isz && sblk == g.sblk && soff == g.soff && bgdStart == g.bgd
    }

    method WriteBlock(n: nat, b: Bytes)
      requires Valid() && n < |disk| && |b| == bs
      modifies this`disk
      ensures Valid() && disk == old(disk)[n := b]
    {
      disk := disk[n := b];
    }

    method ReadBgd0() returns (bgd: Bytes)
      requires Valid()
      ensures bgd == disk[g.bgd][..32]
    {
      bgd := disk[bgdStart][..32];
    }

    /** The group descriptor, and what of the geometry it and the superblock tell. */
    method LoadGroup() returns (bgd: Bytes)
      requires Valid() && Recorded(g, V())
      ensures bgd == disk[g.bgd][..32] && Get32(bgd, 0) == g.bb && Get32(bgd, 4) == g.ib && Get32(bgd, 8) == g.table
      ensures Get32(sb, 20) == g.sblk && Get32(sb, 32) == g.bpg && Get32(sb, 40) == g.ipg
      ensures g.bgd != g.bb && g.bgd != g.ib
    {
      bgd := ReadBgd0();
      FieldsRead(g, V());
      BitmapsApart(g, |disk|);
    }

    method WriteBgd0(bgd: Bytes)
      requires Valid() && |bgd| == 32
      modifies this`disk
      ensures Valid() && disk == old(disk)[g.bgd := Put(old(disk)[g.bgd], 0, bgd)]
    {
      WriteBlock(bgdStart, Put(disk[bgdStart], 0, bgd));
    }

    method WriteSuperblock()
      requires Valid()
      modifies this`disk
      ensures Valid() && disk == old(disk)[g.sblk := WithSuper(old(disk)[g.sblk], g.soff, sb)]
    {
      WriteBlock(sblk, Put(disk[sblk], soff, sb + Zeros(SUPER_AREA - SUPER)));
    }

    /** Takes the first clear bit of a bitmap block, if there is one among the first `total`. */
    method AllocFromBitmap(block: nat, total: nat) returns (k: Option<nat>)
      requires Valid() && block < |disk| && total <= 8 * bs
      modifies this`disk
      ensures Valid()
      ensures k.None? <==> ClearBits(old(disk)[block], total) == 0
      ensures k.None? ==> disk == old(disk)
      ensures k.Some? ==> k.value < total && !Bit(old(disk)[block], k.value)
                          && disk == old(disk)[block := SetBit(old(disk)[block], k.value)]
    {
      var bits := disk[block];
      k := FirstClear(bits, total);
      if k.Some? {
        ClearBitsNone(bits, total);
        WriteBlock(block, SetBit(bits, k.value));
      }
    }

    /** Lowers the counts at `goff` of the descriptor `bgd` and `boff` of the superblock. */
    method LowerCounts(bgd: Bytes, goff: nat, boff: nat)
      requires Valid() && bgd == disk[g.bgd][..32] && goff + 2 <= 32 && boff + 4 <= SUPER
      modifies this`disk, this`sb
      ensures Valid() && V() == Lowered(g, old(V()), goff, boff)
    {
      assert LookAtLayout(0);
      var lower := Put(bgd, goff, Enc16(Less16(Get16(bgd, goff))));
      PrefixPut(disk[g.bgd], goff, Enc16(Less16(Get16(bgd, goff))));
      WriteBgd0(lower);
      sb := SuperLess(sb, boff);
      WriteSuperblock();
    }

    /** Takes a free block and zeroes it; fails, changing nothing, exactly when none is free. */
    method AllocBlock() returns (block: nat, ghost k: nat)
      requires Valid() && Sound(g, V())
      modifies this`disk, this`sb
      ensures Valid()
      ensures block == 0 <==> ClearBits(old(disk)[g.bb], g.bpg) == 0
      ensures block == 0 ==> V() == old(V())
      ensures block != 0 ==> block == g.sblk + k < |old(disk)| && k < g.bpg && !Bit(old(disk)[g.bb], k)
                             && V() == BlockTaken(g, old(V()), k)
                             && disk[block] == Zeros(bs)
    {
      k := 0;
      var bgd := LoadGroup();
      var bit := AllocFromBitmap(Get32(bgd, 0), Get32(sb, 32));
      if bit.None? {
        return 0, k;
      }
      k := bit.value;
      Unmarked(g, old(V()), k);
      block := Get32(sb, 20) + bit.value;
      LowerCounts(bgd, 12, 12);
      WriteBlock(block, Zeros(bs));
    }

    /** Takes a free inode; fails, changing nothing, exactly when none is free. */
    method AllocInode() returns (n: u32)
      requires Valid() && Sound(g, V())
      modifies this`disk, this`sb
      ensures Valid()
      ensures n == 0 <==> ClearBits(old(disk)[g.ib], g.ipg) == 0
      ensures n == 0 ==> V() == old(V())
      ensures n != 0 ==> n <= g.ipg && !Bit(old(disk)[g.ib], n - 1) && V() == InodeTaken(g, old(V()), n - 1)
    {
      var bgd := LoadGroup();
      var total := Get32(sb, 40);
      var bit := AllocFromBitmap(Get32(bgd, 4), total);
      if bit.None? {
        return 0;
      }
      ghost var k := bit.value;
      assert V() == old(V()).(d := old(disk)[g.ib := SetBit(old(disk)[g.ib], k)]);
      LowerCounts(bgd, 14, 16);
      assert V() == InodeTaken(g, old(V()), k);
      n := bit.value + 1;
    }

    /** The place of inode `n` of the first group. */
    method Locate(n: nat) returns (block: nat, offset: nat)
      requires Valid() && Sound(g, V()) && 0 < n <= g.ipg
      ensures g.isz <= g.bs && block == g.table + Place(g, n).0 < |disk| && offset == Place(g, n).1
    {
      var bgd := LoadGroup();
      PlaceDiv(g, |disk|, n);
      var byteOffset := (n - 1) * isz;
      block := Get32(bgd, 8) + byteOffset / bs;
      offset := byteOffset % bs;
    }

    /** Inode `n` of any group, from the table its group's descriptor points to; none for inode 0
        and where the disk ends before. */
    method ReadInode(n: nat) returns (ino: Option<Bytes>)
      requires Valid() && Sound(g, V())
      ensures n == 0 ==> ino == None
      ensures n > 0 ==> ino == InodeIn(g, disk, InGroup(n, g.ipg).0, InGroup(n, g.ipg).1)
      ensures 0 < n <= g.ipg ==> ino == Some(Inode(g, disk, n))
    {
      if n == 0 {
        return None;
      }
      FieldsRead(g, V());
      var ipg := Get32(sb, 40);
      assert ipg == g.ipg;
      var p := InGroup(n, ipg);
      ino := ReadFromGroup(p.0, p.1);
      if n <= ipg {
        FirstGroup(g, V(), n);
      }
    }

    method ReadFromGroup(group: nat, index: nat) returns (ino: Option<Bytes>)
      requires Valid() && index < g.ipg
      ensures ino == InodeIn(g, disk, group, index)
    {
      DescriptorFits(g, |disk|, group);
      PlaceParts(g, |disk|, index);
      var dq, dr := Divide(Wrap32(group * 32));
      var q, r := Divide(index * isz);
      ino := ReadPlaced(Wrap32(bgdStart + dq), dr, q, r);
    }

    method Divide(x: nat) returns (q: nat, r: nat)
      requires Valid()
      ensures (q, r) == Parts(x, bs)
    {
      PartsDiv(x, bs);
      q, r := x / bs, x % bs;
    }

    method ReadPlaced(desc: nat, at: nat, q: nat, r: nat) returns (ino: Option<Bytes>)
      requires Valid() && at + 32 <= bs && r + INODE <= bs
      ensures ino == InodeAt(disk, bs, desc, at, q, r)
    {
      if desc >= |disk| {
        return None;
      }
      var place := Wrap32(Get32(disk[desc], at + 8) + q);
      if place >= |disk| {
        return None;
      }
      return Some(disk[place][r..r + INODE]);
    }

    method WriteInode(n: nat, ino: Bytes) returns (ok: bool)
      requires Valid() && Sound(g, V()) && 0 < n && |ino| == INODE
      modifies this`disk
      ensures Valid() && (ok <==> n <= g.ipg)
      ensures ok ==> disk == InodeStored(g, old(disk), n, ino)
      ensures !ok ==> disk == old(disk)
    {
      FieldsRead(g, V());
      GroupOf(n, g.ipg);
      if (n - 1) / Get32(sb, 40) != 0 {
        return false;
      }
      var block, offset := Locate(n);
      WriteBlock(block, Put(disk[block], offset, ino));
      return true;
    }

    /** The inode a name leads to. */
    method FindInRoot(name: Bytes) returns (r: Option<u32>)
      requires Valid() && Sound(g, V())
      ensures r == Lookup(Listing(g, disk), name)
    {
      var root := ReadInode(ROOT_INODE);
      RootReads(g, disk);
      var dir := ReadInodeDataAt(disk, bs, root.value, 0, MAX_ROOT_DIR_BYTES);
      SearchIsLookup(dir, 0, name);
      r := Find(dir, name);
    }

    /** Enters a name in the root directory; fails, changing nothing, exactly when no record
        has the slack. */
    method InsertDirent(name: Bytes, n: u32) returns (ok: bool, ghost b: Bytes)
      requires Valid() && Sound(g, V()) && Copyable(disk[g.root], name)
      modifies this`disk
      ensures Valid()
      ensures ok <==> Room(old(disk)[g.root], 0, Asked(|name|)) < g.bs
      ensures ok ==> Inserts(old(disk)[g.root], name, n, b) && |b| == g.bs && V() == Rooted(g, old(V()), b)
      ensures !ok ==> disk == old(disk)
    {
      b := [];
      var root := ReadInode(ROOT_INODE);
      RootReads(g, disk);
      var block := Ptr(root.value, 0);
      if block == 0 {
        assert false;
        return false, b;
      }
      var r := Insert(disk[block], name, n);
      if r.None? {
        return false, b;
      }
      b := r.value;
      InsertKeepsSize(disk[g.root], name, n, b);
      WriteBlock(block, r.value);
      return true, b;
    }

    /** At most `len` bytes of a file from `offset` on, and how many. */
    method ReadFileRange(name: Bytes, offset: nat, len: nat) returns (r: Option<Bytes>, code: int)
      requires Valid() && Consistent(g, V())
      ensures code == if r.None? then -1 else |r.value|
      ensures r.None? <==> !mounted || Lookup(Listing(g, disk), name) == None
      ensures r.Some? ==> ReadsAt(g, disk, Lookup(Listing(g, disk), name).value, offset, len, r.value)
    {
      if !mounted {
        return None, -1;
      }
      var n := FindInRoot(name);
      if n.None? {
        return None, -1;
      }
      FoundInRange(g, V(), name);
      var ino := ReadInode(n.value);
      var out := ReadInodeDataAt(disk, bs, ino.value, offset, len);
      RangeRead(g, disk, n.value, offset, len);
      ReadFits(g, disk, ino.value, offset, len);
      return Some(out), AsInt(|out|);
    }

    /** As much of a file as the buffer takes. */
    method ReadFile(name: Bytes, bufSize: nat) returns (r: Option<Bytes>, code: int)
      requires Valid() && Consistent(g, V())
      ensures code == if r.None? then -1 else |r.value|
      ensures r.None? <==> !mounted || Lookup(Listing(g, disk), name) == None
      ensures r.Some? ==> ReadsAt(g, disk, Lookup(Listing(g, disk), name).value, 0, bufSize, r.value)
    {
      r, code := ReadFileRange(name, 0, bufSize);
    }

    /** Takes a block and fills it. */
    method PutBlock(buf: Bytes) returns (block: nat, ghost k: nat)
      requires Valid() && Sound(g, V()) && |buf| == bs
      modifies this`disk, this`sb
      ensures Valid()
      ensures block == 0 <==> ClearBits(old(disk)[g.bb], g.bpg) == 0
      ensures block == 0 ==> V() == old(V())
      ensures block != 0 ==> BlockPut(g, old(V()), V(), k, block, buf)
    {
      block, k := AllocBlock();
      if block != 0 {
        WriteBlock(block, buf);
      }
    }

    /** One more chunk: the inode with its block, and the data left. */
    method FillNext(inode: Bytes, src: Bytes, i: nat, ghost v: Vol, ghost data: Bytes) returns (ok: bool, r: Bytes, rest: Bytes)
      requires Valid() && Filling(g, v, V(), data, inode, src, i) && i < DIRECT && i < |Chunks(data, bs)|
      modifies this`disk, this`sb
      ensures Valid()
      ensures ok <==> ClearBits(v.d[g.bb], g.bpg) > i
      ensures ok ==> Filling(g, v, V(), data, r, rest, i + 1) && SameHead(r, inode)
      ensures !ok ==> V() == old(V()) && r == inode && rest == src
    {
      ghost var w := V();
      FillingLeft(g, v, w, data, inode, src, i);
      var chunk := if |src| < bs then |src| else bs;
      var buf := src[..chunk] + Zeros(bs - chunk);
      var block;
      ghost var k;
      block, k := PutBlock(buf);
      if block == 0 {
        return false, inode, src;
      }
      ok, r, rest := true, Put(inode, 40 + 4 * i, Enc32(block)), src[chunk..];
      FillingStep(g, v, w, data, inode, src, i, k, block, buf, chunk, V(), r);
    }

    /** Takes a block for each chunk of the data, writes it there and enters it in the inode.
        Fails exactly when the blocks run out. */
    method WriteBlocks(data: Bytes, needed: nat, inode: Bytes) returns (ok: bool, r: Bytes)
      requires Valid() && needed <= DIRECT && needed <= |Chunks(data, bs)|
      requires Filling(g, V(), V(), data, inode, data, 0)
      modifies this`disk, this`sb
      ensures Valid() && Keeps(g, old(V()), V())
      ensures ok <==> needed <= ClearBits(old(disk)[g.bb], g.bpg)
      ensures ok ==> SameHead(r, inode) && exists src: Bytes :: Filling(g, old(V()), V(), data, r, src, needed)
    {
      ghost var v := V();
      ok, r := true, inode;
      SameHeadAll(inode);
      var src := data;
      var i: nat := 0;
      while i < needed && ok
        invariant Valid() && i <= needed
        invariant Filling(g, v, V(), data, r, src, i) && SameHead(r, inode)
        invariant ok || (i < needed && ClearBits(v.d[g.bb], g.bpg) <= i)
        decreases needed - i, ok
      {
        ghost var before := r;
        ok, r, src := FillNext(r, src, i, v, data);
        if ok {
          SameHeadTrans(r, before, inode);
          i := i + 1;
        }
      }
      FillingKeeps(g, v, V(), data, r, src, i);
    }

    /** Takes an inode and stores a finished one in it. Fails exactly when none is free. */
    method StoreInode(inode: Bytes, ghost v: Vol) returns (n: u32)
      requires Valid() && Consistent(g, v) && Keeps(g, v, V()) && |inode| == INODE && FileSafe(g, disk, inode)
      requires disk[g.ib] == v.d[g.ib]
      modifies this`disk, this`sb
      ensures Valid() && (n == 0 <==> ClearBits(v.d[g.ib], g.ipg) == 0)
      ensures n == 0 ==> Consistent(g, V()) && SameFiles(g, v.d, disk, None)
      ensures n != 0 ==> InodeEntered(g, v, V(), n, Whole(Mapped(old(disk), bs, inode), bs, FileSize(inode)))
      ensures n != 0 ==> Stored(g, disk, n, inode)
    {
      ghost var u := V();
      n := AllocInode();
      if n == 0 {
        KeptFiles(g, v, u);
        return;
      }
      InodeTakenKeeps(g, u, n - 1);
      var stored := WriteInode(n, inode);
      EnterKeeps(g, v, u, V(), n, inode);
    }

    /** Stores a finished inode and enters it in the directory. Fails exactly when there is no
        free inode or no room in the directory. */
    method Enter(name: Bytes, inode: Bytes, ghost v: Vol) returns (ok: bool, ghost n: u32)
      requires Valid() && Consistent(g, v) && Keeps(g, v, V()) && |inode| == INODE && FileSafe(g, disk, inode)
      requires Copyable(v.d[g.root], name) && Lookup(Listing(g, v.d), name) == None && disk[g.ib] == v.d[g.ib]
      modifies this`disk, this`sb
      ensures Valid() && Consistent(g, V())
      ensures ok <==> ClearBits(v.d[g.ib], g.ipg) > 0 && Room(v.d[g.root], 0, Asked(|name|)) < g.bs
      ensures !ok ==> SameFiles(g, v.d, disk, None)
      ensures ok ==> Entered(g, v, V(), name, n, Whole(Mapped(old(disk), bs, inode), bs, FileSize(inode)))
      ensures ok ==> Stored(g, disk, n, inode)
    {
      var num := StoreInode(inode, v);
      n := num;
      if num == 0 {
        return false, n;
      }
      ghost var s, out := V(), Whole(Mapped(old(disk), bs, inode), bs, FileSize(inode));
      InodeEnteredKeeps(g, v, s, num, out);
      ghost var b;
      ok, b := InsertDirent(name, num);
      if ok {
        EnterLinked(g, v, s, name, num, out, b);
        RootedStored(g, s, b, num, inode);
      }
    }

    /** Creates a file whose name is not there, in `needed` blocks. */
    method Create(name: Bytes, data: Bytes, needed: nat) returns (ok: bool, ghost n: u32)
      requires Valid() && Consistent(g, V()) && |data| < TWO32 && Copyable(disk[g.root], name)
      requires Lookup(Listing(g, disk), name) == None && needed == BlocksNeeded(|data|, bs) <= DIRECT
      modifies this`disk, this`sb
      ensures Valid() && Consistent(g, V())
      ensures ok <==>
              && needed <= ClearBits(old(disk)[g.bb], g.bpg) && ClearBits(old(disk)[g.ib], g.ipg) > 0
              && Room(old(disk)[g.root], 0, Asked(|name|)) < g.bs
      ensures !ok ==> SameFiles(g, old(disk), disk, None)
      ensures ok ==> Entered(g, old(V()), V(), name, n, if |data| + bs - 1 < TWO32 then data else [])
      ensures ok ==> StoredFor(g, disk, n, |data|)
    {
      n := 0;
      ghost var v := V();
      var sectors := Wrap32(needed * (bs / 512));
      StartFilling(g, v, data, sectors);
      NeededChunks(data, bs);
      var inode;
      ok, inode := WriteBlocks(data, needed, NewInode(|data|, sectors));
      if !ok {
        KeptFiles(g, v, V());
        return;
      }
      ghost var src :| Filling(g, v, V(), data, inode, src, needed);
      FillingDone(g, v, V(), data, inode, src, needed);
      ok, n := Enter(name, inode, v);
      if ok {
        StoredHead(g, disk, n, inode, |data|);
      }
    }

    /** Creates a file. Whether it succeeds is known beforehand; if it does not, every file is
        as it was. If it does, the new inode reads as the data, unless the 32-bit sum that
        counts its blocks wrapped. The volume stays consistent in every case. */
    method WriteFile(name: Bytes, data: Bytes) returns (ok: bool, ghost n: u32)
      requires Valid() && Consistent(g, V()) && |data| < TWO32 && Copyable(disk[g.root], name)
      modifies this`disk, this`sb
      ensures Valid() && Consistent(g, V())
      ensures ok <==>
              && mounted && Lookup(Listing(g, old(disk)), name) == None
              && BlocksNeeded(|data|, bs) <= Min(DIRECT, ClearBits(old(disk)[g.bb], g.bpg))
              && ClearBits(old(disk)[g.ib], g.ipg) > 0
              && Room(old(disk)[g.root], 0, Asked(|name|)) < g.bs
      ensures !ok ==> SameFiles(g, old(disk), disk, None)
      ensures ok ==> Entered(g, old(V()), V(), name, n, if |data| + bs - 1 < TWO32 then data else [])
      ensures ok ==> StoredFor(g, disk, n, |data|)
    {
      ok, n := false, 0;
      Unchanged(g, V());
      if !mounted {
        return;
      }
      var existing := FindInRoot(name);
      if existing.Some? {
        return;
      }
      ok, n := WriteNew(name, data);
    }

    /** Creates a file whose name is not there. */
    method WriteNew(name: Bytes, data: Bytes) returns (ok: bool, ghost n: u32)
      requires Valid() && Consistent(g, V()) && |data| < TWO32 && Copyable(disk[g.root], name)
      requires Lookup(Listing(g, disk), name) == None
      modifies this`disk, this`sb
      ensures Valid() && Consistent(g, V())
      ensures ok <==>
              && BlocksNeeded(|data|, bs) <= Min(DIRECT, ClearBits(old(disk)[g.bb], g.bpg))
              && ClearBits(old(disk)[g.ib], g.ipg) > 0
              && Room(old(disk)[g.root], 0, Asked(|name|)) < g.bs
      ensures !ok ==> SameFiles(g, old(disk), disk, None)
      ensures ok ==> Entered(g, old(V()), V(), name, n, if |data| + bs - 1 < TWO32 then data else [])
      ensures ok ==> StoredFor(g, disk, n, |data|)
    {
      ok, n := false, 0;
      Unchanged(g, V());
      var size: u32 := |data|;
      var needed := if size == 0 then 0 else (size + bs - 1) % TWO32 / bs;
      assert needed == BlocksNeeded(size, bs);
      if needed > DIRECT {
        return;
      }
      ok, n := Create(name, data, needed);
    }
  }

  lemma Unchanged(g: Geo, v: Vol)
    requires Consistent(g, v)
    ensures SameFiles(g, v.d, v.d, None)
  {
    KeptFiles(g, v, v);
  }

  /** The blocks a file of `size` bytes is given; the sum is taken in 32 bits. */
  function BlocksNeeded(size: u32, bs: nat): nat
    requires bs > 0
  {
    if size == 0 then 0 else (size + bs - 1) % TWO32 / bs
  }

  lemma NeededChunks(data: Bytes, bs: nat)
    requires 0 < bs <= 4096 && |data| < TWO32
    ensures BlocksNeeded(|data|, bs) <= |Chunks(data, bs)|
    ensures |data| + bs - 1 < TWO32 ==> BlocksNeeded(|data|, bs) == |Chunks(data, bs)|
    ensures |data| + bs - 1 >= TWO32 ==> BlocksNeeded(|data|, bs) == 0
  {
    RoundUp(data, bs);
    NeededSize(|data|, |Chunks(data, bs)|, bs);
  }

  lemma NeededSize(size: u32, chunks: nat, bs: nat)
    requires 0 < bs <= 4096 && chunks == (size + bs - 1) / bs && (size == 0 ==> chunks == 0)
    ensures BlocksNeeded(size, bs) == if size + bs - 1 < TWO32 then chunks else 0
  {
    if size + bs - 1 >= TWO32 {
      WrapsToNothing(size, bs);
    } else {
      assert (size + bs - 1) % TWO32 == size + bs - 1;
    }
  }

  lemma WrapsToNothing(size: u32, bs: nat)
    requires 0 < bs <= 4096 && size + bs - 1 >= TWO32
    ensures (size + bs - 1) % TWO32 / bs == 0
  {
    assert (size + bs - 1) % TWO32 == size + bs - 1 - TWO32;
    DivParts(size + bs - 1 - TWO32, bs);
  }

  /** The 512-byte sectors in the blocks a file needs. */
  function Sectors(size: u32, bs: nat): u32
    requires bs > 0
  {
    Wrap32(BlocksNeeded(size, bs) * (bs / 512))
  }

  lemma SectorsFit(size: u32, bs: nat)
    requires 0 < bs <= 4096 && BlocksNeeded(size, bs) <= DIRECT
    ensures Sectors(size, bs) == BlocksNeeded(size, bs) * (bs / 512)
  {
    var needed := BlocksNeeded(size, bs);
    assert 0 <= bs / 512 <= 8;
    Monotone(needed, DIRECT, bs / 512);
    Monotone(0, needed, bs / 512);
  }

  predicate LookAtHead(k: int) {
    true
  }

  ghost predicate SameHead(a: Bytes, b: Bytes) {
    forall k: int :: LookAtHead(k) ==> |a| >= 40 && |b| >= 40 && a[..40] == b[..40]
  }

  lemma PutKeepsHead(a: Bytes, b: Bytes, i: nat, data: Bytes)
    requires SameHead(a, b) && 40 <= i && i + |data| <= |a|
    ensures SameHead(Put(a, i, data), b)
  {
    assert LookAtHead(0);
    assert Put(a, i, data)[..40] == Put(a, i, data)[..i][..40] == a[..i][..40] == a[..40];
  }

  lemma SameHeadTrans(a: Bytes, b: Bytes, c: Bytes)
    requires SameHead(a, b) && SameHead(b, c)
    ensures SameHead(a, c)
  {
    assert LookAtHead(0);
  }

  lemma SameHeadAll(a: Bytes)
    requires |a| == INODE
    ensures SameHead(a, a)
  {
  }

  /** Inode `n` is that of a regular file of `size` bytes: its mode, size, link count and sectors. */
  ghost predicate StoredFor(g: Geo, d: Disk, n: nat, size: u32) {
    forall k: int :: LookAtHead(k) ==>
      && OnDisk(g, d) && 0 < n <= g.ipg && g.bs > 0
      && Inode(g, d, n)[..40] == FileHead(size, Sectors(size, g.bs))
  }

  lemma StoredHead(g: Geo, d: Disk, n: nat, ino: Bytes, size: u32)
    requires Stored(g, d, n, ino) && g.bs > 0 && SameHead(ino, NewInode(size, Sectors(size, g.bs)))
    ensures StoredFor(g, d, n, size)
  {
    assert LookAtHead(0);
    NewInodeHead(size, Sectors(size, g.bs));
  }

  /** Inode `n` is `ino`. */
  ghost predicate Stored(g: Geo, d: Disk, n: nat, ino: Bytes) {
    OnDisk(g, d) && 0 < n <= g.ipg && Inode(g, d, n) == ino
  }

  lemma RootedStored(g: Geo, s: Vol, b: Bytes, n: nat, ino: Bytes)
    requires Sound(g, s) && |b| == g.bs && Tiles(b, 0) && Stored(g, s.d, n, ino)
    ensures Stored(g, Rooted(g, s, b).d, n, ino)
  {
    RootedSound(g, s, b);
  }

  lemma StartFilling(g: Geo, v: Vol, data: Bytes, sectors: u32)
    requires Consistent(g, v) && |data| < TWO32
    ensures g.bs <= 4096 && Filling(g, v, v, data, NewInode(|data|, sectors), data, 0)
  {
    assert LookAtGeo(0);
    NewInodeFields(|data|, sectors);
    assert Chunks(data, g.bs)[0..] == Chunks(data, g.bs);
  }

  /** When all blocks asked for are written, the inode is sound and reads as the data, or as
      nothing where the number of blocks wrapped. */
  lemma FillingDone(g: Geo, v: Vol, w: Vol, data: Bytes, ino: Bytes, src: Bytes, n: nat)
    requires Filling(g, v, w, data, ino, src, n) && 0 < g.bs <= 4096 && |data| < TWO32 && n == BlocksNeeded(|data|, g.bs)
    ensures Keeps(g, v, w) && FileSafe(g, w.d, ino) && w.d[g.ib] == v.d[g.ib] && FileSize(ino) == |data|
    ensures Whole(Mapped(w.d, g.bs, ino), g.bs, |data|) == if |data| + g.bs - 1 < TWO32 then data else []
  {
    assert LookAtFilling(0) && LookAtWritten(0);
    NeededChunks(data, g.bs);
    WrittenSafe(g, v, w, ino, |data|, Chunks(data, g.bs), n);
    if |data| + g.bs - 1 < TWO32 {
      WrittenReads(g, v, w, ino, data);
    } else {
      NothingReads(g, w, ino, |data|);
    }
  }

  /** A created file is found under its name with its data exactly if the name has at most
      255 bytes and the block count did not wrap. */
  lemma CreatedReads(g: Geo, v: Vol, w: Vol, name: Bytes, n: u32, data: Bytes)
    requires |data| < TWO32 && Consistent(g, v)
    requires Entered(g, v, w, name, n, if |data| + g.bs - 1 < TWO32 then data else [])
    ensures Lookup(Listing(g, w.d), name) == Some(n) && Content(g, w.d, n) == data <==>
            |name| <= 255 && |data| + g.bs - 1 < TWO32
  {
    assert LookAtGeo(0);
  }

  /** `w` is `v` with a new file: inode `n` with content `out`, found by its name exactly if
      that has at most 255 bytes. Every name but what the directory keeps of it is as it was. */
  ghost predicate Entered(g: Geo, v: Vol, w: Vol, name: Bytes, n: u32, out: Bytes) {
    && Consistent(g, v) && Consistent(g, w)
    && 0 < n <= g.ipg && !InUse(g, v.d, n) && InUse(g, w.d, n) && Content(g, w.d, n) == out
    && NameEntered(Listing(g, v.d), Earlier(v.d[g.root], name), Listing(g, w.d), name, n)
    && SameFiles(g, v.d, w.d, Some(Kept(name)))
  }

  /** Mentioned where a newly stored inode matters. */
  predicate LookAtEntered(k: int) {
    true
  }

  /** `s` keeps all of `v`, and has in use inode `n`, free before, which reads as `out`. */
  ghost predicate InodeEntered(g: Geo, v: Vol, s: Vol, n: nat, out: Bytes) {
    forall k: int :: LookAtEntered(k) ==>
      && Keeps(g, v, s) && Consistent(g, v) && Consistent(g, s) && SameFiles(g, v.d, s.d, None)
      && InodeOk(g, s.d, n) && !InUse(g, v.d, n) && Content(g, s.d, n) == out
  }

  lemma InodeEnteredKeeps(g: Geo, v: Vol, s: Vol, n: nat, out: Bytes)
    requires InodeEntered(g, v, s, n, out)
    ensures Consistent(g, v) && Consistent(g, s) && SameFiles(g, v.d, s.d, None) && s.d[g.root] == v.d[g.root]
  {
    assert LookAtEntered(0);
  }

  /** Taking an inode and storing one keeps every file, and what the inode reads as. */
  lemma EnterKeeps(g: Geo, v: Vol, u: Vol, s: Vol, n: nat, inode: Bytes)
    requires Consistent(g, v) && Keeps(g, v, u) && |inode| == INODE && FileSafe(g, u.d, inode)
    requires 0 < n <= g.ipg && !Bit(u.d[g.ib], n - 1) && u.d[g.ib] == v.d[g.ib]
    requires s == InodeTaken(g, u, n - 1).(d := InodeStored(g, InodeTaken(g, u, n - 1).d, n, inode))
    ensures InodeEntered(g, v, s, n, Whole(Mapped(u.d, g.bs, inode), g.bs, FileSize(inode))) && Stored(g, s.d, n, inode)
  {
    StoredKeeps(g, v, u, s, n, inode);
    KeptFiles(g, v, s);
    MappedFrame(g, u.d, s.d, inode);
    FileSafeFrame(g, u.d, s.d, inode);
  }

  lemma StoredKeeps(g: Geo, v: Vol, u: Vol, s: Vol, n: nat, inode: Bytes)
    requires Keeps(g, v, u) && |inode| == INODE
    requires 0 < n <= g.ipg && !Bit(u.d[g.ib], n - 1) && u.d[g.ib] == v.d[g.ib]
    requires s == InodeTaken(g, u, n - 1).(d := InodeStored(g, InodeTaken(g, u, n - 1).d, n, inode))
    ensures Keeps(g, v, s) && Keeps(g, u, s) && InUse(g, s.d, n) && Inode(g, s.d, n) == inode && !InUse(g, v.d, n)
  {
    assert !InUse(g, u.d, n) && !InUse(g, v.d, n);
    InodeTakenKeeps(g, u, n - 1);
    var w := InodeTaken(g, u, n - 1);
    KeepsTrans(g, v, u, w);
    StoreKeeps(g, v, w, n, inode);
    StoreKeeps(g, u, w, n, inode);
    assert s.d[g.ib] == w.d[g.ib];
  }

  lemma EnterLinked(g: Geo, v: Vol, s: Vol, name: Bytes, n: u32, out: Bytes, b: Bytes)
    requires InodeEntered(g, v, s, n, out) && OnDisk(g, v.d) && Tiles(v.d[g.root], 0) && OnDisk(g, s.d)
    requires Lookup(Listing(g, v.d), name) == None && Inserts(s.d[g.root], name, n, b)
    ensures |b| == g.bs && Entered(g, v, Rooted(g, s, b), name, n, out)
  {
    assert LookAtEntered(0);
    Linked(g, s, name, n, b);
  }

  /** Mentioned where the state of a file being written matters. */
  predicate LookAtFilling(k: int) {
    true
  }

  /** Mentioned where the blocks written so far matter. */
  predicate LookAtWritten(k: int) {
    true
  }

  ghost predicate Wrote(g: Geo, v: Vol, w: Vol, ino: Bytes, size: u32, cs: seq<Bytes>, n: nat) {
    forall k: int :: LookAtWritten(k) ==> Written(g, v, w, ino, size, cs, n)
  }

  /** From volume `v` on, `n` chunks of `data` have been written, and `src` is left. */
  ghost predicate Filling(g: Geo, v: Vol, w: Vol, data: Bytes, ino: Bytes, src: Bytes, n: nat) {
    && |ino| == INODE && OnDisk(g, v.d)
    && forall k: int :: LookAtFilling(k) ==>
         && g.bs > 0 && |data| < TWO32 && Wrote(g, v, w, ino, |data|, Chunks(data, g.bs), n) && OnDisk(g, w.d)
         && n <= |Chunks(data, g.bs)| && Chunks(data, g.bs)[n..] == Chunks(src, g.bs) && w.d[g.ib] == v.d[g.ib]
         && ClearBits(w.d[g.bb], g.bpg) == ClearBits(v.d[g.bb], g.bpg) - n
  }

  lemma FillingKeeps(g: Geo, v: Vol, w: Vol, data: Bytes, ino: Bytes, src: Bytes, n: nat)
    requires Filling(g, v, w, data, ino, src, n)
    ensures Keeps(g, v, w) && ClearBits(v.d[g.bb], g.bpg) >= n
  {
    assert LookAtFilling(0) && LookAtWritten(0);
  }

  lemma FillingLeft(g: Geo, v: Vol, w: Vol, data: Bytes, ino: Bytes, src: Bytes, n: nat)
    requires Filling(g, v, w, data, ino, src, n) && g.bs > 0 && n < |Chunks(data, g.bs)|
    ensures src != [] && Sound(g, w)
    ensures ClearBits(w.d[g.bb], g.bpg) == ClearBits(v.d[g.bb], g.bpg) - n
  {
    assert LookAtFilling(0) && LookAtWritten(0);
  }

  /** Block number `block`, the `k`-th of the group, was taken and `buf` written to it. */
  ghost predicate BlockPut(g: Geo, w: Vol, u: Vol, k: nat, block: nat, buf: Bytes) {
    && Shape(g, w) && k < g.bpg && !Bit(w.d[g.bb], k) && block == g.sblk + k < |w.d| && |buf| == g.bs
    && u == BlockFilled(g, w, k, buf)
  }

  lemma FillingNext(g: Geo, v: Vol, w: Vol, data: Bytes, ino: Bytes, src: Bytes, n: nat, k: nat,
                    block: u32, buf: Bytes, chunk: nat, u: Vol, next: Bytes)
    requires Filling(g, v, w, data, ino, src, n) && src != [] && n < DIRECT && BlockPut(g, w, u, k, block, buf)
    requires chunk == Min(|src|, g.bs) && buf == src[..chunk] + Zeros(g.bs - chunk)
    requires next == Put(ino, 40 + 4 * n, Enc32(block))
    ensures Filling(g, v, u, data, next, src[chunk..], n + 1)
  {
    FillingParts(g, v, w, data, ino, src, n);
    var cs := Chunks(data, g.bs);
    NextChunk(cs, n, src, g.bs, chunk);
    assert cs[n] == buf;
    FilledNext(g, v, w, ino, |data|, cs, n, k, u, next);
    FillingFrom(g, v, u, data, next, src[chunk..], n + 1);
  }

  lemma FillingStep(g: Geo, v: Vol, w: Vol, data: Bytes, ino: Bytes, src: Bytes, n: nat, k: nat,
                    block: u32, buf: Bytes, chunk: nat, u: Vol, next: Bytes)
    requires Filling(g, v, w, data, ino, src, n) && src != [] && n < DIRECT && BlockPut(g, w, u, k, block, buf)
    requires chunk == Min(|src|, g.bs) && buf == src[..chunk] + Zeros(g.bs - chunk)
    requires next == Put(ino, 40 + 4 * n, Enc32(block))
    ensures Filling(g, v, u, data, next, src[chunk..], n + 1) && SameHead(next, ino)
  {
    FillingNext(g, v, w, data, ino, src, n, k, block, buf, chunk, u, next);
    SameHeadAll(ino);
    PutKeepsHead(ino, ino, 40 + 4 * n, Enc32(block));
  }

  lemma FillingParts(g: Geo, v: Vol, w: Vol, data: Bytes, ino: Bytes, src: Bytes, n: nat)
    requires Filling(g, v, w, data, ino, src, n)
    ensures g.bs > 0 && |data| < TWO32 && Wrote(g, v, w, ino, |data|, Chunks(data, g.bs), n)
    ensures n <= |Chunks(data, g.bs)| && Chunks(data, g.bs)[n..] == Chunks(src, g.bs) && OnDisk(g, w.d)
    ensures w.d[g.ib] == v.d[g.ib] && ClearBits(w.d[g.bb], g.bpg) == ClearBits(v.d[g.bb], g.bpg) - n
  {
    assert LookAtFilling(0);
  }

  lemma FillingFrom(g: Geo, v: Vol, w: Vol, data: Bytes, ino: Bytes, src: Bytes, n: nat)
    requires |ino| == INODE && OnDisk(g, v.d) && OnDisk(g, w.d) && g.bs > 0 && |data| < TWO32
    requires Wrote(g, v, w, ino, |data|, Chunks(data, g.bs), n)
    requires n <= |Chunks(data, g.bs)| && Chunks(data, g.bs)[n..] == Chunks(src, g.bs)
    requires w.d[g.ib] == v.d[g.ib] && ClearBits(w.d[g.bb], g.bpg) == ClearBits(v.d[g.bb], g.bpg) - n
    ensures Filling(g, v, w, data, ino, src, n)
  {
  }

  lemma FilledNext(g: Geo, v: Vol, w: Vol, ino: Bytes, size: u32, cs: seq<Bytes>, n: nat, k: nat,
                   u: Vol, next: Bytes)
    requires Wrote(g, v, w, ino, size, cs, n) && n < |cs| && n < DIRECT && |ino| == INODE
    requires Shape(g, w) && k < g.bpg && !Bit(w.d[g.bb], k) && g.sblk + k < |w.d| && |cs[n]| == g.bs
    requires u == BlockFilled(g, w, k, cs[n]) && next == Put(ino, 40 + 4 * n, Enc32(g.sblk + k))
    ensures Wrote(g, v, u, next, size, cs, n + 1) && OnDisk(g, u.d) && |next| == INODE
    ensures u.d[g.ib] == w.d[g.ib] && ClearBits(u.d[g.bb], g.bpg) == ClearBits(w.d[g.bb], g.bpg) - 1
  {
    assert LookAtWritten(0);
    WrittenNext(g, v, w, ino, size, cs, n, k);
    BlockFilledCount(g, w, k, cs[n]);
  }

  lemma BlockFilledCount(g: Geo, w: Vol, k: nat, b: Bytes)
    requires Sound(g, w) && k < g.bpg && !Bit(w.d[g.bb], k) && |b| == g.bs && g.sblk + k < |w.d|
    ensures var u := BlockFilled(g, w, k, b);
            u.d[g.ib] == w.d[g.ib] && ClearBits(u.d[g.bb], g.bpg) == ClearBits(w.d[g.bb], g.bpg) - 1
  {
    assert LookAtLayout(0);
    Unmarked(g, w, k);
    BlockTakenDisk(g, w, k);
    ClearBitsSet(w.d[g.bb], g.bpg, k);
  }

  lemma NextChunk(cs: seq<Bytes>, n: nat, src: Bytes, bs: nat, chunk: nat)
    requires bs > 0 && src != [] && n <= |cs| && cs[n..] == Chunks(src, bs) && chunk == Min(|src|, bs)
    ensures n < |cs| && cs[n] == src[..chunk] + Zeros(bs - chunk) && cs[n + 1..] == Chunks(src[chunk..], bs)
  {
    FirstChunk(src, bs);
    assert cs[n] == cs[n..][0] && cs[n + 1..] == cs[n..][1..];
  }

  /** The first chunk and the others. */
  lemma FirstChunk(src: Bytes, bs: nat)
    requires bs > 0 && src != []
    ensures var chunk := Min(|src|, bs);
            Chunks(src, bs) == [src[..chunk] + Zeros(bs - chunk)] + Chunks(src[chunk..], bs)
  {
    if |src| <= bs {
      assert src[..|src|] == src;
    } else {
      assert src[..bs] + Zeros(0) == src[..bs];
    }
  }

  /** `out` is what reading `len` bytes at `off` of inode `n` gives: the slice of its content,
      if no missing block has a present one after it; in any case all of the content, if
      that is asked for. */
  ghost predicate ReadsAt(g: Geo, d: Disk, n: nat, off: nat, len: nat, out: Bytes)
    requires OnDisk(g, d)
  {
    && 0 < n <= g.ipg
    && var ino := Inode(g, d, n);
       var bl := Mapped(d, g.bs, ino);
    && out == ReadAt(bl, g.bs, FileSize(ino), off, len)
    && (NoGap(bl, g.bs, FileSize(ino)) ==> out == Slice(Content(g, d, n), off, len))
    && (off == 0 && len >= FileSize(ino) ==> out == Content(g, d, n))
  }

  /** No read gives 2 GiB: an inode maps far fewer bytes. */
  lemma ReadFits(g: Geo, d: Disk, ino: Bytes, off: nat, len: nat)
    requires OnDisk(g, d) && |ino| == INODE
    ensures |ReadAt(Mapped(d, g.bs, ino), g.bs, FileSize(ino), off, len)| < TWO31
  {
    assert LookAtGeo(0);
    var bl := Mapped(d, g.bs, ino);
    if off < FileSize(ino) {
      ReadBound(bl, g.bs, 0, off, Min(FileSize(ino) - off, len));
      TotalIs(|bl|, g.bs);
    }
  }

  lemma RangeRead(g: Geo, d: Disk, n: nat, off: nat, len: nat)
    requires OnDisk(g, d) && 0 < n <= g.ipg
    ensures ReadsAt(g, d, n, off, len, ReadAt(Mapped(d, g.bs, Inode(g, d, n)), g.bs, FileSize(Inode(g, d, n)), off, len))
  {
    var ino := Inode(g, d, n);
    if NoGap(Mapped(d, g.bs, ino), g.bs, FileSize(ino)) {
      RangeOfWhole(Mapped(d, g.bs, ino), g.bs, FileSize(ino), off, len);
    }
  }

  lemma FoundInRange(g: Geo, v: Vol, name: Bytes)
    requires Consistent(g, v) && Lookup(Listing(g, v.d), name).Some?
    ensures 0 < Lookup(Listing(g, v.d), name).value <= g.ipg
  {
    LookupIn(Listing(g, v.d), name);
  }

  lemma InsertKeepsSize(b: Bytes, name: Bytes, n: u32, r: Bytes)
    requires Inserts(b, name, n, r)
    ensures |r| == |b| && Room(b, 0, Asked(|name|)) < |b|
  {
    assert LookAtInsert(0);
  }

  lemma GroupOf(n: nat, ipg: nat)
    requires n > 0 && ipg > 0
    ensures (n - 1) / ipg == 0 <==> n <= ipg
  {
    DivParts(n - 1, ipg);
  }

  /** What the driver reads of the geometry is the geometry. */
  lemma FieldsRead(g: Geo, v: Vol)
    requires Shape(g, v) && Recorded(g, v)
    ensures Get32(v.sb, 20) == g.sblk && Get32(v.sb, 32) == g.bpg && Get32(v.sb, 40) == g.ipg
    ensures var b := v.d[g.bgd][..32];
            Get32(b, 0) == g.bb && Get32(b, 4) == g.ib && Get32(b, 8) == g.table
  {
    assert LookAtFields(0);
  }
}
