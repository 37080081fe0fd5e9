/** Formatting the FAT32 partition, and what volume that leaves. */
module InstallerFormat {
  import opened Words
  import opened LittleEndian
  import opened Fat32Chain
  import opened Fat32Dir
  import opened Fat32Disk
  import opened InstallerBoot
  import opened Fat32Driver
  import opened Fat32Order
  import F = Fat32Free
  import L = InstallerLayout
  import V = Fat32Volume

  /** Sectors of each table that are cleared, at most. */
  const CLEARED := 8

  const MEDIA: u32 := 0x0FFF_FFF8
  const LAST: u32 := 0x0FFF_FFFF

  /** The first sector of the table: two reserved entries, and the root directory's end mark. */
  function FirstFat(): (b: Bytes)
    ensures |b| == SECTOR
  {
    Enc32(MEDIA) + Enc32(LAST) + Enc32(LAST) + Zeros(500)
  }

  /** The first sector of the root directory: the volume's label. */
  function FirstDir(tag: Bytes): (b: Bytes)
    requires |tag| == 11
    ensures |b| == SECTOR
  {
    tag + [ATTR_VOLUME_ID] + Zeros(500)
  }

  /** The information sector: how many clusters are free, and where to look first. */
  function FsInfo(clusters: u32): (b: Bytes)
    ensures |b| == SECTOR
  {
    Enc32(0x4161_5252) + Zeros(480) + Enc32(0x6141_7272) + Enc32(if clusters > 1 then clusters - 1 else 0)
    + Enc32(3) + Zeros(12) + Enc32(0xAA55_0000)
  }

  /** Its three signatures, the count and the hint. */
  lemma FsInfoIs(clusters: u32)
    requires clusters > 0
    ensures var b := FsInfo(clusters);
            && Get32(b, 0) == 0x4161_5252 && Get32(b, 484) == 0x6141_7272 && Get32(b, 508) == 0xAA55_0000
            && Get32(b, 488) == clusters - 1 && Get32(b, 492) == 3
  {
    var b := FsInfo(clusters);
    assert b[0..4] == Enc32(0x4161_5252);
    assert b[484..488] == Enc32(0x6141_7272);
    assert b[488..492] == Enc32(clusters - 1);
    assert b[492..496] == Enc32(3);
    assert b[508..512] == Enc32(0xAA55_0000);
    Enc32Get(b, 0, 0x4161_5252);
    Enc32Get(b, 484, 0x6141_7272);
    Enc32Get(b, 488, clusters - 1);
    Enc32Get(b, 492, 3);
    Enc32Get(b, 508, 0xAA55_0000);
  }

  /** What sector `i` of the partition holds afterwards. */
  function Formatted(d: Disk, p: L.Part, tag: Bytes, i: nat): Bytes
    requires i < |d| && |tag| == 11
  {
    var size := L.FatSize(p.count);
    var second, root := L.RESERVED + size, L.RESERVED + L.NUM_FATS * size;
    if i == 0 || i == 6 then BootSector(p.start, p.count, size, tag)
    else if i == 1 || i == 7 then FsInfo(L.Clusters(p.count))
    else if i == L.RESERVED || i == second then FirstFat()
    else if L.RESERVED < i < L.RESERVED + Min(size, CLEARED) || second < i < second + Min(size, CLEARED) then Zeros(SECTOR)
    else if i == root then FirstDir(tag)
    else if root < i < root + L.SPC then Zeros(SECTOR)
    else d[i]
  }

  /** Zeroes the sectors from `from` up to `upto`. */
  method ClearSectors(d: Disk, from: nat, upto: nat) returns (r: Disk)
    requires Sectors(d) && from <= upto <= |d|
    ensures |r| == |d| && Sectors(r)
    ensures forall i :: 0 <= i < |d| ==> r[i] == if from <= i < upto then Zeros(SECTOR) else d[i]
  {
    r := d;
    for s := from to upto
      invariant |r| == |d| && Sectors(r)
      invariant forall i :: 0 <= i < |d| ==> r[i] == if from <= i < s then Zeros(SECTOR) else d[i]
    {
      r := r[s := Zeros(SECTOR)];
    }
  }

  /** One copy of the table. */
  method ClearTable(d: Disk, lba: nat, size: nat) returns (r: Disk)
    requires Sectors(d) && 1 <= size && lba + size <= |d|
    ensures |r| == |d| && Sectors(r)
    ensures forall i :: 0 <= i < |d| ==>
              r[i] == if i == lba then FirstFat() else if lba < i < lba + Min(size, CLEARED) then Zeros(SECTOR) else d[i]
  {
    r := d[lba := FirstFat()];
    r := ClearSectors(r, lba + 1, lba + Min(size, CLEARED));
  }

  method FormatFat32(d: Disk, p: L.Part, tag: Bytes) returns (r: Disk)
    requires Sectors(d) && |tag| == 11 && L.RESERVED + L.NUM_FATS * L.FatSize(p.count) + L.SPC <= |d|
    ensures |r| == |d| && Sectors(r) && forall i :: 0 <= i < |d| ==> r[i] == Formatted(d, p, tag, i)
  {
    L.FatSizeIs(p.count);
    var size := L.FatSize(p.count);
    var boot, info := BootSector(p.start, p.count, size, tag), FsInfo(L.Clusters(p.count));
    r := d[0 := boot][6 := boot][1 := info][7 := info];
    r := ClearTable(r, L.RESERVED, size);
    r := ClearTable(r, L.RESERVED + size, size);
    var root := L.RESERVED + L.NUM_FATS * size;
    r := r[root := FirstDir(tag)];
    r := ClearSectors(r, root + 1, root + L.SPC);
  }

  // ---- what that leaves ----

  /** `r` is the partition `d` formatted, and its geometry one the driver can work on. */
  ghost predicate Fresh(d: Disk, r: Disk, p: L.Part, tag: Bytes) {
    && OnDisk(Installed(p.count), d) && OnDisk(Installed(p.count), r) && |r| == |d| && |tag| == 11
    && forall i :: 0 <= i < |d| ==> r[i] == Formatted(d, p, tag, i)
  }

  lemma FirstFatWords(c: nat)
    requires c < 128
    ensures Get32(FirstFat(), 4 * c) == if c == 0 then MEDIA else if c < 3 then LAST else 0
  {
    var b := FirstFat();
    if c < 3 {
      assert b[0..4] == Enc32(MEDIA) && b[4..8] == Enc32(LAST) && b[8..12] == Enc32(LAST);
      Enc32Get(b, 4 * c, if c == 0 then MEDIA else LAST);
    }
  }

  /** The table after formatting: its first 1024 entries are set, the others as they were. */
  lemma FreshWord(d: Disk, r: Disk, p: L.Part, tag: Bytes, copy: nat, c: nat)
    requires Fresh(d, r, p, tag) && copy < L.NUM_FATS && c < Installed(p.count).Entries()
    ensures FatWord(Installed(p.count), r, copy, c)
            == if c == 0 then MEDIA else if c < 3 then LAST else if c < CLEARED * 128 then 0
               else FatWord(Installed(p.count), d, copy, c)
  {
    var g := Installed(p.count);
    FatSectorInRange(g, |d|, copy, c);
    L.FatSizeIs(p.count);
    var i := g.FatSector(copy, c);
    assert i == L.RESERVED + copy * L.FatSize(p.count) + c * 4 / SECTOR;
    if c < 128 {
      FirstFatWords(c);
      assert c * 4 / SECTOR == 0 && EntOffset(c) == 4 * c;
    } else if c < CLEARED * 128 {
      assert 1 <= c * 4 / SECTOR < CLEARED;
    }
  }

  lemma {:induction false} ZeroSpan(r: Disk, lba: nat, n: nat, first: Bytes)
    requires 1 <= n && lba + n <= |r| && r[lba] == first && |first| == SECTOR
    requires forall i :: lba < i < lba + n ==> r[i] == Zeros(SECTOR)
    ensures Span(r, lba, n) == first + Zeros((n - 1) * SECTOR)
    decreases n
  {
    if n == 1 {
      assert Span(r, lba, 0) == [] && first + Zeros(0) == first;
    } else {
      ZeroSpan(r, lba, n - 1, first);
      assert Zeros((n - 2) * SECTOR) + Zeros(SECTOR) == Zeros((n - 1) * SECTOR);
    }
  }

  /** The root directory's cluster: the label, and end marks. */
  lemma FreshRoot(d: Disk, r: Disk, p: L.Part, tag: Bytes)
    requires Fresh(d, r, p, tag)
    ensures var b := ClusterBytes(Installed(p.count), r, ROOT_CLUSTER);
            |Slots(b)| == 128 && b == FirstDir(tag) + Zeros(7 * SECTOR)
  {
    var g := Installed(p.count);
    FreshDirectory(d, r, p, tag);
    ZeroSpan(r, g.Lba(ROOT_CLUSTER), L.SPC, FirstDir(tag));
  }

  lemma FreshDirectory(d: Disk, r: Disk, p: L.Part, tag: Bytes)
    requires Fresh(d, r, p, tag)
    ensures var lba := Installed(p.count).Lba(ROOT_CLUSTER);
            && lba + L.SPC <= |r| && r[lba] == FirstDir(tag)
            && forall i :: lba < i < lba + L.SPC ==> r[i] == Zeros(SECTOR)
  {
    LbaInRange(Installed(p.count), |d|, ROOT_CLUSTER);
    L.FatSizeIs(p.count);
  }

  lemma LabelOnly(tag: Bytes)
    requires |tag| == 11
    ensures var ss := Slots(FirstDir(tag) + Zeros(7 * SECTOR));
            && |ss| == 128 && AllSlots(ss) && !Live(ss[0]) && forall i :: 1 <= i < 128 ==> IsEnd(ss[i])
  {
    var b := FirstDir(tag) + Zeros(7 * SECTOR);
    assert Slots(b)[0][11] == b[11];
    forall i | 1 <= i < 128 ensures IsEnd(Slots(b)[i]) {
      assert Slots(b)[i][0] == b[SLOT * i];
    }
  }

  /** Whatever the disk held, the formatted volume is well formed and has no file. */
  lemma FreshIsEmpty(d: Disk, r: Disk, p: L.Part, tag: Bytes)
    requires Fresh(d, r, p, tag)
    ensures var v := View(Installed(p.count), r);
            V.WellFormed(v) && V.Root(v) == [ROOT_CLUSTER] && forall n: Bytes :: V.Read(v, n) == None
  {
    var v := View(Installed(p.count), r);
    FreshChain(d, r, p, tag);
    FreshRoot(d, r, p, tag);
    LabelIsEmpty(v, tag);
  }

  lemma FreshChain(d: Disk, r: Disk, p: L.Part, tag: Bytes)
    requires Fresh(d, r, p, tag)
    ensures var v := View(Installed(p.count), r);
            IsChain(v.fat, [ROOT_CLUSTER]) && V.Root(v) == [ROOT_CLUSTER]
  {
    var v := View(Installed(p.count), r);
    FreshWord(d, r, p, tag, 0, ROOT_CLUSTER);
    assert LAST % TWO28 == LAST;
    assert v.fat[ROOT_CLUSTER] == LAST;
    assert IsChain(v.fat, [ROOT_CLUSTER]);
    ChainIs(v.fat, [ROOT_CLUSTER]);
  }

  /** A volume whose root directory is one cluster with a label in it. */
  lemma LabelIsEmpty(v: V.Vol, tag: Bytes)
    requires V.Shape(v) && |v.fat| > ROOT_CLUSTER && |tag| == 11
    requires IsChain(v.fat, [ROOT_CLUSTER]) && V.Root(v) == [ROOT_CLUSTER]
    requires v.data[ROOT_CLUSTER] == FirstDir(tag) + Zeros(7 * SECTOR)
    ensures V.WellFormed(v) && forall n: Bytes :: V.Read(v, n) == None
  {
    LabelOnly(tag);
    OneClusterDir(v, FirstDir(tag) + Zeros(7 * SECTOR));
    NothingLive(v, V.Dir(v));
  }

  lemma NothingLive(v: V.Vol, ss: seq<Bytes>)
    requires V.Shape(v) && IsChain(v.fat, V.Root(v)) && ss == V.Dir(v)
    requires |ss| > 0 && !Live(ss[0]) && forall i :: 1 <= i < |ss| ==> IsEnd(ss[i])
    ensures V.WellFormed(v) && forall n: Bytes :: V.Read(v, n) == None
  {
    assert forall i :: 0 <= i < |ss| ==> !Live(ss[i]);
    assert Terminated(ss);
    forall n: Bytes ensures V.Read(v, n) == None {
      FindNone(ss, n);
    }
  }

  lemma OneClusterDir(v: V.Vol, b: Bytes)
    requires |v.data| == |v.fat| > ROOT_CLUSTER && V.Root(v) == [ROOT_CLUSTER] && v.data[ROOT_CLUSTER] == b
    ensures V.Dir(v) == Slots(b)
  {
    assert [ROOT_CLUSTER][..0] == [];
    assert V.DirSlots(v.data, []) + Slots(b) == Slots(b);
  }

  /** The entries from the 1024th up to `upto` were zero. */
  ghost predicate WasClear(g: Geo, d: Disk, upto: nat)
    requires OnDisk(g, d) && upto <= g.Entries()
  {
    forall c :: CLEARED * 128 <= c < upto ==> FatWord(g, d, 0, c) % TWO28 == 0
  }

  predicate Between(first: nat, c: nat, upto: nat) {
    first <= c < upto
  }

  ghost function After(first: nat, upto: nat): set<nat> {
    set c | 0 <= c < upto && Between(first, c, upto)
  }

  lemma {:induction false} AfterSize(first: nat, upto: nat)
    requires first <= upto
    ensures |After(first, upto)| == upto - first
    decreases upto - first
  {
    if first < upto {
      AfterSize(first, upto - 1);
      assert After(first, upto) == After(first, upto - 1) + {upto - 1};
    } else {
      assert After(first, upto) == {};
    }
  }

  lemma FreshInfo(d: Disk, r: Disk, p: L.Part, tag: Bytes)
    requires Fresh(d, r, p, tag)
    ensures |r| > 1 && |r[1]| == SECTOR && Get32(r[1], 488) == L.Clusters(p.count) - 1
  {
    LbaInRange(Installed(p.count), |d|, ROOT_CLUSTER);
    FsInfoIs(L.Clusters(p.count));
  }

  lemma FreshFree(d: Disk, r: Disk, p: L.Part, tag: Bytes, c: nat)
    requires Fresh(d, r, p, tag) && 2 <= c < Installed(p.count).Limit()
    ensures c in F.FreeSet(View(Installed(p.count), r).fat) <==>
            c > ROOT_CLUSTER && (c >= CLEARED * 128 ==> FatWord(Installed(p.count), d, 0, c) % TWO28 == 0)
  {
    FreshWord(d, r, p, tag, 0, c);
  }

  /** Every cluster but the root directory's is free, and the information sector's count true,
      exactly if the entries past the first eight sectors of the table were zero before. */
  lemma FreshIsFree(d: Disk, r: Disk, p: L.Part, tag: Bytes)
    requires Fresh(d, r, p, tag)
    ensures var g := Installed(p.count);
            var free := F.FreeSet(View(g, r).fat);
            && (free == After(3, g.Limit()) <==> WasClear(g, d, g.Limit()))
            && (|free| == L.Clusters(p.count) - 1 <==> WasClear(g, d, g.Limit()))
            && |r| > 1 && |r[1]| == SECTOR && (|free| == Get32(r[1], 488) <==> WasClear(g, d, g.Limit()))
  {
    var g := Installed(p.count);
    var free := F.FreeSet(View(g, r).fat);
    FreshInfo(d, r, p, tag);
    forall c | 2 <= c < g.Limit()
      ensures c in free <==> c > ROOT_CLUSTER && (c >= CLEARED * 128 ==> FatWord(g, d, 0, c) % TWO28 == 0)
    {
      FreshFree(d, r, p, tag, c);
    }
    AfterSize(3, g.Limit());
    if WasClear(g, d, g.Limit()) {
      assert free == After(3, g.Limit());
    } else {
      var c :| CLEARED * 128 <= c < g.Limit() && FatWord(g, d, 0, c) % TWO28 != 0;
      assert c in After(3, g.Limit()) && free <= After(3, g.Limit()) - {c};
      assert After(3, g.Limit()) - {c} == free + (After(3, g.Limit()) - {c} - free);
    }
  }

  lemma FreshAgrees(d: Disk, r: Disk, p: L.Part, tag: Bytes, copy: nat, c: nat)
    requires Fresh(d, r, p, tag) && copy < L.NUM_FATS && c < Installed(p.count).Entries()
    ensures var g := Installed(p.count);
            Agrees(g, r, copy, c) <==> copy == 0 || c < CLEARED * 128 || Agrees(g, d, copy, c)
  {
    FreshWord(d, r, p, tag, 0, c);
    FreshWord(d, r, p, tag, copy, c);
  }

  /** The copies of the table agree exactly if they did past their first eight sectors. */
  lemma FreshIsMirrored(d: Disk, r: Disk, p: L.Part, tag: Bytes)
    requires Fresh(d, r, p, tag)
    ensures var g := Installed(p.count);
            Mirrored(g, r) <==> forall c :: CLEARED * 128 <= c < g.Entries() ==> Agrees(g, d, 1, c)
  {
    var g := Installed(p.count);
    forall copy, c | 0 <= copy < L.NUM_FATS && 0 <= c < g.Entries()
      ensures Agrees(g, r, copy, c) <==> copy == 0 || c < CLEARED * 128 || Agrees(g, d, copy, c)
    {
      FreshAgrees(d, r, p, tag, copy, c);
    }
    assert forall c :: 0 <= c < g.Entries() ==> (Agrees(g, r, 1, c) <==> c < CLEARED * 128 || Agrees(g, d, 1, c));
  }

  /** Formatting and mounting: the driver starts on a well-formed volume without files. If the
      table was clear before, files can be written in the volume up to its last cluster. */
  method InstallAndMount(d: Disk, p: L.Part, tag: Bytes) returns (driver: Driver)
    requires OnDisk(Installed(p.count), d) && |tag| == 11
    ensures fresh(driver) && driver.Valid() && driver.mounted && driver.g == Installed(p.count)
    ensures V.WellFormed(driver.vol) && forall n: Bytes :: V.Read(driver.vol, n) == None
    ensures WasClear(driver.g, d, driver.g.Limit()) ==>
              |F.FreeSet(driver.vol.fat)| == L.Clusters(p.count) - 1 && driver.Roomy(L.Clusters(p.count) - 1)
  {
    var g := Installed(p.count);
    LbaInRange(g, |d|, ROOT_CLUSTER);
    var r := FormatFat32(d, p, tag);
    FreshIsEmpty(d, r, p, tag);
    FreshIsFree(d, r, p, tag);
    InstalledVolumeMounts(p, tag);
    driver := new Driver(r, L.Clusters(p.count));
    FreeSplits(driver.vol.fat, driver.rest);
  }
}
