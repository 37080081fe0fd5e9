/** Where a FAT32 volume lives on the disk: table entries inside FAT sectors, every copy of
    them, and clusters as runs of sectors. */
module Fat32Disk {
  import opened Words
  import opened LittleEndian
  import opened Fat32Chain
  import opened Fat32Dir
  import opened Fat32Volume

  const SECTOR := 512
  const MAX_CLUSTER_SECTORS := 64

  type Disk = seq<Bytes>

  /** The mounted geometry: sectors per cluster, first FAT sector, sectors per FAT copy,
      copies, first cluster of the root directory. The driver does not know the last part, the
      number of data clusters the volume has. */
  datatype Geo = Geo(spc: nat, fatStart: nat, fatSize: nat, numFats: nat, root: nat, clusters: nat) {
    function DataStart(): nat {
      fatStart + numFats * fatSize
    }

    /** The sector after the last cluster. */
    function End(): nat {
      DataStart() + clusters * spc
    }

    /** Table entries, the bound of the free-cluster scan. */
    function Entries(): nat {
      fatSize * SECTOR / 4
    }

    /** The entries that stand for clusters of the volume come before this one. */
    function Limit(): nat {
      clusters + 2
    }

    function Lba(c: nat): nat
      requires c >= 2
    {
      DataStart() + (c - 2) * spc
    }

    /** The sector of copy `copy` that holds entry `c`. */
    function FatSector(copy: nat, c: nat): nat {
      fatStart + copy * fatSize + c * 4 / SECTOR
    }
  }

  function EntOffset(c: nat): (o: nat)
    ensures o + 4 <= SECTOR
  {
    c * 4 % SECTOR
  }

  /** The boot sector's parameters, where they are ones the driver mounts. */
  function GeoOf(boot: Bytes, clusters: nat): Option<Geo>
    requires |boot| == SECTOR
  {
    if Get16(boot, 11) != SECTOR || Get16(boot, 22) != 0 || Get32(boot, 36) == 0 || Get16(boot, 17) != 0
       || boot[13] == 0 || boot[13] > MAX_CLUSTER_SECTORS then None
    else Some(Geo(boot[13] as int, Get16(boot, 14), Get32(boot, 36), boot[16] as int, Get32(boot, 44), clusters))
  }

  /** The boot sector's parameters from byte 11 on. */
  datatype Bpb = Bpb(
    bytesPerSector: u16, sectorsPerCluster: u8, reserved: u16, fats: u8, rootEntries: u16, total16: u16, media: u8,
    fatSize16: u16, sectorsPerTrack: u16, heads: u16, hidden: u32, total32: u32, fatSize32: u32, flags: u16, version: u16,
    root: u32)
  {
    function Head(): (b: Bytes)
      ensures |b| == 13
    {
      Enc16(bytesPerSector) + [sectorsPerCluster] + Enc16(reserved) + [fats] + Enc16(rootEntries) + Enc16(total16) + [media]
      + Enc16(fatSize16)
    }

    function Tail(): (b: Bytes)
      ensures |b| == 24
    {
      Enc16(sectorsPerTrack) + Enc16(heads) + Enc32(hidden) + Enc32(total32) + Enc32(fatSize32) + Enc16(flags) + Enc16(version)
      + Enc32(root)
    }
  }

  lemma HeadRead(boot: Bytes, p: Bpb)
    requires |boot| == SECTOR && boot[11..24] == p.Head()
    ensures Get16(boot, 11) == p.bytesPerSector && boot[13] == p.sectorsPerCluster && Get16(boot, 14) == p.reserved
    ensures boot[16] == p.fats && Get16(boot, 17) == p.rootEntries && Get16(boot, 22) == p.fatSize16
  {
    var h := p.Head();
    assert h[0] == Enc16(p.bytesPerSector)[0] && h[1] == Enc16(p.bytesPerSector)[1];
    assert h[3] == Enc16(p.reserved)[0] && h[4] == Enc16(p.reserved)[1];
    assert h[6] == Enc16(p.rootEntries)[0] && h[7] == Enc16(p.rootEntries)[1];
    assert h[11] == Enc16(p.fatSize16)[0] && h[12] == Enc16(p.fatSize16)[1];
    assert h[0..2] == Enc16(p.bytesPerSector);
    assert h[3..5] == Enc16(p.reserved);
    assert h[6..8] == Enc16(p.rootEntries);
    assert h[11..13] == Enc16(p.fatSize16);
    SubSlice(boot, 11, 24, 0, 2);
    SubSlice(boot, 11, 24, 3, 5);
    SubSlice(boot, 11, 24, 6, 8);
    SubSlice(boot, 11, 24, 11, 13);
    Enc16Get(boot, 11, p.bytesPerSector);
    Enc16Get(boot, 14, p.reserved);
    Enc16Get(boot, 17, p.rootEntries);
    Enc16Get(boot, 22, p.fatSize16);
    assert boot[13] == boot[11..24][2] && boot[16] == boot[11..24][5];
  }

  lemma TailRead(boot: Bytes, p: Bpb)
    requires |boot| == SECTOR && boot[24..48] == p.Tail()
    ensures Get32(boot, 36) == p.fatSize32 && Get32(boot, 44) == p.root
  {
    var h := p.Tail();
    assert h[12..16] == Enc32(p.fatSize32) && h[20..24] == Enc32(p.root);
    SubSlice(boot, 24, 48, 12, 16);
    SubSlice(boot, 24, 48, 20, 24);
    Enc32Get(boot, 36, p.fatSize32);
    Enc32Get(boot, 44, p.root);
  }

  /** What is mounted: sectors of 512 bytes, no 16-bit table size and no fixed root directory but
      a 32-bit table size, and clusters of 1 to 64 sectors. */
  lemma MountsExactly(boot: Bytes, p: Bpb, clusters: nat)
    requires |boot| == SECTOR && boot[11..24] == p.Head() && boot[24..48] == p.Tail()
    ensures GeoOf(boot, clusters) ==
            if p.bytesPerSector == 512 && p.fatSize16 == 0 && p.rootEntries == 0 && p.fatSize32 > 0 && 1 <= p.sectorsPerCluster <= 64
            then Some(Geo(p.sectorsPerCluster, p.reserved, p.fatSize32, p.fats, p.root, clusters)) else None
  {
    HeadRead(boot, p);
    TailRead(boot, p);
  }

  /** Every cluster has an entry, though there may be more entries than clusters, and the
      clusters end on the disk, whose sectors have 32-bit numbers. */
  ghost predicate GeoOk(g: Geo, sectors: nat) {
    && 1 <= g.spc <= MAX_CLUSTER_SECTORS && g.numFats >= 1 && g.fatSize >= 1
    && g.Limit() <= g.Entries() <= EOC && 2 <= g.root < g.Limit()
    && g.End() <= sectors <= TWO32
  }

  ghost predicate Sectors(d: Disk) {
    forall i :: 0 <= i < |d| ==> |d[i]| == SECTOR
  }

  ghost predicate OnDisk(g: Geo, d: Disk) {
    GeoOk(g, |d|) && Sectors(d)
  }

  /** Reading `n` sectors from `lba`. */
  function Span(d: Disk, lba: nat, n: nat): (b: Bytes)
    requires lba + n <= |d|
  {
    if n == 0 then [] else Span(d, lba, n - 1) + d[lba + n - 1]
  }

  /** Writing `n` sectors at `lba`. */
  function Written(d: Disk, lba: nat, n: nat, buf: Bytes): (r: Disk)
    requires lba + n <= |d| && |buf| == n * SECTOR
    ensures |r| == |d|
    ensures forall i :: 0 <= i < |d| ==>
              r[i] == if lba <= i < lba + n then buf[(i - lba) * SECTOR..(i - lba) * SECTOR + SECTOR] else d[i]
  {
    seq(|d|, i requires 0 <= i < |d| =>
      if lba <= i < lba + n then buf[(i - lba) * SECTOR..(i - lba) * SECTOR + SECTOR] else d[i])
  }

  lemma TablesFirst(g: Geo)
    ensures g.fatStart <= g.DataStart() <= g.End()
  {
    BlocksApart(0, g.numFats + 1, g.fatSize);
    BlocksApart(0, g.clusters + 1, g.spc);
  }

  lemma FatSectorInRange(g: Geo, sectors: nat, copy: nat, c: nat)
    requires GeoOk(g, sectors) && copy < g.numFats && c < g.Entries()
    ensures c * 4 / SECTOR < g.fatSize && g.fatStart <= g.FatSector(copy, c) < g.DataStart() <= sectors
  {
    BlocksApart(copy, g.numFats, g.fatSize);
    BlocksApart(0, copy + 1, g.fatSize);
    TablesFirst(g);
  }

  lemma LbaInRange(g: Geo, sectors: nat, c: nat)
    requires GeoOk(g, sectors) && 2 <= c < g.Limit()
    ensures g.fatStart <= g.DataStart() <= g.Lba(c) && g.Lba(c) + g.spc <= g.End() <= sectors
  {
    BlocksApart(c - 2, g.clusters, g.spc);
    BlocksApart(0, c - 1, g.spc);
    TablesFirst(g);
  }

  function FatWord(g: Geo, d: Disk, copy: nat, c: nat): u32
    requires OnDisk(g, d) && copy < g.numFats && c < g.Entries()
  {
    FatSectorInRange(g, |d|, copy, c);
    Get32(d[g.FatSector(copy, c)], EntOffset(c))
  }

  function ClusterBytes(g: Geo, d: Disk, c: nat): (b: Bytes)
    requires OnDisk(g, d) && 2 <= c < g.Limit()
    ensures |b| == g.spc * SECTOR
  {
    LbaInRange(g, |d|, c);
    SpanLength(d, g.Lba(c), g.spc);
    Span(d, g.Lba(c), g.spc)
  }

  lemma {:induction false} SpanLength(d: Disk, lba: nat, n: nat)
    requires lba + n <= |d| && Sectors(d)
    ensures |Span(d, lba, n)| == n * SECTOR
  {
    if n > 0 {
      SpanLength(d, lba, n - 1);
    }
  }

  /** A copy of the table agrees with the first one, in the low 28 bits of an entry. */
  predicate Agrees(g: Geo, d: Disk, copy: nat, c: nat)
    requires OnDisk(g, d) && copy < g.numFats && c < g.Entries()
  {
    FatWord(g, d, copy, c) % TWO28 == FatWord(g, d, 0, c) % TWO28
  }

  /** The copies of the table agree. */
  ghost predicate Mirrored(g: Geo, d: Disk)
    requires OnDisk(g, d)
  {
    forall copy, c :: 0 <= copy < g.numFats && 0 <= c < g.Entries() ==> Agrees(g, d, copy, c)
  }

  function Table(g: Geo, d: Disk): (t: seq<nat>)
    requires OnDisk(g, d)
    ensures |t| == g.Entries()
    ensures forall c :: 0 <= c < |t| ==> t[c] == FatWord(g, d, 0, c) % TWO28
  {
    seq(g.Entries(), c requires 0 <= c < g.Entries() => FatWord(g, d, 0, c) % TWO28)
  }

  function DataArea(g: Geo, d: Disk): (t: seq<Bytes>)
    requires OnDisk(g, d)
    ensures |t| == g.Limit()
    ensures forall c :: 2 <= c < |t| ==> t[c] == ClusterBytes(g, d, c)
  {
    seq(g.Limit(), c requires 0 <= c < g.Limit() => if c < 2 then [] else ClusterBytes(g, d, c))
  }

  lemma WholeSlots(spc: nat)
    ensures spc * SECTOR % SLOT == 0
  {
    assert spc * SECTOR == spc * 16 * SLOT;
  }

  /** The volume a disk holds: its clusters and their part of the table. */
  function View(g: Geo, d: Disk): (v: Vol)
    requires OnDisk(g, d)
    ensures |v.fat| == |v.data| == g.Limit() && v.cb == g.spc * SECTOR && v.root == g.root
    ensures Shape(v)
  {
    WholeSlots(g.spc);
    Vol(g.root, g.spc * SECTOR, Table(g, d)[..g.Limit()], DataArea(g, d))
  }

  /** The entries of the table that no cluster belongs to. */
  function Rest(g: Geo, d: Disk): (t: seq<nat>)
    requires OnDisk(g, d)
  {
    Table(g, d)[g.Limit()..]
  }

  // ---- storing a table entry ----

  /** The reserved top four bits stay, the low 28 are replaced. */
  function Merge(existing: u32, value: nat): u32 {
    existing / TWO28 * TWO28 + value % TWO28
  }

  /** Entry `c` of copy `copy` rewritten in its sector. */
  function Stored(g: Geo, d: Disk, copy: nat, c: nat, value: nat): (r: Disk)
    requires OnDisk(g, d) && copy < g.numFats && c < g.Entries()
    ensures |r| == |d| && OnDisk(g, r)
  {
    FatSectorInRange(g, |d|, copy, c);
    var s := g.FatSector(copy, c);
    d[s := Put(d[s], EntOffset(c), Enc32(Merge(FatWord(g, d, copy, c), value)))]
  }

  lemma SameSector(g: Geo, sectors: nat, copy: nat, c: nat, copy': nat, c': nat)
    requires GeoOk(g, sectors) && copy < g.numFats && c < g.Entries() && copy' < g.numFats && c' < g.Entries()
    requires g.FatSector(copy, c) == g.FatSector(copy', c')
    ensures copy == copy' && (c != c' ==> EntOffset(c) + 4 <= EntOffset(c') || EntOffset(c') + 4 <= EntOffset(c))
  {
    FatSectorInRange(g, sectors, copy, c);
    FatSectorInRange(g, sectors, copy', c');
    if copy < copy' {
      BlocksApart(copy, copy', g.fatSize);
    } else if copy' < copy {
      BlocksApart(copy', copy, g.fatSize);
    }
  }

  /** Storing an entry changes that entry of that copy, keeps its reserved bits, and
      touches no other entry. */
  lemma StoredEffect(g: Geo, d: Disk, copy: nat, c: nat, value: nat, copy': nat, c': nat)
    requires OnDisk(g, d) && copy < g.numFats && c < g.Entries() && copy' < g.numFats && c' < g.Entries()
    ensures FatWord(g, Stored(g, d, copy, c, value), copy', c')
            == if copy == copy' && c == c' then Merge(FatWord(g, d, copy, c), value) else FatWord(g, d, copy', c')
  {
    var s, s' := g.FatSector(copy, c), g.FatSector(copy', c');
    FatSectorInRange(g, |d|, copy, c);
    FatSectorInRange(g, |d|, copy', c');
    PutGet32(d[s], EntOffset(c), Merge(FatWord(g, d, copy, c), value));
    if s == s' {
      SameSector(g, |d|, copy, c, copy', c');
    }
  }

  lemma {:induction false} SpanFrame(d: Disk, d': Disk, lba: nat, n: nat)
    requires |d| == |d'| && lba + n <= |d| && forall i :: lba <= i < lba + n ==> d'[i] == d[i]
    ensures Span(d', lba, n) == Span(d, lba, n)
  {
    if n > 0 {
      SpanFrame(d, d', lba, n - 1);
    }
  }

  // ---- storing a cluster ----

  function ClusterStored(g: Geo, d: Disk, c: nat, buf: Bytes): (r: Disk)
    requires OnDisk(g, d) && 2 <= c < g.Limit() && |buf| == g.spc * SECTOR
    ensures OnDisk(g, r) && |r| == |d|
  {
    LbaInRange(g, |d|, c);
    Written(d, g.Lba(c), g.spc, buf)
  }

  lemma {:induction false} SpanWritten(d: Disk, lba: nat, n: nat, buf: Bytes, k: nat)
    requires lba + n <= |d| && |buf| == n * SECTOR && k <= n
    ensures Span(Written(d, lba, n, buf), lba, k) == buf[..k * SECTOR]
    decreases k
  {
    if k > 0 {
      SpanWritten(d, lba, n, buf, k - 1);
      var a, b := (k - 1) * SECTOR, k * SECTOR;
      assert Written(d, lba, n, buf)[lba + k - 1] == buf[a..b];
      Joined(buf, a, b);
    }
  }

  lemma Joined(buf: Bytes, a: nat, b: nat)
    requires a <= b <= |buf|
    ensures buf[..a] + buf[a..b] == buf[..b]
  {
  }

  lemma ClusterStoredEffect(g: Geo, d: Disk, c: nat, buf: Bytes, x: nat)
    requires OnDisk(g, d) && 2 <= c < g.Limit() && |buf| == g.spc * SECTOR && 2 <= x < g.Limit()
    ensures ClusterBytes(g, ClusterStored(g, d, c, buf), x) == if x == c then buf else ClusterBytes(g, d, x)
  {
    LbaInRange(g, |d|, c);
    LbaInRange(g, |d|, x);
    if x == c {
      SpanWritten(d, g.Lba(c), g.spc, buf, g.spc);
      assert buf[..g.spc * SECTOR] == buf;
    } else {
      ClustersApart(g, c, x);
      SpanFrame(d, ClusterStored(g, d, c, buf), g.Lba(x), g.spc);
    }
  }

  lemma ClustersApart(g: Geo, c: nat, x: nat)
    requires 2 <= c && 2 <= x && c != x
    ensures g.Lba(x) + g.spc <= g.Lba(c) || g.Lba(c) + g.spc <= g.Lba(x)
  {
    if x < c {
      BlocksApart(x - 2, c - 2, g.spc);
    } else {
      BlocksApart(c - 2, x - 2, g.spc);
    }
  }

  lemma ClusterStoredTable(g: Geo, d: Disk, c: nat, buf: Bytes, copy: nat, x: nat)
    requires OnDisk(g, d) && 2 <= c < g.Limit() && |buf| == g.spc * SECTOR
    requires copy < g.numFats && x < g.Entries()
    ensures FatWord(g, ClusterStored(g, d, c, buf), copy, x) == FatWord(g, d, copy, x)
  {
    LbaInRange(g, |d|, c);
    FatSectorInRange(g, |d|, copy, x);
  }

  lemma ClusterStoredWords(g: Geo, d: Disk, c: nat, buf: Bytes)
    requires OnDisk(g, d) && 2 <= c < g.Limit() && |buf| == g.spc * SECTOR
    ensures forall copy, x :: 0 <= copy < g.numFats && 0 <= x < g.Entries() ==>
              FatWord(g, ClusterStored(g, d, c, buf), copy, x) == FatWord(g, d, copy, x)
  {
    forall copy, x | 0 <= copy < g.numFats && 0 <= x < g.Entries()
      ensures FatWord(g, ClusterStored(g, d, c, buf), copy, x) == FatWord(g, d, copy, x)
    {
      ClusterStoredTable(g, d, c, buf, copy, x);
    }
  }

  /** Writing a cluster changes that cluster of the volume and nothing else. */
  lemma WriteClusterView(g: Geo, d: Disk, c: nat, buf: Bytes)
    requires OnDisk(g, d) && 2 <= c < g.Limit() && |buf| == g.spc * SECTOR
    ensures var r := ClusterStored(g, d, c, buf);
            && Table(g, r) == Table(g, d)
            && DataArea(g, r) == DataArea(g, d)[c := buf]
  {
    var r := ClusterStored(g, d, c, buf);
    ClusterStoredWords(g, d, c, buf);
    forall x | 2 <= x < g.Limit() ensures DataArea(g, r)[x] == DataArea(g, d)[c := buf][x] {
      ClusterStoredEffect(g, d, c, buf, x);
    }
    assert DataArea(g, r)[0] == DataArea(g, d)[0];
    assert DataArea(g, r)[1] == DataArea(g, d)[1];
  }

  // ---- storing an entry in every copy ----

  /** The first `n` copies of entry `c` carry `value`; outside the tables nothing changed. */
  ghost predicate PartlyStored(g: Geo, d: Disk, d': Disk, c: nat, value: nat, n: nat)
    requires OnDisk(g, d)
  {
    && |d'| == |d| && OnDisk(g, d')
    && (forall copy, x :: 0 <= copy < g.numFats && 0 <= x < g.Entries() ==>
          FatWord(g, d', copy, x)
          == if copy < n && x == c then Merge(FatWord(g, d, copy, c), value) else FatWord(g, d, copy, x))
    && (forall i :: 0 <= i < |d| && !(g.fatStart <= i < g.DataStart()) ==> d'[i] == d[i])
  }

  lemma StoreNextCopy(g: Geo, d: Disk, d': Disk, c: nat, value: nat, n: nat)
    requires OnDisk(g, d) && c < g.Entries() && n < g.numFats && PartlyStored(g, d, d', c, value, n)
    ensures PartlyStored(g, d, Stored(g, d', n, c, value), c, value, n + 1)
  {
    var e := Stored(g, d', n, c, value);
    StoredOutside(g, d', n, c, value);
    forall copy, x | 0 <= copy < g.numFats && 0 <= x < g.Entries()
      ensures FatWord(g, e, copy, x)
              == if copy < n + 1 && x == c then Merge(FatWord(g, d, copy, c), value) else FatWord(g, d, copy, x)
    {
      StoredEffect(g, d', n, c, value, copy, x);
    }
  }

  lemma StoredOutside(g: Geo, d: Disk, copy: nat, c: nat, value: nat)
    requires OnDisk(g, d) && copy < g.numFats && c < g.Entries()
    ensures forall i :: 0 <= i < |d| && !(g.fatStart <= i < g.DataStart()) ==> Stored(g, d, copy, c, value)[i] == d[i]
  {
    FatSectorInRange(g, |d|, copy, c);
  }

  lemma MergeLow(existing: u32, value: nat)
    ensures Merge(existing, value) % TWO28 == value % TWO28
    ensures Merge(existing, value) / TWO28 == existing / TWO28
  {
  }

  /** Once every copy is written, entry `c` of the table is `value` and nothing else has
      changed. */
  lemma StoredView(g: Geo, d: Disk, d': Disk, c: nat, value: nat)
    requires OnDisk(g, d) && c < g.Entries() && PartlyStored(g, d, d', c, value, g.numFats)
    ensures Table(g, d') == Table(g, d)[c := value % TWO28] && DataArea(g, d') == DataArea(g, d)
  {
    MergeLow(FatWord(g, d, 0, c), value);
    SameData(g, d, d');
  }

  lemma SameData(g: Geo, d: Disk, d': Disk)
    requires OnDisk(g, d) && OnDisk(g, d') && |d'| == |d|
    requires forall i :: g.DataStart() <= i < |d| ==> d'[i] == d[i]
    ensures DataArea(g, d') == DataArea(g, d)
  {
    forall x | 2 <= x < g.Limit() ensures ClusterBytes(g, d', x) == ClusterBytes(g, d, x) {
      LbaInRange(g, |d|, x);
      SpanFrame(d, d', g.Lba(x), g.spc);
    }
  }

  // ---- the volume behind a disk ----

  /** `Holds`, `Kept`, `InStep` and `EveryCopy` are unfolded where `LookAtDisk(0)` is asserted and nowhere else: they
      are kept out of the proofs that do not need to look inside. */
  predicate LookAtDisk(k: int) {
    true
  }

  /** The disk holds `v`, with `rest` as the table's other entries. */
  ghost predicate Holds(g: Geo, d: Disk, v: Vol, rest: seq<nat>) {
    forall k: int :: LookAtDisk(k) ==> OnDisk(g, d) && v == View(g, d) && rest == Rest(g, d)
  }

  lemma HoldsShape(g: Geo, d: Disk, v: Vol, rest: seq<nat>)
    requires Holds(g, d, v, rest)
    ensures OnDisk(g, d) && Shape(v)
    ensures |v.fat| == g.Limit() && |v.fat| + |rest| == g.Entries() <= EOC
    ensures v.cb == g.spc * SECTOR && v.root == g.root && 1 <= g.spc <= MAX_CLUSTER_SECTORS
  {
    assert LookAtDisk(0);
  }

  lemma HoldsWord(g: Geo, d: Disk, v: Vol, rest: seq<nat>, c: nat)
    requires Holds(g, d, v, rest) && c < |v.fat + rest|
    ensures OnDisk(g, d) && c < g.Entries() && FatWord(g, d, 0, c) % TWO28 == (v.fat + rest)[c]
  {
    assert LookAtDisk(0);
  }

  lemma HoldsCluster(g: Geo, d: Disk, v: Vol, rest: seq<nat>, c: nat)
    requires Holds(g, d, v, rest) && 2 <= c < |v.fat|
    ensures OnDisk(g, d) && 2 <= c < g.Limit() && c < |v.data| && ClusterBytes(g, d, c) == v.data[c]
  {
    assert LookAtDisk(0);
  }

  /** Storing an entry in every copy is one update of the table. */
  lemma StoredHolds(g: Geo, d: Disk, d': Disk, v: Vol, rest: seq<nat>, c: nat, value: nat)
    requires Holds(g, d, v, rest) && OnDisk(g, d) && c < |v.fat + rest| && value < TWO28
    requires PartlyStored(g, d, d', c, value, g.numFats)
    ensures var n := |v.fat|;
            if c < n then Holds(g, d', v.(fat := v.fat[c := value]), rest)
            else Holds(g, d', v, rest[c - n := value])
  {
    assert LookAtDisk(0);
    StoredView(g, d, d', c, value);
    assert value % TWO28 == value;
    TakeUpdate(Table(g, d), c, value, g.Limit());
  }

  lemma TakeUpdate(t: seq<nat>, c: nat, value: nat, n: nat)
    requires c < |t| && n <= |t|
    ensures t[c := value][..n] == if c < n then t[..n][c := value] else t[..n]
    ensures t[c := value][n..] == if c < n then t[n..] else t[n..][c - n := value]
  {
  }

  lemma ClusterStoredHolds(g: Geo, d: Disk, v: Vol, rest: seq<nat>, c: nat, buf: Bytes)
    requires Holds(g, d, v, rest) && OnDisk(g, d) && 2 <= c < |v.fat| == |v.data| == g.Limit() && |buf| == g.spc * SECTOR
    ensures Holds(g, ClusterStored(g, d, c, buf), v.(data := v.data[c := buf]), rest)
  {
    assert LookAtDisk(0);
    WriteClusterView(g, d, c, buf);
  }

  // ---- what lies around the volume ----

  /** The sectors before the tables and after the clusters are the same, and so are the
      reserved bits of every entry. */
  ghost predicate SameAround(g: Geo, d: Disk, d': Disk) {
    && OnDisk(g, d) && OnDisk(g, d') && |d'| == |d|
    && (forall i :: 0 <= i < |d| && !(g.fatStart <= i < g.End()) ==> d'[i] == d[i])
    && (forall copy, c :: 0 <= copy < g.numFats && 0 <= c < g.Entries() ==>
          FatWord(g, d', copy, c) / TWO28 == FatWord(g, d, copy, c) / TWO28)
  }

  ghost predicate Kept(g: Geo, d: Disk, d': Disk) {
    forall k: int :: LookAtDisk(k) ==> SameAround(g, d, d')
  }

  /** Two disks that both keep what was around the volume keep each other's. */
  lemma KeptBoth(g: Geo, base: Disk, d: Disk, d': Disk)
    requires Kept(g, base, d) && Kept(g, base, d')
    ensures Kept(g, d, d')
  {
    assert LookAtDisk(0);
  }

  lemma KeptSelf(g: Geo, d: Disk)
    requires OnDisk(g, d)
    ensures Kept(g, d, d)
  {
  }

  lemma StoredKept(g: Geo, base: Disk, d: Disk, d': Disk, c: nat, value: nat)
    requires OnDisk(g, d) && c < g.Entries() && PartlyStored(g, d, d', c, value, g.numFats) && Kept(g, base, d)
    ensures Kept(g, base, d')
  {
    assert LookAtDisk(0);
    TablesFirst(g);
    forall copy | 0 <= copy < g.numFats ensures FatWord(g, d', copy, c) / TWO28 == FatWord(g, d, copy, c) / TWO28 {
      MergeLow(FatWord(g, d, copy, c), value);
    }
  }

  lemma ClusterStoredKept(g: Geo, base: Disk, d: Disk, c: nat, buf: Bytes)
    requires OnDisk(g, d) && 2 <= c < g.Limit() && |buf| == g.spc * SECTOR && Kept(g, base, d)
    ensures Kept(g, base, ClusterStored(g, d, c, buf))
  {
    assert LookAtDisk(0);
    ClusterStoredWords(g, d, c, buf);
    LbaInRange(g, |d|, c);
  }

  // ---- the copies of the table ----

  /** Where the copies agreed on `base`, they do on `d`. */
  ghost predicate InStep(g: Geo, base: Disk, d: Disk) {
    forall k: int :: LookAtDisk(k) ==>
      && OnDisk(g, base) && OnDisk(g, d)
      && forall copy, c :: 0 <= copy < g.numFats && 0 <= c < g.Entries() && Agrees(g, base, copy, c) ==> Agrees(g, d, copy, c)
  }

  /** So if all of them agreed, all do. */
  lemma StaysMirrored(g: Geo, base: Disk, d: Disk)
    requires InStep(g, base, d) && OnDisk(g, base) && Mirrored(g, base)
    ensures OnDisk(g, d) && Mirrored(g, d)
  {
    assert LookAtDisk(0);
  }

  /** All copies agree on entry `c`. */
  ghost predicate EveryCopy(g: Geo, d: Disk, c: nat) {
    forall k: int :: LookAtDisk(k) ==>
      OnDisk(g, d) && c < g.Entries() && forall copy :: 0 <= copy < g.numFats ==> Agrees(g, d, copy, c)
  }

  lemma StoredEverywhere(g: Geo, d: Disk, d': Disk, c: nat, value: nat)
    requires OnDisk(g, d) && c < g.Entries() && PartlyStored(g, d, d', c, value, g.numFats)
    ensures EveryCopy(g, d', c)
  {
    forall copy | 0 <= copy < g.numFats ensures Agrees(g, d', copy, c) {
      MergeLow(FatWord(g, d, copy, c), value);
      MergeLow(FatWord(g, d, 0, c), value);
    }
  }

  lemma StoredInStep(g: Geo, base: Disk, d: Disk, d': Disk, c: nat, value: nat)
    requires OnDisk(g, d) && c < g.Entries() && PartlyStored(g, d, d', c, value, g.numFats) && InStep(g, base, d)
    ensures InStep(g, base, d')
  {
    assert LookAtDisk(0);
    StoredEverywhere(g, d, d', c, value);
    forall copy, x | 0 <= copy < g.numFats && 0 <= x < g.Entries() && Agrees(g, base, copy, x) ensures Agrees(g, d', copy, x) {
      assert Agrees(g, d, copy, x);
    }
  }

  lemma ClusterStoredInStep(g: Geo, base: Disk, d: Disk, c: nat, buf: Bytes)
    requires OnDisk(g, d) && 2 <= c < g.Limit() && |buf| == g.spc * SECTOR && InStep(g, base, d)
    ensures InStep(g, base, ClusterStored(g, d, c, buf))
  {
    assert LookAtDisk(0);
    var r := ClusterStored(g, d, c, buf);
    ClusterStoredWords(g, d, c, buf);
    forall copy, x | 0 <= copy < g.numFats && 0 <= x < g.Entries() && Agrees(g, base, copy, x) ensures Agrees(g, r, copy, x) {
      assert Agrees(g, d, copy, x);
    }
  }
}
