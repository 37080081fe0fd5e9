/** The FAT32 boot sector the installer writes, what the driver mounts from it, and how far the
    table reaches. */
module InstallerBoot {
  import opened Words
  import opened LittleEndian
  import opened Fat32Chain
  import opened Fat32Disk
  import opened InstallerLayout

  const ROOT_CLUSTER := 2

  const OEM: Bytes := [0x4E, 0x4F, 0x56, 0x41, 0x4F, 0x53, 0x20, 0x20]
  const FS_TYPE: Bytes := [0x46, 0x41, 0x54, 0x33, 0x32, 0x20, 0x20, 0x20]

  /** The parameter block up to the size of the table. */
  function Front(start: u32, count: u32): (b: Bytes)
    ensures |b| == 36
  {
    [0xEB, 0x58, 0x90] + OEM + Enc16(SECTOR) + [SPC] + Enc16(RESERVED) + [NUM_FATS] + Enc16(0) + Enc16(0) + [0xF8]
    + Enc16(0) + Enc16(63) + Enc16(255) + Enc32(start) + Enc32(count)
  }

  /** And from there on. */
  function Back(fatSize: u32, tag: Bytes): (b: Bytes)
    requires |tag| == 11
    ensures |b| == 54
  {
    Enc32(fatSize) + Enc16(0) + Enc16(0) + Enc32(ROOT_CLUSTER) + Enc16(1) + Enc16(6) + Zeros(12)
    + [0x80, 0, 0x29] + Enc32(0x2026_1024) + tag + FS_TYPE
  }

  function BootSector(start: u32, count: u32, fatSize: u32, tag: Bytes): (b: Bytes)
    requires |tag| == 11
    ensures |b| == SECTOR
  {
    Front(start, count) + Back(fatSize, tag) + Zeros(420) + [0x55, 0xAA]
  }

  /** The parameters, as the driver reads them. */
  function Parameters(start: u32, count: u32, fatSize: u32): Bpb {
    Bpb(512, 8, 32, 2, 0, 0, 0xF8, 0, 63, 255, start, count, fatSize, 0, 0, 2)
  }

  /** What the sector holds: a jump and the system's name, the parameters, the places of the
      information sector and of the copy, drive, serial number, label and type, the signature. */
  lemma BootSectorIs(start: u32, count: u32, fatSize: u32, tag: Bytes)
    requires |tag| == 11
    ensures var b, p := BootSector(start, count, fatSize, tag), Parameters(start, count, fatSize);
            && b[..48] == [0xEB, 0x58, 0x90] + OEM + p.Head() + p.Tail()
            && b[48..] == Enc16(1) + Enc16(6) + Zeros(12) + [0x80, 0, 0x29] + Enc32(0x2026_1024) + tag + FS_TYPE
                          + Zeros(420) + [0x55, 0xAA]
  {
    var f, k := Front(start, count), Back(fatSize, tag);
    ParametersAre(start, count, fatSize, tag);
    TagIs(fatSize, tag);
    assert k == k[..12] + k[12..];
    Parts(f, k[..12], k[12..], Zeros(420), [0x55, 0xAA]);
  }

  lemma Parts(a: Bytes, b: Bytes, c: Bytes, d: Bytes, e: Bytes)
    ensures (a + (b + c) + d + e)[..|a| + |b|] == a + b && (a + (b + c) + d + e)[|a| + |b|..] == c + d + e
  {
  }

  lemma ParametersAre(start: u32, count: u32, fatSize: u32, tag: Bytes)
    requires |tag| == 11
    ensures var p := Parameters(start, count, fatSize);
            Front(start, count) + Back(fatSize, tag)[..12] == [0xEB, 0x58, 0x90] + OEM + p.Head() + p.Tail()
  {
    assert Back(fatSize, tag)[..12] == Enc32(fatSize) + Enc16(0) + Enc16(0) + Enc32(2);
  }

  lemma TagIs(fatSize: u32, tag: Bytes)
    requires |tag| == 11
    ensures Back(fatSize, tag)[12..]
            == Enc16(1) + Enc16(6) + Zeros(12) + [0x80, 0, 0x29] + Enc32(0x2026_1024) + tag + FS_TYPE
  {
  }

  lemma FrontFields(b: Bytes, start: u32, count: u32)
    requires |b| >= 36 && b[..36] == Front(start, count)
    ensures Get16(b, 11) == SECTOR && b[13] == SPC && Get16(b, 14) == RESERVED && b[16] == NUM_FATS
    ensures Get16(b, 17) == 0 && Get16(b, 22) == 0
  {
    var f := Front(start, count);
    forall i | 0 <= i < 36 ensures b[i] == f[i] {
      assert b[i] == b[..36][i];
    }
    assert f[11..13] == Enc16(SECTOR) && f[14..16] == Enc16(RESERVED);
    assert b[11] == 0 && b[12] == 2 && b[14] == 32 && b[15] == 0;
  }

  lemma BackFields(b: Bytes, fatSize: u32, tag: Bytes)
    requires |tag| == 11 && |b| >= 90 && b[36..90] == Back(fatSize, tag)
    ensures Get32(b, 36) == fatSize && Get32(b, 44) == ROOT_CLUSTER
  {
    SubSlice(b, 36, 90, 0, 4);
    SubSlice(b, 36, 90, 8, 12);
    assert Back(fatSize, tag)[0..4] == Enc32(fatSize) && Back(fatSize, tag)[8..12] == Enc32(ROOT_CLUSTER);
    Enc32Get(b, 36, fatSize);
    Enc32Get(b, 44, ROOT_CLUSTER);
  }

  /** The geometry of an installed volume on a partition of `count` sectors. */
  function Installed(count: u32): Geo {
    Geo(SPC, RESERVED, FatSize(count), NUM_FATS, ROOT_CLUSTER, Clusters(count))
  }

  /** An installed volume mounts with the installer's geometry: the tables are where it wrote
      them, and cluster 2 is where it wrote the root directory. */
  lemma InstalledVolumeMounts(p: Part, tag: Bytes)
    requires |tag| == 11
    ensures GeoOf(BootSector(p.start, p.count, FatSize(p.count), tag), Clusters(p.count)) == Some(Installed(p.count))
    ensures var g := Installed(p.count);
            && g.FatSector(0, 0) == RESERVED && g.FatSector(1, 0) == RESERVED + FatSize(p.count)
            && g.Lba(g.root) == RESERVED + NUM_FATS * FatSize(p.count)
  {
    FatSizeIs(p.count);
    var boot := BootSector(p.start, p.count, FatSize(p.count), tag);
    Middle(Front(p.start, p.count), Back(FatSize(p.count), tag), Zeros(420), [0x55, 0xAA]);
    FrontFields(boot, p.start, p.count);
    BackFields(boot, FatSize(p.count), tag);
  }

  lemma Middle(a: Bytes, b: Bytes, c: Bytes, d: Bytes)
    ensures (a + b + c + d)[..|a|] == a && (a + b + c + d)[|a|..|a| + |b|] == b
  {
  }

  /** It is one the driver can work on exactly if it has a cluster and no more entries than a
      chain can tell apart; the clusters lie in the partition. */
  lemma InstalledGeometry(count: u32, sectors: nat)
    requires count <= sectors <= TWO32
    ensures GeoOk(Installed(count), sectors) <==> Clusters(count) > 0 && FatSize(count) * 128 <= EOC
    ensures Clusters(count) > 0 ==> Installed(count).End() <= count
  {
    FatSizeIs(count);
    EveryClusterHasAnEntry(count);
    if Clusters(count) > 0 {
      ClustersFitPartition(count);
    }
  }

  /** Every cluster has a table entry and lies in the partition, after the tables. */
  lemma InstalledClusters(count: u32, c: nat)
    requires 2 <= c < Installed(count).Limit()
    ensures var g := Installed(count);
            c < g.Entries() && g.DataStart() <= g.Lba(c) && g.Lba(c) + g.spc <= count
  {
    EveryClusterHasAnEntry(count);
    ClustersFitPartition(count);
  }

  /** Its table always runs past the partition: there are entries after that of the last
      cluster, and what any of them stands for ends outside. The scan for a free cluster goes
      over them too, so exactly where `Fat32Order.Stays` fails it hands one out. */
  lemma TableOutrunsPartition(count: u32, c: nat)
    requires Installed(count).Limit() <= c
    ensures Installed(count).Limit() < Installed(count).Entries()
    ensures Installed(count).Lba(c) + SPC > count
  {
    FatSizeIs(count);
  }

  /** At the default size: 16347 clusters, and 163 entries for which there is none. */
  lemma DefaultPartition()
    ensures var g := Installed(64 * 2048);
            g.Entries() == 16512 && g.Limit() == 16349 && g.Lba(16349) == 131066
  {
  }
}
