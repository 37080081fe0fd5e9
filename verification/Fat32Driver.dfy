/** The FAT32 driver: it works on sectors, in place, through the table and the root
    directory. Journal calls are reads and writes that succeed. */
module Fat32Driver {
  import opened Words
  import opened LittleEndian
  import opened Fat32Chain
  import opened Fat32Free
  import opened Fat32Order
  import opened Fat32Dir
  import opened Fat32Volume
  import opened Fat32Update
  import opened Fat32Access
  import opened Fat32Create
  import opened Fat32Disk
  import opened Fat32Names

  class Driver {
    const g: Geo
    /** Bytes of a cluster, and entries of the table. */
    const cb: nat
    const entries: nat
    var mounted: bool
    var disk: Disk
    var hint: nat
    /** The volume on the disk, and the entries of its table that no cluster belongs to. */
    ghost var vol: Vol
    ghost var rest: seq<nat>
    /** The disk when the volume was mounted. What is around the volume is never changed, and
        copies of a table entry that agreed then always agree. */
    ghost const base: Disk

    ghost predicate Valid()
      reads this
    {
      && Holds(g, disk, vol, rest) && Kept(g, base, disk) && InStep(g, base, disk)
      && Shape(vol) && 2 < |vol.fat| == g.Limit() && |vol.fat| + |rest| == entries <= EOC
      && vol.cb == cb <= MAX_CLUSTER_SECTORS * SECTOR && vol.root == g.root
    }

    /** The whole table. */
    ghost function Whole(): seq<nat>
      reads this
    {
      vol.fat + rest
    }

    /** Taking `count` free clusters from the hint on stays in the volume. */
    ghost predicate Roomy(count: nat)
      reads this
    {
      Stays(Whole(), ScanStart(hint, |Whole()|), |vol.fat|, count)
    }

    /** Mounts the volume whose boot sector is the disk's first; it has `clusters` clusters. */
    constructor (d: Disk, clusters: nat)
      requires |d| > 0 && |d[0]| == SECTOR && GeoOf(d[0], clusters).Some?
      requires OnDisk(GeoOf(d[0], clusters).value, d)
      ensures Valid() && mounted && hint == 2 && disk == base == d
      ensures g == GeoOf(d[0], clusters).value && vol == View(g, d) && rest == Rest(g, d)
    {
      var boot := d[0];
      g := GeoOf(boot, clusters).value;
      cb := boot[13] as int * SECTOR;
      entries := Get32(boot, 36) * SECTOR / 4;
      mounted, disk, hint := true, d, 2;
      vol, rest, base := View(GeoOf(boot, clusters).value, d), Rest(GeoOf(boot, clusters).value, d), d;
      new;
      KeptSelf(g, d);
      HoldsShape(g, d, vol, rest);
    }

    // ---- the table and the clusters ----

    method FatNext(c: nat) returns (next: nat)
      requires Valid() && c < |Whole()|
      ensures next == Whole()[c] && (c < |vol.fat| ==> next == vol.fat[c])
    {
      HoldsWord(g, disk, vol, rest, c);
      FatSectorInRange(g, |disk|, 0, c);
      next := Get32(disk[g.FatSector(0, c)], EntOffset(c)) % TWO28;
    }

    /** Rewrites entry `c` in every copy of the table, keeping its reserved bits. */
    method StoreEntry(c: nat, value: nat)
      requires OnDisk(g, disk) && c < g.Entries()
      modifies this`disk
      ensures OnDisk(g, old(disk)) && PartlyStored(g, old(disk), disk, c, value, g.numFats)
    {
      ghost var d := disk;
      for copy := 0 to g.numFats
        invariant PartlyStored(g, d, disk, c, value, copy)
      {
        FatSectorInRange(g, |disk|, copy, c);
        StoreNextCopy(g, d, disk, c, value, copy);
        var sector := g.FatSector(copy, c);
        var existing := Get32(disk[sector], EntOffset(c));
        var merged := existing / TWO28 * TWO28 + value % TWO28;
        disk := disk[sector := Put(disk[sector], EntOffset(c), Enc32(merged))];
      }
    }

    method FatSet(c: nat, value: nat)
      requires Valid() && c < |Whole()| && value < TWO28
      modifies this`disk, this`vol, this`rest
      ensures Valid() && Kept(g, old(disk), disk) && EveryCopy(g, disk, c) && Whole() == old(Whole())[c := value]
      ensures if c < |vol.fat| then vol == old(vol).(fat := old(vol).fat[c := value]) && rest == old(rest)
              else vol == old(vol) && rest == old(rest)[c - |vol.fat| := value]
    {
      HoldsShape(g, disk, vol, rest);
      StoreEntry(c, value);
      StoredHolds(g, old(disk), disk, vol, rest, c, value);
      StoredKept(g, base, old(disk), disk, c, value);
      StoredInStep(g, base, old(disk), disk, c, value);
      StoredEverywhere(g, old(disk), disk, c, value);
      KeptBoth(g, base, old(disk), disk);
      if c < |vol.fat| {
        vol := vol.(fat := vol.fat[c := value]);
      } else {
        rest := rest[c - |vol.fat| := value];
      }
    }

    method ReadCluster(c: nat) returns (buf: Bytes)
      requires Valid() && InTable(vol.fat, c)
      ensures buf == vol.data[c]
    {
      HoldsCluster(g, disk, vol, rest, c);
      LbaInRange(g, |disk|, c);
      buf := Span(disk, g.Lba(c), g.spc);
    }

    method WriteCluster(c: nat, buf: Bytes)
      requires Valid() && InTable(vol.fat, c) && |buf| == vol.cb
      modifies this`disk, this`vol
      ensures Valid() && Kept(g, old(disk), disk) && vol == old(vol).(data := old(vol).data[c := buf])
    {
      HoldsShape(g, disk, vol, rest);
      LbaInRange(g, |disk|, c);
      ClusterStoredHolds(g, disk, vol, rest, c, buf);
      ClusterStoredKept(g, base, disk, c, buf);
      ClusterStoredInStep(g, base, disk, c, buf);
      KeptBoth(g, base, disk, ClusterStored(g, disk, c, buf));
      disk := Written(disk, g.Lba(c), g.spc, buf);
      vol := vol.(data := vol.data[c := buf]);
    }

    // ---- allocation ----

    /** The first free entry in `from .. to - 1`, or 0; the loaded FAT sector is kept
        between entries. */
    method ScanTable(from: nat, to: nat) returns (r: nat)
      requires Valid() && 2 <= from && to <= |Whole()|
      ensures r == 0 ==> forall c :: from <= c < to ==> Whole()[c] != 0
      ensures r != 0 ==> from <= r < to && Whole()[r] == 0 && forall c :: from <= c < r ==> Whole()[c] != 0
    {
      var curSector: Option<nat> := None;
      var buf: Bytes := [];
      var cluster := from;
      while cluster < to
        invariant from <= cluster && (cluster <= to || cluster == from)
        invariant forall c :: from <= c < cluster ==> Whole()[c] != 0
        invariant curSector.Some? ==> curSector.value < |disk| && buf == disk[curSector.value]
        decreases if cluster < to then to - cluster else 0
      {
        HoldsWord(g, disk, vol, rest, cluster);
        FatSectorInRange(g, |disk|, 0, cluster);
        var sector := g.FatSector(0, cluster);
        if curSector != Some(sector) {
          buf := disk[sector];
          curSector := Some(sector);
        }
        assert Get32(buf, EntOffset(cluster)) == FatWord(g, disk, 0, cluster);
        if Get32(buf, EntOffset(cluster)) % TWO28 == 0 {
          return cluster;
        }
        cluster := cluster + 1;
      }
      return 0;
    }

    /** The two-pass scan: from the hint to the end of the table, then up to the hint. */
    method FindFreeCluster() returns (r: nat)
      requires Valid()
      modifies this`hint
      ensures FirstFree(Whole(), ScanStart(old(hint), |Whole()|), r)
      ensures hint == if r == 0 then old(hint) else r + 1
    {
      var total := entries;
      var start := if hint < 2 || hint >= total then 2 else hint;
      r := ScanTable(start, total);
      if r == 0 {
        r := ScanTable(2, start);
      }
      if r != 0 {
        hint := r + 1;
      }
    }

    /** Marks a free entry as the end of a chain and links it from `prev`, if there is one. */
    method Append(prev: nat, cluster: nat)
      requires Valid() && 2 <= cluster < |Whole()| && prev < |Whole()|
      modifies this`disk, this`vol, this`rest
      ensures Valid() && vol == old(vol).(fat := vol.fat)
      ensures var f := old(Whole())[cluster := EOC];
              Whole() == if prev == 0 then f else f[prev := cluster]
    {
      FatSet(cluster, EOC);
      if prev != 0 {
        FatSet(prev, cluster);
      }
    }

    /** Takes one free entry, marks it used at once and links it from `prev`, the last of
        those taken so far, if there is one. */
    method TakeCluster(prev: nat, ghost all: seq<nat>, ghost from: nat, ghost cs: seq<nat>) returns (cluster: nat)
      requires Valid() && |all| == entries && Taken(all, from, cs, Whole(), hint)
      requires if cs == [] then prev == 0 else 2 <= prev == cs[|cs| - 1] < entries
      modifies this`disk, this`hint, this`vol, this`rest
      ensures Valid() && vol == old(vol).(fat := vol.fat)
      ensures cluster == 0 ==> Taken(all, from, cs, Whole(), hint) && FreeSet(Whole()) == {}
      ensures cluster != 0 ==> 2 <= cluster < entries && Taken(all, from, cs + [cluster], Whole(), hint)
                               && |cs| < |FreeSet(all)|
    {
      cluster := FindFreeCluster();
      if cluster == 0 {
        return;
      }
      TakenNext(all, from, cs, Whole(), old(hint), cluster);
      Append(prev, cluster);
    }

    /** Takes `count` free entries, the first in cyclic order from the hint, and chains them;
        fails exactly when there are too few, and then has taken all there were. They all
        belong to the volume exactly if there is room in it. */
    method AllocClusterChain(count: nat) returns (first: nat, ghost cs: seq<nat>)
      requires Valid()
      modifies this`disk, this`hint, this`vol, this`rest
      ensures Valid() && vol == old(vol).(fat := vol.fat)
      ensures InOrder(old(Whole()), ScanStart(old(hint), |old(Whole())|), cs) && hint == HintAfter(old(hint), cs)
      ensures Whole() == Linked(old(Whole()), cs)
      ensures first == 0 <==> count == 0 || |FreeSet(old(Whole()))| < count
      ensures |cs| == Min(count, |FreeSet(old(Whole()))|)
      ensures first != 0 ==> cs[0] == first
      ensures count > 0 ==> (Below(cs, |vol.fat|) <==> old(Roomy(count)))
    {
      ghost var all, from := Whole(), hint;
      first, cs := TakeClusters(count);
      TakenFacts(all, from, cs, Whole(), hint);
      if count > 0 {
        StaysExactly(all, ScanStart(from, |all|), |vol.fat|, cs, count);
      }
    }

    method TakeClusters(count: nat) returns (first: nat, ghost cs: seq<nat>)
      requires Valid()
      modifies this`disk, this`hint, this`vol, this`rest
      ensures Valid() && vol == old(vol).(fat := vol.fat)
      ensures Taken(old(Whole()), old(hint), cs, Whole(), hint)
      ensures first == 0 <==> count == 0 || |FreeSet(old(Whole()))| < count
      ensures |cs| == Min(count, |FreeSet(old(Whole()))|)
      ensures first != 0 ==> cs[0] == first
    {
      cs := [];
      first := 0;
      ghost var all, from := Whole(), hint;
      TakenStart(all, from);
      if count == 0 {
        return;
      }
      var prev := 0;
      for i := 0 to count
        invariant Valid() && vol == old(vol).(fat := vol.fat) && Taken(all, from, cs, Whole(), hint)
        invariant |cs| == i <= |FreeSet(all)|
        invariant if i == 0 then first == prev == 0 else first == cs[0] && first != 0 && 2 <= prev == cs[i - 1] < entries
      {
        var cluster := TakeCluster(prev, all, from, cs);
        if cluster == 0 {
          TakenFacts(all, from, cs, Whole(), hint);
          return 0, cs;
        }
        if first == 0 {
          first := cluster;
        }
        prev := cluster;
        cs := cs + [cluster];
      }
    }

    /** Taking clusters where there is room in the volume takes them from the volume. */
    method AllocInside(count: nat) returns (first: nat, ghost cs: seq<nat>)
      requires Valid() && (count > 0 ==> Roomy(count))
      modifies this`disk, this`hint, this`vol, this`rest
      ensures Valid() && rest == old(rest)
      ensures FreshIn(old(vol).fat, cs) && vol == old(vol).(fat := Linked(old(vol).fat, cs))
      ensures InOrder(old(Whole()), ScanStart(old(hint), |old(Whole())|), cs) && hint == HintAfter(old(hint), cs)
      ensures Whole() == Linked(old(Whole()), cs)
      ensures first == 0 <==> count == 0 || |FreeSet(old(vol).fat)| < count
      ensures first == 0 ==> |cs| == if count == 0 then 0 else |FreeSet(old(vol).fat)|
      ensures first != 0 ==> |cs| == count && cs[0] == first
    {
      if count > 0 {
        StaysCounts(vol.fat, rest, ScanStart(hint, |Whole()|), count);
      }
      first, cs := AllocClusterChain(count);
      TakenInside(old(vol).fat, old(rest), vol.fat, rest, cs);
    }

    /** Zeroes one entry of the table and returns where it pointed. */
    method FreeCluster(cluster: nat, ghost fat: seq<nat>, ghost first: nat, ghost zs: set<nat>, ghost n: nat)
      returns (next: nat)
      requires Valid() && Freeing(fat, Whole(), first, zs, n, cluster) && ClosedFrom(fat, first) && InTable(fat, cluster)
      modifies this`disk, this`vol, this`rest
      ensures Valid() && vol == old(vol).(fat := vol.fat)
      ensures Freeing(fat, Whole(), first, zs + {cluster}, n + 1, next)
      ensures cluster in zs ==> next == 0 && Left(fat, zs + {cluster}) == Left(fat, zs)
      ensures cluster !in zs ==> |Left(fat, zs + {cluster})| < |Left(fat, zs)|
    {
      FreeStep(fat, Whole(), first, zs, n, cluster);
      next := FatNext(cluster);
      FatSet(cluster, 0);
    }

    /** Ends on every table whose pointers stay in it, cycles included, and frees exactly
        the clusters that can be reached. */
    method FreeClusterChain(first: nat)
      requires Valid() && ClosedFrom(Whole(), first)
      modifies this`disk, this`hint, this`vol, this`rest
      ensures Valid() && vol == old(vol).(fat := vol.fat)
      ensures FreedFrom(old(Whole()), Whole(), first)
      ensures hint == if 2 <= first < old(hint) then first else old(hint)
    {
      ghost var fat := Whole();
      ghost var zs: set<nat> := {};
      ghost var n: nat := 0;
      var cluster: nat := first;
      if cluster >= 2 && cluster < hint {
        hint := cluster;
      }
      FreeStart(fat, first);
      while cluster >= 2 && cluster < EOC
        invariant Valid() && vol == old(vol).(fat := vol.fat)
        invariant Freeing(fat, Whole(), first, zs, n, cluster)
        invariant hint == if 2 <= first < old(hint) then first else old(hint)
        decreases |Left(fat, zs)|, if cluster >= 2 && cluster < EOC then 1 else 0
      {
        ghost var c := cluster;
        cluster := FreeCluster(cluster, fat, first, zs, n);
        zs := zs + {c};
        n := n + 1;
      }
      FreeDone(fat, Whole(), first, zs, n, cluster);
    }

    // ---- the root directory ----

    static method ScanCluster(buf: Bytes, name: Bytes) returns (r: Scan)
      requires |name| == 11
      ensures r == ScanFrom(Slots(buf), name, 0)
    {
      ghost var ss := Slots(buf);
      for i := 0 to |buf| / SLOT
        invariant ScanFrom(ss, name, 0) == ScanFrom(ss, name, i)
      {
        var entry := buf[i * SLOT..i * SLOT + SLOT];
        assert entry == ss[i];
        if entry[0] == 0 {
          return End;
        }
        if entry[0] == DELETED || entry[11] == ATTR_LFN || (entry[11] / ATTR_VOLUME_ID) % 2 == 1 {
          continue;
        }
        if entry[..11] == name {
          return Found(i);
        }
      }
      return More;
    }

    /** The directory entry of `name`, for reading. */
    method WalkRoot(name: Bytes) returns (r: Option<Bytes>)
      requires Valid() && WellFormed(vol) && |name| == 11
      ensures r == match Find(Dir(vol), name) case Some(k) => Some(Dir(vol)[k]) case None => None
    {
      var cluster: nat := g.root;
      ghost var i: nat, rs := 0, Root(vol);
      RootStart(vol);
      while cluster < EOC
        invariant At(vol.fat, rs, i, cluster) && Scanned(vol, name, i)
        decreases |rs| - i
      {
        var buf := ReadCluster(cluster);
        var scan := ScanCluster(buf, name);
        ScanNext(vol, name, i);
        match scan {
          case End => return None;
          case Found(j) =>
            SlotAt(vol, i, j);
            return Some(buf[SLOT * j..SLOT * j + SLOT]);
          case More =>
        }
        AtNext(vol.fat, rs, i);
        cluster := FatNext(cluster);
        i := i + 1;
      }
      ScanAll(vol, name);
      return None;
    }

    /** Where the entry of `name` is, for rewriting it: slot `j` of the `i`-th cluster. */
    method FindExistingEntryLocation(name: Bytes)
      returns (found: bool, cluster: nat, offset: nat, ghost i: nat, ghost j: nat)
      requires Valid() && WellFormed(vol) && |name| == 11
      ensures found <==> Find(Dir(vol), name).Some?
      ensures found ==> i < |Root(vol)| && j < Per(vol) && cluster == Root(vol)[i] && offset == SLOT * j
                        && Find(Dir(vol), name) == Some(Pos(vol, i, j))
    {
      cluster, offset, i, j := g.root, 0, 0, 0;
      ghost var rs := Root(vol);
      RootStart(vol);
      while cluster < EOC
        invariant At(vol.fat, rs, i, cluster) && Scanned(vol, name, i)
        decreases |rs| - i
      {
        var buf := ReadCluster(cluster);
        var scan := ScanCluster(buf, name);
        ScanNext(vol, name, i);
        match scan {
          case End => return false, cluster, offset, i, j;
          case Found(k) => return true, cluster, k * SLOT, i, k;
          case More =>
        }
        AtNext(vol.fat, rs, i);
        cluster := FatNext(cluster);
        i := i + 1;
      }
      ScanAll(vol, name);
      found := false;
    }

    static method SpareInCluster(buf: Bytes) returns (j: nat)
      ensures j == SpareFrom(Slots(buf), 0)
    {
      ghost var ss := Slots(buf);
      for i := 0 to |buf| / SLOT
        invariant SpareFrom(ss, 0) == SpareFrom(ss, i)
      {
        assert ss[i][0] == buf[i * SLOT];
        if buf[i * SLOT] == 0 || buf[i * SLOT] == DELETED {
          return i;
        }
      }
      return |buf| / SLOT;
    }

    // ---- reading ----

    /** Up to `target` bytes along a chain, which may end before. */
    method ReadChain(first: nat, target: nat, ghost cs: seq<nat>) returns (out: Bytes)
      requires Valid() && (cs == [] || IsChain(vol.fat, cs)) && (target > 0 ==> At(vol.fat, cs, 0, first))
      ensures forall m :: 0 <= m < |cs| ==> cs[m] < |vol.data|
      ensures out == TakeTo(Flat(vol.data, cs), target)
    {
      out := [];
      var cluster: nat, remaining: nat := first, target;
      ghost var i: nat := 0;
      while remaining > 0 && cluster < EOC
        invariant i <= |cs| && (remaining > 0 ==> At(vol.fat, cs, i, cluster))
        invariant out == TakeTo(Flat(vol.data, cs[..i]), target) && remaining == target - |out|
        decreases |cs| - i
      {
        ReadNext(vol.data, cs, i, target);
        var buf := ReadCluster(cluster);
        var chunk := if remaining < |buf| then remaining else |buf|;
        out := out + buf[..chunk];
        remaining := remaining - chunk;
        AtNext(vol.fat, cs, i);
        cluster := FatNext(cluster);
        i := i + 1;
      }
      ReadStops(vol.data, cs, i, target);
    }

    /** Up to `bufSize` bytes of the file a directory entry names. */
    method ReadEntry(entry: Bytes, bufSize: u32) returns (out: Bytes)
      requires Valid() && IsSlot(entry) && FileOk(vol.fat, entry)
      ensures out == TakeTo(Content(vol, entry), bufSize) && |out| <= bufSize
    {
      var remaining: nat := Size(entry);
      if remaining > bufSize {
        remaining := bufSize;
      }
      FileStart(vol.fat, entry);
      out := ReadChain(FirstCluster(entry), remaining, FileChain(vol.fat, entry));
    }

    /** Up to `bufSize` bytes of a file, and how many as a signed number. */
    method ReadFile(filename: Bytes, bufSize: u32) returns (r: Option<Bytes>, code: int)
      requires Valid() && IsCString(filename) && WellFormed(vol)
      ensures code < 0 <==> r.None? || |r.value| >= TWO31
      ensures code >= 0 ==> code == |r.value|
      ensures r == if !mounted then None
                   else match Read(vol, To83(filename)) case Some(b) => Some(TakeTo(b, bufSize)) case None => None
    {
      if !mounted {
        return None, -1;
      }
      var want := ToFat83(filename);
      var entry := WalkRoot(want);
      if entry.None? {
        return None, -1;
      }
      var out := ReadEntry(entry.value, bufSize);
      r, code := Some(out), AsInt(|out|);
    }

    /** Follows a chain past its first `count` clusters, or to its end. */
    method SkipClusters(first: nat, count: nat, ghost cs: seq<nat>) returns (cluster: nat, ghost i: nat)
      requires Valid() && (cs == [] || IsChain(vol.fat, cs)) && At(vol.fat, cs, 0, first)
      ensures At(vol.fat, cs, i, cluster) && i <= count && (i < |cs| ==> i == count)
    {
      var skip := count;
      cluster, i := first, 0;
      while skip > 0 && cluster < EOC
        invariant 0 <= skip == count - i && At(vol.fat, cs, i, cluster)
      {
        AtNext(vol.fat, cs, i);
        cluster := FatNext(cluster);
        skip := skip - 1;
        i := i + 1;
      }
    }

    /** The bytes wanted from one cluster of a chain, and the cluster after it. */
    method ReadPiece(cluster: nat, inC: nat, remaining: nat, ghost out: Bytes, ghost off: nat, ghost cs: seq<nat>, ghost i: nat)
      returns (piece: Bytes, next: nat)
      requires Valid() && IsChain(vol.fat, cs) && i < |cs| && At(vol.fat, cs, i, cluster) && inC < cb && remaining > 0
      requires ReadSoFar(vol.data, cs, off, out, i, inC, true)
      ensures 0 < |piece| <= remaining && At(vol.fat, cs, i + 1, next)
      ensures ReadSoFar(vol.data, cs, off, out + piece, i + 1, 0, |piece| < remaining)
    {
      var buf := ReadCluster(cluster);
      var avail := cb - inC;
      var chunk := if remaining < avail then remaining else avail;
      ReadStep(vol.data, cs, off, out, i, inC, chunk, |out| + remaining);
      piece := buf[inC..inC + chunk];
      AtNext(vol.fat, cs, i);
      next := FatNext(cluster);
    }

    /** Up to `want` bytes along a chain, from `start` bytes into its `at`-th cluster `first`. */
    method ReadOn(first: nat, start: nat, want: nat, ghost off: nat, ghost cs: seq<nat>, ghost at: nat)
      returns (out: Bytes)
      requires Valid() && IsChain(vol.fat, cs) && at < |cs| && first == cs[at] && start < cb
      requires ReadSoFar(vol.data, cs, off, [], at, start, want > 0)
      ensures forall m :: 0 <= m < |cs| ==> cs[m] < |vol.data|
      ensures out == Slice(Flat(vol.data, cs), off, want)
    {
      out := [];
      var cluster: nat, inC: nat, remaining: nat := first, start, want;
      ghost var i: nat := at;
      while remaining > 0 && cluster < EOC
        invariant remaining == want - |out| && i <= |cs| && inC < cb && (i == |cs| ==> inC == 0)
        invariant ReadSoFar(vol.data, cs, off, out, i, inC, remaining > 0)
        invariant remaining > 0 ==> At(vol.fat, cs, i, cluster)
        decreases |cs| - i
      {
        var piece: Bytes;
        piece, cluster := ReadPiece(cluster, inC, remaining, out, off, cs, i);
        out, remaining, inC := out + piece, remaining - |piece|, 0;
        i := i + 1;
      }
      RangeStops(vol.data, cs, off, out, i, inC, want);
    }

    /** Up to `want` bytes along a chain from offset `off`. */
    method ReadChainRange(first: nat, off: nat, want: nat, ghost cs: seq<nat>) returns (out: Bytes)
      requires Valid() && (cs == [] || IsChain(vol.fat, cs)) && At(vol.fat, cs, 0, first)
      ensures forall m :: 0 <= m < |cs| ==> cs[m] < |vol.data|
      ensures out == Slice(Flat(vol.data, cs), off, want)
    {
      var q, r := off / cb, off % cb;
      var cluster: nat;
      ghost var i: nat;
      cluster, i := SkipClusters(first, q, cs);
      SkipLands(vol.data, cs, cb, off, q, r, i, want > 0);
      if cluster >= EOC {
        return [];
      }
      out := ReadOn(cluster, r, want, off, cs, i);
    }

    /** Bytes `off .. off + len - 1` of the file a directory entry names. */
    method ReadEntryRange(entry: Bytes, off: u32, len: u32) returns (out: Bytes)
      requires Valid() && IsSlot(entry) && FileOk(vol.fat, entry)
      ensures out == Slice(Content(vol, entry), off, len) && |out| <= len
    {
      var size: nat := Size(entry);
      SliceOfFile(Flat(vol.data, FileChain(vol.fat, entry)), size, off, len);
      if off >= size || len == 0 {
        return [];
      }
      var remaining := size - off;
      if remaining > len {
        remaining := len;
      }
      FileStart(vol.fat, entry);
      ghost var cs := FileChain(vol.fat, entry);
      out := ReadChainRange(FirstCluster(entry), off, remaining, cs);
      assert remaining == Min(size - off, len);
    }

    /** Bytes `off .. off + len - 1` of a file: exactly that slice of the whole-file read,
        also when the chain ends before the recorded size. */
    method ReadFileRange(filename: Bytes, off: u32, len: u32) returns (r: Option<Bytes>, code: int)
      requires Valid() && IsCString(filename) && WellFormed(vol)
      ensures code < 0 <==> r.None? || |r.value| >= TWO31
      ensures code >= 0 ==> code == |r.value|
      ensures r == if !mounted then None
                   else match Read(vol, To83(filename)) case Some(b) => Some(Slice(b, off, len)) case None => None
    {
      if !mounted {
        return None, -1;
      }
      var want := ToFat83(filename);
      var entry := WalkRoot(want);
      if entry.None? {
        return None, -1;
      }
      var out := ReadEntryRange(entry.value, off, len);
      r, code := Some(out), AsInt(|out|);
    }

    // ---- writing ----

    /** Writes `bytes` along a chain, one cluster at a time, zero-padding the last. */
    method WriteChain(bytes: Bytes, first: nat, ghost cs: seq<nat>)
      requires Valid() && IsChain(vol.fat, cs) && cs[0] == first
      modifies this`disk, this`vol
      ensures Valid() && Filled(old(vol), vol, cs, bytes, |cs|)
    {
      var cluster: nat, pos: nat := first, 0;
      ghost var i: nat := 0;
      while cluster < EOC
        invariant Valid() && At(vol.fat, cs, i, cluster) && Filled(old(vol), vol, cs, bytes, i)
        invariant pos == Min(i * cb, |bytes|)
        decreases |cs| - i
      {
        var remaining := |bytes| - pos;
        var chunk := if remaining < cb then remaining else cb;
        var buf := bytes[pos..pos + chunk] + Zeros(cb - chunk);
        assert i * cb + cb == (i + 1) * cb;
        assert buf == Chunk(bytes, i, cb);
        FillNext(old(vol), vol, cs, bytes, i);
        WriteCluster(cluster, buf);
        pos := pos + chunk;
        AtNext(vol.fat, cs, i);
        cluster := FatNext(cluster);
        i := i + 1;
      }
    }

    /** The first spare slot in the clusters there are, if any: slot `j` of the `i`-th. */
    method FindSpareSlot() returns (found: bool, last: nat, offset: nat, ghost i: nat, ghost j: nat)
      requires Valid() && WellFormed(vol)
      ensures i < |Root(vol)| && last == Root(vol)[i]
      ensures found ==> j < Per(vol) && offset == SLOT * j && SpareFrom(Dir(vol), 0) == Pos(vol, i, j) < |Dir(vol)|
      ensures !found ==> i == |Root(vol)| - 1 && SpareFrom(Dir(vol), 0) == |Dir(vol)|
    {
      last, offset, i, j := g.root, 0, 0, 0;
      ghost var rs := Root(vol);
      RootStart(vol);
      while true
        invariant i < |rs| && last == rs[i] && NoSpare(vol, i)
        decreases |rs| - i
      {
        var buf := ReadCluster(last);
        var k := SpareInCluster(buf);
        SpareNext(vol, i);
        if k < |buf| / SLOT {
          return true, last, k * SLOT, i, k;
        }
        AtNext(vol.fat, rs, i);
        var next := FatNext(last);
        if next >= EOC {
          SpareNone(vol);
          return false, last, 0, i, 0;
        }
        last := next;
        i := i + 1;
      }
    }

    /** A slot for a new entry, extending a directory that is full by one zeroed cluster. */
    method FindFreeSlot() returns (ok: bool, cluster: nat, offset: nat, ghost i: nat, ghost j: nat, ghost ext: seq<nat>)
      requires Valid() && WellFormed(vol) && (SpareFrom(Dir(vol), 0) == |Dir(vol)| ==> Roomy(1))
      modifies this`disk, this`hint, this`vol, this`rest
      ensures Valid() && WellFormed(vol) && rest == old(rest)
      ensures ok <==> SpareFrom(Dir(old(vol)), 0) < |Dir(old(vol))| || FreeSet(old(vol).fat) != {}
      ensures !ok ==> vol == old(vol)
      ensures ok ==> MadeRoom(old(vol), vol, ext)
      ensures ok ==> (ext == [] <==> SpareFrom(Dir(old(vol)), 0) < |Dir(old(vol))|)
      ensures ok ==> i < |Root(vol)| && j < Per(vol) && cluster == Root(vol)[i] && offset == SLOT * j
                     && SpareFrom(Dir(vol), 0) == Pos(vol, i, j) < |Dir(vol)|
    {
      var last: nat;
      ok, last, offset, i, j := FindSpareSlot();
      cluster, ext := last, [];
      if ok {
        return;
      }
      ghost var v := vol;
      var newCluster: nat;
      newCluster, ext := AllocInside(1);
      if newCluster == 0 {
        assert FreeSet(v.fat) == {} && ext == [];
        return;
      }
      ExtendSteps(v, ext);
      assert newCluster in FreeSet(v.fat);
      WriteCluster(newCluster, Zeros(cb));
      FatSet(last, newCluster);
      ExtendDirectory(v, newCluster);
      SpareAfterExtend(v, newCluster);
      ok, cluster, offset, i, j := true, newCluster, 0, |Root(v)|, 0;
    }

    /** Rewrites slot `j` of the `i`-th directory cluster. */
    method WriteSlot(cluster: nat, offset: nat, entry: Bytes, ghost i: nat, ghost j: nat)
      requires Valid() && WellFormed(vol) && IsSlot(entry)
      requires i < |Root(vol)| && j < Per(vol) && cluster == Root(vol)[i] && offset == SLOT * j
      modifies this`disk, this`vol
      ensures Valid() && SlotSet(old(vol), vol, Pos(old(vol), i, j), entry)
    {
      var buf := ReadCluster(cluster);
      PutSlot(buf, j, entry);
      SlotWritten(vol, i, j, Put(buf, offset, entry), entry);
      WriteCluster(cluster, Put(buf, offset, entry));
    }

    /** Fills in the entry of the file on chain `cs`, in slot `j` of the `i`-th directory cluster. */
    method WriteEntry(name: Bytes, first: nat, size: u32, cluster: nat, offset: nat,
                      ghost v: Vol, ghost cs: seq<nat>, ghost ext: seq<nat>, ghost i: nat, ghost j: nat)
      requires Valid() && WellFormed(v) && WellFormed(vol) && MadeRoom(v, vol, ext)
      requires |name| == 11 && name[0] != 0 && Find(Dir(v), name) == None
      requires IsChain(v.fat, cs) && cs[0] == first && Unowned(v, cs)
      requires i < |Root(vol)| && j < Per(vol) && cluster == Root(vol)[i] && offset == SLOT * j
      requires SpareFrom(Dir(vol), 0) == Pos(vol, i, j) < |Dir(vol)|
      requires ext == [] <==> SpareFrom(Dir(v), 0) < |Dir(v)|
      modifies this`disk, this`vol
      ensures Valid() && Entered(v, vol, name, cs, TakeTo(Flat(v.data, cs), size))
      ensures SlotTaken(v, vol, Entry(name, first, size), cs)
      ensures FreeSet(vol.fat) == FreeSet(v.fat) - Clusters(ext)
    {
      ghost var u := vol;
      RoomKeeps(v, u, ext, name, cs);
      WriteSlot(cluster, offset, Entry(name, first, size), i, j);
      EntryAdded(v, u, vol, Pos(u, i, j), name, cs, size);
      TakesSlot(v, u, vol, ext, Pos(u, i, j), Entry(name, first, size), cs);
    }

    /** Claims a directory slot for the file on chain `cs` and fills it in. */
    method AddEntry(name: Bytes, first: nat, size: u32, ghost cs: seq<nat>) returns (ok: bool, ghost ext: seq<nat>)
      requires Valid() && WellFormed(vol) && |name| == 11 && name[0] != 0 && Find(Dir(vol), name) == None
      requires IsChain(vol.fat, cs) && cs[0] == first && Unowned(vol, cs)
      requires SpareFrom(Dir(vol), 0) == |Dir(vol)| ==> Roomy(1)
      modifies this`disk, this`hint, this`vol, this`rest
      ensures Valid() && rest == old(rest)
      ensures ok <==> SpareFrom(Dir(old(vol)), 0) < |Dir(old(vol))| || FreeSet(old(vol).fat) != {}
      ensures !ok ==> vol == old(vol)
      ensures ok ==> Entered(old(vol), vol, name, cs, TakeTo(Flat(old(vol).data, cs), size))
      ensures ok ==> SlotTaken(old(vol), vol, Entry(name, first, size), cs)
      ensures ok ==> |ext| <= 1 && FreeSet(vol.fat) == FreeSet(old(vol).fat) - Clusters(ext)
                     && Clusters(ext) <= FreeSet(old(vol).fat)
      ensures ok ==> (ext == [] <==> SpareFrom(Dir(old(vol)), 0) < |Dir(old(vol))|)
    {
      ghost var v := vol;
      var cluster: nat, offset: nat;
      ghost var i: nat, j: nat;
      ok, cluster, offset, i, j, ext := FindFreeSlot();
      if !ok {
        return;
      }
      WriteEntry(name, first, size, cluster, offset, v, cs, ext, i, j);
    }

    /** Frees a chain that ends. */
    method DropChain(first: nat, ghost cs: seq<nat>)
      requires Valid() && IsChain(vol.fat, cs) && cs[0] == first
      modifies this`disk, this`hint, this`vol, this`rest
      ensures Valid() && vol == old(vol).(fat := vol.fat) && Freed(old(vol).fat, vol.fat, cs) && rest == old(rest)
    {
      ChainInside(vol.fat, rest, cs);
      ChainCloses(Whole(), cs);
      FreeClusterChain(first);
      FreedChain(old(Whole()), Whole(), cs);
      FreedInside(old(vol).fat, old(rest), vol.fat, rest, cs);
    }

    /** The data of a new file, once `cs` has been taken for it. */
    method StoreData(bytes: Bytes, first: nat, ghost v: Vol, ghost cs: seq<nat>)
      requires Valid() && WellFormed(v) && FreshIn(v.fat, cs) && cs != [] && cs[0] == first
      requires vol == v.(fat := Linked(v.fat, cs)) && |bytes| <= |cs| * v.cb
      modifies this`disk, this`vol
      ensures Valid() && vol.fat == old(vol).fat && DataReady(v, vol, cs, bytes)
      ensures Filled(v.(fat := Linked(v.fat, cs)), vol, cs, bytes, |cs|) && DataLaid(vol, cs, bytes)
    {
      LinkedIsChain(v.fat, cs);
      WriteChain(bytes, first, cs);
      DataWritten(v, vol, cs, bytes);
      FillLays(old(vol), vol, cs, bytes);
    }

    /** Gives the chain of a file that could not be entered back. */
    method DropData(bytes: Bytes, first: nat, ghost v: Vol, ghost cs: seq<nat>)
      requires Valid() && WellFormed(v) && FreshIn(v.fat, cs) && cs != [] && cs[0] == first
      requires Filled(v.(fat := Linked(v.fat, cs)), vol, cs, bytes, |cs|) && IsChain(vol.fat, cs)
      modifies this`disk, this`hint, this`vol, this`rest
      ensures Valid() && rest == old(rest) && WellFormed(vol) && SameFiles(v, vol)
    {
      DropChain(first, cs);
      DataDropped(v, old(vol), vol, cs, bytes);
    }

    /** The data of a new file and its entry. */
    method StoreFile(name: Bytes, bytes: Bytes, first: nat, ghost v: Vol, ghost cs: seq<nat>)
      returns (ok: bool, ghost ext: seq<nat>)
      requires Valid() && WellFormed(v) && FreshIn(v.fat, cs) && cs != [] && cs[0] == first
      requires vol == v.(fat := Linked(v.fat, cs)) && |bytes| <= |cs| * v.cb && |bytes| < TWO32
      requires |name| == 11 && name[0] != 0 && Find(Dir(v), name) == None
      requires SpareFrom(Dir(v), 0) == |Dir(v)| ==> Roomy(1)
      modifies this`disk, this`hint, this`vol, this`rest
      ensures Valid() && rest == old(rest)
      ensures ok <==> SpareFrom(Dir(v), 0) < |Dir(v)| || |FreeSet(v.fat)| > |cs|
      ensures ok ==> Entered(v, vol, name, cs, bytes) && Spent(v, vol, cs, ext)
      ensures ok ==> Laid(v, vol, Entry(name, first, |bytes|), cs, bytes)
      ensures ok ==> (ext == [] <==> SpareFrom(Dir(v), 0) < |Dir(v)|)
      ensures !ok ==> WellFormed(vol) && SameFiles(v, vol)
    {
      StoreData(bytes, first, v, cs);
      ghost var w := vol;
      ok, ext := AddEntry(name, first, |bytes|, cs);
      if ok {
        FileStored(v, w, vol, name, cs, ext, bytes);
        LaidAfter(v, w, vol, Entry(name, first, |bytes|), cs, bytes);
      } else {
        DropData(bytes, first, v, cs);
      }
    }

    /** Creates a file. It succeeds exactly when there is no such file yet and there are
        clusters enough; then the name reads as the data (unless its stored form starts
        with 0xE5, the mark of a deleted entry) and every other name as before. When it
        fails every name reads as before. Either way the volume stays well formed, and
        nothing around it changes. Where taking the clusters would leave the volume, the
        driver does not notice; `AllocClusterChain` says exactly where that is. */
    method WriteFile(filename: Bytes, bytes: Bytes) returns (ok: bool, ghost cs: seq<nat>, ghost ext: seq<nat>)
      requires Valid() && WellFormed(vol) && IsCString(filename) && |bytes| < TWO32
      requires mounted && Read(vol, To83(filename)) == None && Needed(|bytes|, vol.cb) > 0 ==> Roomy(Wanted(vol, |bytes|))
      modifies this`disk, this`hint, this`vol, this`rest
      ensures Valid() && WellFormed(vol) && rest == old(rest) && Kept(g, old(disk), disk)
      ensures ok <==> mounted && Read(old(vol), To83(filename)) == None && Needed(|bytes|, old(vol).cb) > 0
                      && Wanted(old(vol), |bytes|) <= |FreeSet(old(vol).fat)|
      ensures ok ==> Entered(old(vol), vol, To83(filename), cs, bytes)
      ensures ok ==> cs != [] && cs[0] < TWO32 && Laid(old(vol), vol, Entry(To83(filename), cs[0], |bytes|), cs, bytes)
      ensures ok ==> |cs| == Needed(|bytes|, old(vol).cb) && |cs| + |ext| == Wanted(old(vol), |bytes|)
                     && Spent(old(vol), vol, cs, ext)
      ensures !ok ==> SameFiles(old(vol), vol)
    {
      ok, cs, ext := false, [], [];
      KeptBoth(g, base, disk, disk);
      if !mounted {
        return;
      }
      var name := ToFat83(filename);
      To83NotEnd(filename);
      var found, cluster, offset, i, j := FindExistingEntryLocation(name);
      if found {
        return;
      }
      ok, cs, ext := NewFile(name, bytes);
      KeptBoth(g, base, old(disk), disk);
    }

    /** Creates a file under a name that is not there. */
    method NewFile(name: Bytes, bytes: Bytes) returns (ok: bool, ghost cs: seq<nat>, ghost ext: seq<nat>)
      requires Valid() && WellFormed(vol) && |bytes| < TWO32
      requires |name| == 11 && name[0] != 0 && Find(Dir(vol), name) == None
      requires Needed(|bytes|, vol.cb) > 0 ==> Roomy(Wanted(vol, |bytes|))
      modifies this`disk, this`hint, this`vol, this`rest
      ensures Valid() && WellFormed(vol) && rest == old(rest)
      ensures ok <==> Needed(|bytes|, old(vol).cb) > 0 && Wanted(old(vol), |bytes|) <= |FreeSet(old(vol).fat)|
      ensures ok ==> Entered(old(vol), vol, name, cs, bytes)
      ensures ok ==> cs != [] && cs[0] < TWO32 && Laid(old(vol), vol, Entry(name, cs[0], |bytes|), cs, bytes)
      ensures ok ==> |cs| == Needed(|bytes|, old(vol).cb) && |cs| + |ext| == Wanted(old(vol), |bytes|)
                     && Spent(old(vol), vol, cs, ext)
      ensures !ok ==> SameFiles(old(vol), vol)
    {
      ok, cs, ext := false, [], [];
      ghost var v := vol;
      ghost var all, from := Whole(), hint;
      var size: u32 := |bytes|;
      var needed := if size == 0 then 1 else (size + cb - 1) % TWO32 / cb;
      assert needed == Needed(size, cb);
      NeededIsEnough(size, cb);
      var first;
      if needed > 0 {
        StaysFewer(all, ScanStart(from, |all|), |v.fat|, Wanted(v, size), needed);
      }
      first, cs := AllocInside(needed);
      if first == 0 {
        AllocKeeps(v, vol, cs);
        return;
      }
      if SpareFrom(Dir(v), 0) == |Dir(v)| {
        OneMoreStays(all, from, |v.fat|, cs, Wanted(v, size));
      }
      ok, ext := StoreFile(name, bytes, first, v, cs);
    }

    /** Frees the clusters of a directory entry, which may have none. */
    method DropEntry(entry: Bytes)
      requires Valid() && IsSlot(entry) && FileOk(vol.fat, entry)
      modifies this`disk, this`hint, this`vol, this`rest
      ensures Valid() && vol == old(vol).(fat := vol.fat) && rest == old(rest)
      ensures Freed(old(vol).fat, vol.fat, FileChain(old(vol).fat, entry))
    {
      FileStart(vol.fat, entry);
      var first := FirstCluster(entry);
      if 2 <= first < EOC {
        DropChain(first, FileChain(vol.fat, entry));
      } else {
        NothingToFree(Whole(), first);
        FreeClusterChain(first);
        assert Whole() == old(Whole());
        SplitEqual(vol.fat, rest, old(vol).fat, old(rest));
      }
    }

    /** Marks slot `j` of the `i`-th directory cluster deleted and frees its chain. */
    method RemoveAt(cluster: nat, offset: nat, ghost i: nat, ghost j: nat)
      requires Valid() && WellFormed(vol)
      requires i < |Root(vol)| && j < Per(vol) && cluster == Root(vol)[i] && offset == SLOT * j
      requires Pos(vol, i, j) < |Dir(vol)| && Live(Dir(vol)[Pos(vol, i, j)])
      modifies this`disk, this`hint, this`vol, this`rest
      ensures Valid() && Removed(old(vol), vol, Pos(old(vol), i, j)) && rest == old(rest)
    {
      ghost var v := vol;
      var buf := ReadCluster(cluster);
      var entry := buf[offset..offset + SLOT];
      SlotAt(v, i, j);
      WriteSlot(cluster, offset, entry[0 := DELETED], i, j);
      ghost var w := vol;
      DropEntry(entry);
      RemoveFile(v, w, vol, Pos(v, i, j));
    }

    /** Deletes a file. It succeeds exactly when there is one; then the name is gone, every
        other name reads as before and exactly the file's clusters are free again. */
    method DeleteFile(filename: Bytes) returns (ok: bool)
      requires Valid() && WellFormed(vol) && IsCString(filename)
      modifies this`disk, this`hint, this`vol, this`rest
      ensures Valid() && WellFormed(vol) && rest == old(rest) && Kept(g, old(disk), disk)
      ensures ok <==> mounted && Read(old(vol), To83(filename)).Some?
      ensures !ok ==> vol == old(vol)
      ensures ok ==> Removed(old(vol), vol, Find(Dir(old(vol)), To83(filename)).value)
                     && Name(Dir(old(vol))[Find(Dir(old(vol)), To83(filename)).value]) == To83(filename)
    {
      ok := false;
      KeptBoth(g, base, disk, disk);
      if !mounted {
        return;
      }
      var name := ToFat83(filename);
      var found, cluster, offset, i, j := FindExistingEntryLocation(name);
      if found {
        RemoveAt(cluster, offset, i, j);
        KeptBoth(g, base, old(disk), disk);
        ok := true;
      }
    }

    /** Creating a file and deleting it again leaves every name as it was and gives back
        every cluster but the one a full directory may have been extended by. */
    method CreateThenDelete(filename: Bytes, bytes: Bytes) returns (ok: bool, ghost ext: seq<nat>)
      requires Valid() && WellFormed(vol) && IsCString(filename) && |bytes| < TWO32
      requires To83(filename)[0] != DELETED
      requires mounted && Read(vol, To83(filename)) == None && Needed(|bytes|, vol.cb) > 0 ==> Roomy(Wanted(vol, |bytes|))
      modifies this`disk, this`hint, this`vol, this`rest
      ensures Valid() && WellFormed(vol) && SameFiles(old(vol), vol) && rest == old(rest) && Kept(g, old(disk), disk)
      ensures ok ==> |ext| <= 1 && FreeSet(vol.fat) == FreeSet(old(vol).fat) - Clusters(ext)
    {
      ghost var v := vol;
      ghost var cs: seq<nat>;
      ok, cs, ext := WriteFile(filename, bytes);
      if ok {
        ghost var u := vol;
        var gone := DeleteFile(filename);
        EnteredThenRemoved(v, u, vol, To83(filename), cs, ext, bytes);
        KeptBoth(g, base, old(disk), disk);
      }
    }
  }
}
