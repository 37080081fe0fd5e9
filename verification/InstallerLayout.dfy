/** Where the installer puts the four partitions and the FAT32 tables. */
module InstallerLayout {
  import opened Words

  const ALIGN := 2048
  const MAX32 := 0xFFFF_FFFF
  const SPC := 8
  const RESERVED := 32
  const NUM_FATS := 2

  const ERR_TOO_SMALL := -2

  function SatAdd(a: u32, b: u32): u32 {
    if a + b > MAX32 then MAX32 else a + b
  }

  function SatMul(a: u32, b: u32): u32 {
    if a * b > MAX32 then MAX32 else a * b
  }

  function SatSub(a: u32, b: u32): u32 {
    if a < b then 0 else a - b
  }

  /** Start and length of a partition, in sectors. */
  datatype Part = Part(start: u32, count: u32)

  datatype Layout = Layout(total: u32, parts: seq<Part>, fatSize: u32, clusters: u32)

  datatype Result = Ok(layout: Layout) | Err(code: int)

  /** The sizes asked for in MiB, zero meaning the default. */
  function Sizes(mb: seq<u32>): (r: seq<u32>)
    requires |mb| == 4
    ensures |r| == 4 && forall i :: 0 <= i < 4 ==> r[i] > 0
  {
    [if mb[0] == 0 then 64 else mb[0], if mb[1] == 0 then 32 else mb[1],
     if mb[2] == 0 then 4 else mb[2], if mb[3] == 0 then 1 else mb[3]]
  }

  /** FAT sectors for a partition of `count` sectors: one four-byte entry per cluster, and two. */
  function FatSize(count: u32): u32 {
    SatAdd(SatMul(SatAdd(count / SPC, 2), 4), 511) / 512
  }

  function Clusters(count: u32): u32 {
    SatSub(count, SatAdd(RESERVED, SatMul(NUM_FATS, FatSize(count)))) / SPC
  }

  method CalculateLayout(total: u32, mb: seq<u32>) returns (r: Result)
    requires |mb| == 4
    ensures r == Planned(total, Sizes(mb))
  {
    var p1 := if mb[0] == 0 then 64 else mb[0];
    var p2 := if mb[1] == 0 then 32 else mb[1];
    var p3 := if mb[2] == 0 then 4 else mb[2];
    var p4 := if mb[3] == 0 then 1 else mb[3];
    var c1, c2, c3, c4 := SatMul(p1, 2048), SatMul(p2, 2048), SatMul(p3, 2048), SatMul(p4, 2048);
    var s1 := ALIGN;
    var s2 := SatAdd(s1, c1);
    var s3 := SatAdd(s2, c2);
    var s4 := SatAdd(s3, c3);
    var needed := SatAdd(s4, c4);
    var effective := if total == 0 then SatAdd(needed, 2048) else total;
    FourInARow(p1, p2, p3, p4);
    if effective < needed {
      return Err(ERR_TOO_SMALL);
    }
    var fatSize := SatAdd(SatMul(SatAdd(c1 / SPC, 2), 4), 511) / 512;
    var dataStart := SatAdd(RESERVED, SatMul(NUM_FATS, fatSize));
    var clusters := SatSub(c1, dataStart) / SPC;
    r := Ok(Layout(effective, [Part(s1, c1), Part(s2, c2), Part(s3, c3), Part(s4, c4)], fatSize, clusters));
  }

  /** The partitions one after the other from `start` on, in saturating arithmetic. */
  function Chain(start: u32, sizes: seq<u32>): (ps: seq<Part>)
    ensures |ps| == |sizes|
    decreases |sizes|
  {
    if sizes == [] then []
    else
      var c := SatMul(sizes[0], 2048);
      [Part(start, c)] + Chain(SatAdd(start, c), sizes[1..])
  }

  /** The sector after the last partition. */
  function Needed(start: u32, sizes: seq<u32>): u32
    decreases |sizes|
  {
    if sizes == [] then start else Needed(SatAdd(start, SatMul(sizes[0], 2048)), sizes[1..])
  }

  lemma FourInARow(p1: u32, p2: u32, p3: u32, p4: u32)
    ensures var c1, c2, c3, c4 := SatMul(p1, 2048), SatMul(p2, 2048), SatMul(p3, 2048), SatMul(p4, 2048);
            var s2 := SatAdd(ALIGN, c1);
            var s3 := SatAdd(s2, c2);
            var s4 := SatAdd(s3, c3);
            && Chain(ALIGN, [p1, p2, p3, p4]) == [Part(ALIGN, c1), Part(s2, c2), Part(s3, c3), Part(s4, c4)]
            && Needed(ALIGN, [p1, p2, p3, p4]) == SatAdd(s4, c4)
  {
    assert [p1, p2, p3, p4][1..] == [p2, p3, p4] && [p2, p3, p4][1..] == [p3, p4];
    assert [p3, p4][1..] == [p4] && [p4][1..] == [];
    var c1, c2, c3, c4 := SatMul(p1, 2048), SatMul(p2, 2048), SatMul(p3, 2048), SatMul(p4, 2048);
    var s2 := SatAdd(ALIGN, c1);
    var s3 := SatAdd(s2, c2);
    var s4 := SatAdd(s3, c3);
    assert Chain(s4, [p4]) == [Part(s4, c4)] && Needed(s4, [p4]) == SatAdd(s4, c4);
    assert Chain(s3, [p3, p4]) == [Part(s3, c3), Part(s4, c4)] && Needed(s3, [p3, p4]) == SatAdd(s4, c4);
    assert Chain(s2, [p2, p3, p4]) == [Part(s2, c2), Part(s3, c3), Part(s4, c4)];
    assert Needed(s2, [p2, p3, p4]) == SatAdd(s4, c4);
  }

  function Planned(total: u32, sizes: seq<u32>): Result
    requires |sizes| == 4
  {
    var needed := Needed(ALIGN, sizes);
    var effective := if total == 0 then SatAdd(needed, 2048) else total;
    if effective < needed then Err(ERR_TOO_SMALL)
    else
      var parts := Chain(ALIGN, sizes);
      Ok(Layout(effective, parts, FatSize(parts[0].count), Clusters(parts[0].count)))
  }

  // ---- without saturation ----

  /** The sector after the last partition, without bound. */
  function Exact(start: nat, sizes: seq<u32>): nat
    decreases |sizes|
  {
    if sizes == [] then start else Exact(start + sizes[0] as int * 2048, sizes[1..])
  }

  lemma {:induction false} ExactGrows(start: nat, sizes: seq<u32>)
    ensures start <= Exact(start, sizes)
    decreases |sizes|
  {
    if sizes != [] {
      ExactGrows(start + sizes[0] as int * 2048, sizes[1..]);
    }
  }

  /** Aligned, one after the other without gap or overlap, from `start` to `end`. */
  ghost predicate Tidy(ps: seq<Part>, start: nat, end: nat) {
    && (forall i :: 0 <= i < |ps| ==> ps[i].start % ALIGN == 0 && ps[i].count % ALIGN == 0 && ps[i].count > 0)
    && (forall i :: 0 <= i < |ps| ==> start <= ps[i].start && ps[i].start + ps[i].count <= end)
    && (forall i, j :: 0 <= i < j < |ps| ==> ps[i].start + ps[i].count <= ps[j].start)
  }

  lemma TidyCons(p: Part, ps: seq<Part>, end: nat)
    requires p.start % ALIGN == 0 && p.count % ALIGN == 0 && p.count > 0
    requires p.start + p.count <= end && Tidy(ps, p.start + p.count, end)
    ensures Tidy([p] + ps, p.start, end)
  {
  }

  /** While nothing saturates, the partitions are where exact arithmetic puts them. */
  lemma {:induction false} ChainTidy(start: u32, sizes: seq<u32>)
    requires start % ALIGN == 0 && (forall i :: 0 <= i < |sizes| ==> sizes[i] > 0) && Exact(start, sizes) <= MAX32
    ensures Needed(start, sizes) == Exact(start, sizes) && Tidy(Chain(start, sizes), start, Exact(start, sizes))
    ensures forall i :: 0 <= i < |sizes| ==> Chain(start, sizes)[i].count == sizes[i] as int * 2048
    decreases |sizes|
  {
    if sizes != [] {
      var c := sizes[0] as int * 2048;
      ExactGrows(start + c, sizes[1..]);
      ChainTidy(start + c, sizes[1..]);
      TidyCons(Part(start, c), Chain(start + c, sizes[1..]), Exact(start, sizes));
    }
  }

  /** A partition whose end is past the last 32-bit sector. */
  predicate Overflows(p: Part) {
    p.start + p.count > MAX32
  }

  /** Once something saturates, some partition ends past the last sector. */
  lemma {:induction false} ChainSaturates(start: u32, sizes: seq<u32>)
    requires start > 0 && Exact(start, sizes) > MAX32
    ensures exists i :: 0 <= i < |sizes| && Overflows(Chain(start, sizes)[i])
    decreases |sizes|
  {
    var c := SatMul(sizes[0], 2048);
    var ps := Chain(start, sizes);
    if start + c > MAX32 {
      assert Overflows(ps[0]);
    } else {
      ChainSaturates(start + c, sizes[1..]);
      var i :| 0 <= i < |sizes| - 1 && Overflows(Chain(start + c, sizes[1..])[i]);
      assert ps[i + 1] == Chain(start + c, sizes[1..])[i];
    }
  }

  /** A plan is made exactly if the disk is large enough, in saturating arithmetic. If the exact
      sum fits 32 bits, its partitions are aligned to 1 MiB, disjoint and on the disk. */
  lemma PlanIsSound(total: u32, sizes: seq<u32>)
    requires |sizes| == 4 && (forall i :: 0 <= i < 4 ==> sizes[i] > 0) && Exact(ALIGN, sizes) <= MAX32
    ensures Planned(total, sizes).Ok? <==> total == 0 || Exact(ALIGN, sizes) <= total
    ensures Planned(total, sizes).Ok? ==>
              var l := Planned(total, sizes).layout;
              && Exact(ALIGN, sizes) <= l.total == (if total == 0 then Min(Exact(ALIGN, sizes) + 2048, MAX32) else total)
              && Tidy(l.parts, ALIGN, l.total) && Gapless(l.parts, ALIGN)
              && forall i :: 0 <= i < 4 ==> l.parts[i].count == sizes[i] as int * 2048
  {
    ChainTidy(ALIGN, sizes);
    ChainGapless(ALIGN, sizes);
  }

  /** Each partition begins where the one before ends. */
  ghost predicate Gapless(ps: seq<Part>, start: nat) {
    && (ps != [] ==> ps[0].start == start)
    && forall i :: 0 < i < |ps| ==> ps[i].start == ps[i - 1].start + ps[i - 1].count
  }

  lemma {:induction false} ChainGapless(start: u32, sizes: seq<u32>)
    requires Exact(start, sizes) <= MAX32
    ensures Gapless(Chain(start, sizes), start)
    decreases |sizes|
  {
    if sizes != [] {
      var c := sizes[0] as int * 2048;
      ExactGrows(start + c, sizes[1..]);
      ChainGapless(start + c, sizes[1..]);
    }
  }

  /** What is asked for is what is planned; what is not gets 64, 32, 4 and 1 MiB. */
  lemma SizesAre(mb: seq<u32>, i: nat)
    requires |mb| == 4 && i < 4
    ensures Sizes(mb)[i] == if mb[i] != 0 then mb[i] else [64, 32, 4, 1][i]
  {
  }

  /** The plan when nothing is asked for. */
  lemma DefaultPlan()
    ensures Planned(0, Sizes([0, 0, 0, 0]))
            == Ok(Layout(210944, [Part(2048, 131072), Part(133120, 65536), Part(198656, 8192), Part(206848, 2048)], 129, 16347))
  {
    FourInARow(64, 32, 4, 1);
  }

  // ---- the FAT ----

  lemma FatSizeIs(count: u32)
    ensures FatSize(count) == ((count / SPC + 2) * 4 + 511) / 512
    ensures RESERVED + NUM_FATS * FatSize(count) <= MAX32
  {
  }

  /** The table has an entry for every cluster, and the two reserved ones; it has just the sectors
      that entries for a partition of nothing but clusters would take. */
  lemma EveryClusterHasAnEntry(count: u32)
    ensures Clusters(count) + 2 <= FatSize(count) * 128
    ensures (FatSize(count) - 1) * 128 < count / SPC + 2 <= FatSize(count) * 128
  {
    FatSizeIs(count);
  }

  /** The clusters end inside the partition. */
  lemma ClustersFitPartition(count: u32)
    requires Clusters(count) > 0
    ensures RESERVED + NUM_FATS * FatSize(count) + Clusters(count) * SPC <= count
  {
    FatSizeIs(count);
  }
}
