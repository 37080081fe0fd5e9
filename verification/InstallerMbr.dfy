/** The partition table the installer writes, and its two readers. */
module InstallerMbr {
  import opened Words
  import opened LittleEndian
  import opened InstallerLayout

  const SECTOR := 512
  const TABLE := 446
  const ENTRY := 16
  const SIGNATURE := 510

  const BOOTABLE: u8 := 0x80
  const TYPE_FAT32: u8 := 0x0C
  const TYPE_LINUX: u8 := 0x83
  const TYPE_GPT: u8 := 0xEE

  // ---- cylinders, heads and sectors ----

  /** The BIOS address of a sector; the last one there is for all beyond it. */
  function LbaToChs(lba: u32): (r: Bytes)
    ensures |r| == 3
  {
    if lba >= 1024 * 255 * 63 then [0xFE, 0xFF, 0xFF]
    else
      var c, rem := lba / (255 * 63), lba % (255 * 63);
      [rem / 63, rem % 63 + 1 + c / 256 * 64, c % 256]
  }

  /** The sector a BIOS address means. */
  function ChsToLba(b: Bytes): nat
    requires |b| == 3 && b[1] % 64 >= 1
  {
    ((b[2] as int + b[1] as int / 64 * 256) * 255 + b[0] as int) * 63 + b[1] as int % 64 - 1
  }

  /** Every sector a BIOS address can name is named by its own. */
  lemma ChsRoundTrip(lba: u32)
    ensures var b := LbaToChs(lba);
            b[1] % 64 >= 1 && ChsToLba(b) == Min(lba, 1024 * 255 * 63 - 1)
  {
    if lba < 1024 * 255 * 63 {
      var c, rem := lba / (255 * 63), lba % (255 * 63);
      assert c < 1024 && lba == c * (255 * 63) + rem;
      CylinderBits(c, rem % 63 + 1);
    }
  }

  lemma CylinderBits(c: nat, s: nat)
    requires c < 1024 && 1 <= s < 64
    ensures (s + c / 256 * 64) % 64 == s && (s + c / 256 * 64) / 64 == c / 256 && c % 256 + c / 256 * 256 == c
  {
  }

  // ---- entries ----

  datatype Entry = Entry(boot: u8, startChs: Bytes, kind: u8, endChs: Bytes, start: u32, count: u32)

  function EntryBytes(boot: u8, kind: u8, p: Part): (b: Bytes)
    ensures |b| == ENTRY
  {
    [boot] + LbaToChs(p.start) + [kind] + LbaToChs(Wrap32(p.start + p.count - 1)) + Enc32(p.start) + Enc32(p.count)
  }

  /** The entry an installed partition should have. */
  function EntryFor(boot: u8, kind: u8, p: Part): Entry {
    Entry(boot, LbaToChs(p.start), kind, LbaToChs(Wrap32(p.start + p.count - 1)), p.start, p.count)
  }

  function EntryAt(sector: Bytes, off: nat): Entry
    requires off + ENTRY <= |sector|
  {
    Entry(sector[off], sector[off + 1..off + 4], sector[off + 4], sector[off + 5..off + 8],
          Get32(sector, off + 8), Get32(sector, off + 12))
  }

  /** An entry is read back where its bytes are. */
  lemma EntryReads(sector: Bytes, off: nat, boot: u8, kind: u8, p: Part)
    requires off + ENTRY <= |sector| && sector[off..off + ENTRY] == EntryBytes(boot, kind, p)
    ensures EntryAt(sector, off) == EntryFor(boot, kind, p)
  {
    var e := EntryBytes(boot, kind, p);
    assert sector[off] == sector[off..off + ENTRY][0] == boot;
    assert sector[off + 4] == sector[off..off + ENTRY][4] == kind;
    SubSlice(sector, off, off + ENTRY, 1, 4);
    SubSlice(sector, off, off + ENTRY, 5, 8);
    SubSlice(sector, off, off + ENTRY, 8, 12);
    SubSlice(sector, off, off + ENTRY, 12, 16);
    assert e[1..4] == LbaToChs(p.start) && e[5..8] == LbaToChs(Wrap32(p.start + p.count - 1));
    assert e[8..12] == Enc32(p.start) && e[12..16] == Enc32(p.count);
    Enc32Get(sector, off + 8, p.start);
    Enc32Get(sector, off + 12, p.count);
  }

  // ---- writing the table ----

  const STUB: Bytes := [0xFA, 0x31, 0xC0, 0x8E, 0xD0, 0xBC, 0x00, 0x7C, 0xFB]

  function BootFlag(i: nat): u8 {
    if i == 0 then BOOTABLE else 0
  }

  function TypeOf(i: nat): u8 {
    if i == 0 then TYPE_FAT32 else TYPE_LINUX
  }

  /** The four entries of a table. */
  function Entries(sector: Bytes): (es: seq<Entry>)
    requires |sector| == SECTOR
    ensures |es| == 4
  {
    [EntryAt(sector, TABLE), EntryAt(sector, TABLE + 16), EntryAt(sector, TABLE + 32), EntryAt(sector, TABLE + 48)]
  }

  predicate Signed(sector: Bytes)
    requires |sector| == SECTOR
  {
    sector[SIGNATURE] == 0x55 && sector[SIGNATURE + 1] == 0xAA
  }

  /** The sector has the signature and an entry for each partition. */
  ghost predicate Describes(sector: Bytes, parts: seq<Part>) {
    && |sector| == SECTOR && |parts| == 4 && Signed(sector)
    && forall i: nat :: i < 4 ==> Entries(sector)[i] == EntryFor(BootFlag(i), TypeOf(i), parts[i])
  }

  /** Writes the entry of one partition; the entries before it stay. */
  method PutEntry(sector: Bytes, i: nat, p: Part) returns (r: Bytes)
    requires |sector| == SECTOR && i < 4
    ensures |r| == SECTOR && r[TABLE + ENTRY * i..TABLE + ENTRY * i + ENTRY] == EntryBytes(BootFlag(i), TypeOf(i), p)
    ensures r[..TABLE + ENTRY * i] == sector[..TABLE + ENTRY * i]
  {
    r := Put(sector, TABLE + ENTRY * i, EntryBytes(BootFlag(i), TypeOf(i), p));
  }

  lemma EntryStays(b: Bytes, r: Bytes, at: nat, off: nat)
    requires |b| == |r| && at <= |b| && r[..at] == b[..at] && off + ENTRY <= at
    ensures r[off..off + ENTRY] == b[off..off + ENTRY]
  {
    SubSlice(b, 0, at, off, off + ENTRY);
    SubSlice(r, 0, at, off, off + ENTRY);
  }

  lemma StubIsCode()
    ensures HasCode(Put(Zeros(SECTOR), 0, STUB))
  {
  }

  /** The boot code and the first two entries. */
  method FirstHalf(parts: seq<Part>) returns (b: Bytes)
    requires |parts| == 4
    ensures HasCode(b) && b[TABLE..TABLE + 16] == EntryBytes(BootFlag(0), TypeOf(0), parts[0])
    ensures b[TABLE + 16..TABLE + 32] == EntryBytes(BootFlag(1), TypeOf(1), parts[1])
  {
    StubIsCode();
    var code := Put(Zeros(SECTOR), 0, STUB);
    var a := PutEntry(code, 0, parts[0]);
    CodeStays(code, a, TABLE);
    b := PutEntry(a, 1, parts[1]);
    EntryStays(a, b, TABLE + 16, TABLE);
    CodeStays(a, b, TABLE + 16);
  }

  method SynthesizeMbr(parts: seq<Part>) returns (sector: Bytes)
    requires |parts| == 4
    ensures Describes(sector, parts) && HasCode(sector)
  {
    var b := FirstHalf(parts);
    var c := PutEntry(b, 2, parts[2]);
    EntryStays(b, c, TABLE + 32, TABLE);
    EntryStays(b, c, TABLE + 32, TABLE + 16);
    CodeStays(b, c, TABLE + 32);
    var d := PutEntry(c, 3, parts[3]);
    EntryStays(c, d, TABLE + 48, TABLE);
    EntryStays(c, d, TABLE + 48, TABLE + 16);
    EntryStays(c, d, TABLE + 48, TABLE + 32);
    CodeStays(c, d, TABLE + 48);
    SignedDescribes(d, parts);
    sector := Put(d, SIGNATURE, [0x55, 0xAA]);
    CodeStays(d, sector, SIGNATURE);
  }

  lemma CodeStays(b: Bytes, r: Bytes, at: nat)
    requires |b| == |r| == SECTOR && TABLE <= at <= SECTOR && r[..at] == b[..at] && HasCode(b)
    ensures HasCode(r)
  {
    SubSlice(b, 0, at, 0, TABLE);
    SubSlice(r, 0, at, 0, TABLE);
  }

  /** The sector starts with the boot code, and zeros up to the table. */
  predicate HasCode(sector: Bytes) {
    |sector| == SECTOR && sector[..TABLE] == STUB + Zeros(TABLE - |STUB|)
  }

  /** The first partition, and no other, can be booted from and is FAT32; the others are Linux's. */
  lemma KindsOfPartitions(sector: Bytes, parts: seq<Part>)
    requires Describes(sector, parts)
    ensures Entries(sector)[0].boot == 0x80 && Entries(sector)[0].kind == 0x0C
    ensures forall i :: 0 < i < 4 ==> Entries(sector)[i].boot == 0 && Entries(sector)[i].kind == 0x83
  {
    forall i: nat | i < 4 ensures Entries(sector)[i] == EntryFor(BootFlag(i), TypeOf(i), parts[i]) {
    }
  }

  /** A sector with the bytes of all four entries, once it is signed. */
  lemma SignedDescribes(d: Bytes, parts: seq<Part>)
    requires |d| == SECTOR && |parts| == 4
    requires d[TABLE..TABLE + 16] == EntryBytes(BootFlag(0), TypeOf(0), parts[0])
    requires d[TABLE + 16..TABLE + 32] == EntryBytes(BootFlag(1), TypeOf(1), parts[1])
    requires d[TABLE + 32..TABLE + 48] == EntryBytes(BootFlag(2), TypeOf(2), parts[2])
    requires d[TABLE + 48..TABLE + 64] == EntryBytes(BootFlag(3), TypeOf(3), parts[3])
    ensures Describes(Put(d, SIGNATURE, [0x55, 0xAA]), parts)
  {
    var sector := Put(d, SIGNATURE, [0x55, 0xAA]);
    assert sector[SIGNATURE] == sector[SIGNATURE..SIGNATURE + 2][0];
    assert sector[SIGNATURE + 1] == sector[SIGNATURE..SIGNATURE + 2][1];
    EntryStays(d, sector, SIGNATURE, TABLE);
    EntryStays(d, sector, SIGNATURE, TABLE + 16);
    EntryStays(d, sector, SIGNATURE, TABLE + 32);
    EntryStays(d, sector, SIGNATURE, TABLE + 48);
    EntryReads(sector, TABLE, BootFlag(0), TypeOf(0), parts[0]);
    EntryReads(sector, TABLE + 16, BootFlag(1), TypeOf(1), parts[1]);
    EntryReads(sector, TABLE + 32, BootFlag(2), TypeOf(2), parts[2]);
    EntryReads(sector, TABLE + 48, BootFlag(3), TypeOf(3), parts[3]);
    FourEntries(sector, parts);
  }

  lemma FourEntries(sector: Bytes, parts: seq<Part>)
    requires |sector| == SECTOR && |parts| == 4 && Signed(sector)
    requires EntryAt(sector, TABLE) == EntryFor(BootFlag(0), TypeOf(0), parts[0])
    requires EntryAt(sector, TABLE + 16) == EntryFor(BootFlag(1), TypeOf(1), parts[1])
    requires EntryAt(sector, TABLE + 32) == EntryFor(BootFlag(2), TypeOf(2), parts[2])
    requires EntryAt(sector, TABLE + 48) == EntryFor(BootFlag(3), TypeOf(3), parts[3])
    ensures Describes(sector, parts)
  {
    var es := Entries(sector);
    assert es[0] == EntryFor(BootFlag(0), TypeOf(0), parts[0]) && es[1] == EntryFor(BootFlag(1), TypeOf(1), parts[1]);
    assert es[2] == EntryFor(BootFlag(2), TypeOf(2), parts[2]) && es[3] == EntryFor(BootFlag(3), TypeOf(3), parts[3]);
  }

  // ---- reading it ----

  /** Not empty, and ending on a 32-bit sector. */
  predicate Plausible(e: Entry) {
    e.kind != 0 && e.count != 0 && e.start != 0 && e.start <= MAX32 - e.count
  }

  /** Each ends before the next begins. */
  ghost predicate InOrder(es: seq<Entry>) {
    forall i, j :: 0 <= i < j < |es| && j == i + 1 ==> es[i].start + es[i].count <= es[j].start
  }

  /** What the installer's own check accepts. */
  ghost predicate Verifies(sector: Bytes) {
    && |sector| == SECTOR && Signed(sector)
    && (forall i :: 0 <= i < 4 ==> Plausible(Entries(sector)[i])) && InOrder(Entries(sector))
  }

  /** The installer's check of the table. */
  method VerifyMbrTable(sector: Bytes) returns (r: Option<seq<Entry>>)
    requires |sector| == SECTOR
    ensures r.Some? <==> Verifies(sector)
    ensures r.Some? ==> r.value == Entries(sector)
  {
    if sector[SIGNATURE] != 0x55 || sector[SIGNATURE + 1] != 0xAA {
      return None;
    }
    var entries: seq<Entry> := [];
    for i := 0 to 4
      invariant entries == Entries(sector)[..i]
      invariant forall j :: 0 <= j < i ==> Plausible(Entries(sector)[j])
    {
      var e := EntryAt(sector, TABLE + ENTRY * i);
      assert e == Entries(sector)[i];
      if e.kind == 0 || e.count == 0 || e.start == 0 {
        return None;
      }
      if e.start > MAX32 - e.count {
        return None;
      }
      entries := entries + [e];
    }
    assert entries == Entries(sector);
    var ordered := CheckOrder(entries);
    return if ordered then Some(entries) else None;
  }

  /** No partition runs into the next. */
  method CheckOrder(entries: seq<Entry>) returns (ok: bool)
    requires |entries| == 4
    ensures ok <==> InOrder(entries)
  {
    for i := 0 to 3
      invariant InOrder(entries[..i + 1])
    {
      if entries[i].start + entries[i].count > entries[i + 1].start {
        return false;
      }
    }
    return true;
  }

  /** A partition as the kernel's partition reader sees it. */
  datatype Found = Found(start: u32, count: u32, kind: u8)

  /** The plausible entries of a list, in order. */
  function FoundIn(es: seq<Entry>): seq<Found> {
    if es == [] then []
    else
      var e := es[|es| - 1];
      FoundIn(es[..|es| - 1]) + if Plausible(e) then [Found(e.start, e.count, e.kind)] else []
  }

  /** The partitions of a disk whose first sector is `sector` and whose GPT lists `gpt`, or
      nothing where there is none or it cannot be read: a protective first entry gives way to
      the GPT, if that lists any. */
  function TableOf(sector: Bytes, gpt: seq<Found>): seq<Found>
    requires |sector| == SECTOR
  {
    if !Signed(sector) then []
    else if Entries(sector)[0].kind == TYPE_GPT && gpt != [] then gpt
    else FoundIn(Entries(sector))
  }

  /** The kernel's reader. */
  method ReadTable(sector: Bytes, gpt: seq<Found>) returns (found: seq<Found>)
    requires |sector| == SECTOR
    ensures found == TableOf(sector, gpt)
  {
    found := [];
    if sector[SIGNATURE] != 0x55 || sector[SIGNATURE + 1] != 0xAA {
      return;
    }
    if sector[TABLE + 4] == TYPE_GPT {
      if gpt != [] {
        return gpt;
      }
    }
    for i := 0 to 4
      invariant found == FoundIn(Entries(sector)[..i])
    {
      assert Entries(sector)[..i + 1][..i] == Entries(sector)[..i];
      var e := EntryAt(sector, TABLE + ENTRY * i);
      assert e == Entries(sector)[i];
      if Plausible(e) {
        found := found + [Found(e.start, e.count, e.kind)];
      }
    }
    assert Entries(sector)[..4] == Entries(sector);
  }

  // ---- writer and readers ----

  /** Where every entry is plausible, the kernel finds them all. */
  lemma {:induction false} AllFound(es: seq<Entry>)
    requires forall i :: 0 <= i < |es| ==> Plausible(es[i])
    ensures |FoundIn(es)| == |es|
    ensures forall i :: 0 <= i < |es| ==> FoundIn(es)[i] == Found(es[i].start, es[i].count, es[i].kind)
  {
    if es != [] {
      AllFound(es[..|es| - 1]);
    }
  }

  /** The kernel's list of partitions grows entry by entry, by those that can be one. */
  lemma {:induction false} FoundExactly(a: seq<Entry>, e: Entry, b: seq<Entry>)
    ensures FoundIn(a + [e] + b) == FoundIn(a) + FoundIn([e]) + FoundIn(b)
    ensures FoundIn([e]) == if e.kind != 0 && e.start > 0 && e.count > 0 && e.start + e.count < TWO32
                            then [Found(e.start, e.count, e.kind)] else []
    decreases |b|
  {
    var whole := a + [e] + b;
    assert [e][..0] == [];
    if b == [] {
      assert whole[..|whole| - 1] == a;
    } else {
      FoundExactly(a, e, b[..|b| - 1]);
      assert whole[..|whole| - 1] == a + [e] + b[..|b| - 1];
    }
  }

  /** A protective first entry gives way to what the GPT lists, and only to that; an unsigned
      sector lists nothing. */
  lemma ReaderExactly(sector: Bytes, gpt: seq<Found>)
    requires |sector| == SECTOR
    ensures TableOf(sector, gpt) ==
            if sector[510] != 0x55 || sector[511] != 0xAA then []
            else if sector[450] == 0xEE && |gpt| > 0 then gpt
            else FoundIn([EntryAt(sector, 446), EntryAt(sector, 462), EntryAt(sector, 478), EntryAt(sector, 494)])
  {
  }

  /** The table written for a plan is accepted by the installer's check exactly if the exact sum
      of the sizes fits 32 bits; then the kernel's reader finds just the planned partitions,
      whatever may be left of a GPT. */
  lemma InstalledTableReads(total: u32, sizes: seq<u32>, sector: Bytes, gpt: seq<Found>)
    requires |sizes| == 4 && (forall i :: 0 <= i < 4 ==> sizes[i] > 0) && Planned(total, sizes).Ok?
    requires Describes(sector, Planned(total, sizes).layout.parts)
    ensures Verifies(sector) <==> Exact(ALIGN, sizes) <= MAX32
    ensures Verifies(sector) ==> TableOf(sector, gpt) == Wanted(Planned(total, sizes).layout.parts)
  {
    var parts := Planned(total, sizes).layout.parts;
    if Exact(ALIGN, sizes) <= MAX32 {
      ChainTidy(ALIGN, sizes);
      TidyVerifies(sector, parts, Exact(ALIGN, sizes));
    } else {
      ChainSaturates(ALIGN, sizes);
      var i :| 0 <= i < 4 && Overflows(Chain(ALIGN, sizes)[i]);
      Spoiled(sector, parts, i);
    }
  }

  /** The partitions as the kernel should find them. */
  function Wanted(parts: seq<Part>): seq<Found> {
    seq(|parts|, i requires 0 <= i < |parts| => Found(parts[i].start, parts[i].count, TypeOf(i)))
  }

  lemma TidyVerifies(sector: Bytes, parts: seq<Part>, end: nat)
    requires Describes(sector, parts) && Tidy(parts, ALIGN, end) && end <= MAX32
    ensures Verifies(sector) && FoundIn(Entries(sector)) == Wanted(parts)
  {
    AllFound(Entries(sector));
  }

  lemma Spoiled(sector: Bytes, parts: seq<Part>, i: nat)
    requires Describes(sector, parts) && i < 4 && Overflows(parts[i])
    ensures !Verifies(sector)
  {
    assert !Plausible(Entries(sector)[i]);
  }
}
