/** The records of an ext2 directory block: finding a name and splitting a record's slack. */
module Ext2Dirents {
  import opened Words
  import opened LittleEndian

  const HEADER := 8
  const REG_FILE: u8 := 1

  // ---- the fields of the record at `pos` ----

  function Ino(b: Bytes, pos: nat): u32
    requires pos + HEADER <= |b|
  {
    Get32(b, pos)
  }

  function RecLen(b: Bytes, pos: nat): u16
    requires pos + HEADER <= |b|
  {
    Get16(b, pos + 4)
  }

  function NameLen(b: Bytes, pos: nat): u8
    requires pos + HEADER <= |b|
  {
    b[pos + 6]
  }

  function Kind(b: Bytes, pos: nat): u8
    requires pos + HEADER <= |b|
  {
    b[pos + 7]
  }

  /** Header and name, rounded up to a multiple of four: `(8 + len + 3) & ~3`. */
  function Footprint(len: nat): (f: nat)
    ensures HEADER + len <= f < HEADER + len + 4
  {
    (HEADER + len + 3) / 4 * 4
  }

  /** The least multiple of four that holds header and name. */
  lemma FootprintIsLeast(len: nat, f: nat)
    ensures Footprint(len) % 4 == 0
    ensures f % 4 == 0 && HEADER + len <= f ==> Footprint(len) <= f
  {
  }

  // ---- the directory as a list ----

  datatype Entry = Entry(ino: u32, name: Bytes, kind: u8)

  /** One record that fits its own name and ends inside the block. */
  predicate RecordAt(b: Bytes, pos: nat) {
    && pos + HEADER <= |b|
    && Footprint(NameLen(b, pos)) <= RecLen(b, pos) && pos + RecLen(b, pos) <= |b|
  }

  /** From `pos` on, records fill the block exactly. */
  predicate Tiles(b: Bytes, pos: nat)
    decreases |b| - pos
  {
    pos == |b| || (RecordAt(b, pos) && Tiles(b, pos + RecLen(b, pos)))
  }

  function EntryAt(b: Bytes, pos: nat): Entry
    requires RecordAt(b, pos)
  {
    Entry(Ino(b, pos), b[pos + HEADER..pos + HEADER + NameLen(b, pos)], Kind(b, pos))
  }

  function Entries(b: Bytes, pos: nat): seq<Entry>
    requires Tiles(b, pos)
    decreases |b| - pos
  {
    if pos == |b| then [] else [EntryAt(b, pos)] + Entries(b, pos + RecLen(b, pos))
  }

  /** The inode of the first entry in use with that name. */
  function Lookup(es: seq<Entry>, name: Bytes): Option<u32> {
    if es == [] then None
    else if es[0].ino != 0 && es[0].name == name then Some(es[0].ino)
    else Lookup(es[1..], name)
  }

  // ---- finding a name ----

  /** What the walk over any bytes finds: it stops at a record of length zero. */
  function Search(b: Bytes, pos: nat, name: Bytes): Option<u32>
    decreases |b| - pos
  {
    if pos + HEADER > |b| || RecLen(b, pos) == 0 then None
    else if Ino(b, pos) != 0 && NameLen(b, pos) == |name| && pos + HEADER + |name| <= |b|
            && b[pos + HEADER..pos + HEADER + |name|] == name then Some(Ino(b, pos))
    else Search(b, pos + RecLen(b, pos), name)
  }

  method Find(b: Bytes, name: Bytes) returns (r: Option<u32>)
    ensures r == Search(b, 0, name)
  {
    var pos: nat := 0;
    while pos + HEADER <= |b|
      invariant Search(b, pos, name) == Search(b, 0, name)
    {
      var recLen, nameLen := RecLen(b, pos), NameLen(b, pos);
      if recLen == 0 {
        return None;
      }
      if Ino(b, pos) != 0 && nameLen == |name| && pos + HEADER + nameLen <= |b| {
        if b[pos + HEADER..pos + HEADER + |name|] == name {
          return Some(Ino(b, pos));
        }
      }
      pos := pos + recLen;
    }
    return None;
  }

  lemma SearchStep(b: Bytes, pos: nat, name: Bytes)
    requires RecordAt(b, pos)
    ensures var e := EntryAt(b, pos);
            Search(b, pos, name) ==
            if e.ino != 0 && e.name == name then Some(e.ino) else Search(b, pos + RecLen(b, pos), name)
  {
    if NameLen(b, pos) as int != |name| {
      assert |EntryAt(b, pos).name| != |name|;
    }
  }

  /** On a block its records fill, the walk is a search of the entry list. */
  lemma {:induction false} SearchIsLookup(b: Bytes, pos: nat, name: Bytes)
    requires Tiles(b, pos)
    ensures Search(b, pos, name) == Lookup(Entries(b, pos), name)
    decreases |b| - pos
  {
    if pos < |b| {
      var next := pos + RecLen(b, pos);
      SearchStep(b, pos, name);
      SearchIsLookup(b, next, name);
      LookupStep(EntryAt(b, pos), Entries(b, next), name);
    }
  }

  lemma LookupStep(e: Entry, es: seq<Entry>, name: Bytes)
    ensures Lookup([e] + es, name) == if e.ino != 0 && e.name == name then Some(e.ino) else Lookup(es, name)
  {
    assert ([e] + es)[1..] == es;
  }

  /** As much of a name as an eight-bit length can tell. */
  function Kept(name: Bytes): Bytes {
    name[..|name| % 256]
  }

  // ---- splitting a record ----

  function Slack(b: Bytes, pos: nat): nat
    requires RecordAt(b, pos)
  {
    RecLen(b, pos) - Footprint(NameLen(b, pos))
  }

  /** The first record from `pos` with room after its own name, or the end of the block. */
  function Room(b: Bytes, pos: nat, needed: nat): (p: nat)
    requires Tiles(b, pos)
    ensures p == |b| || (RecordAt(b, p) && Slack(b, p) >= needed && Tiles(b, p))
    decreases |b| - pos
  {
    if pos == |b| || Slack(b, pos) >= needed then pos else Room(b, pos + RecLen(b, pos), needed)
  }

  function Header(ino: u32, recLen: u16, nameLen: u8, kind: u8): (h: Bytes)
    ensures |h| == HEADER
  {
    Enc32(ino) + Enc16(recLen) + [nameLen, kind]
  }

  /** The header of the record at `pos` when it keeps no slack. */
  function Cut(b: Bytes, pos: nat): (h: Bytes)
    requires RecordAt(b, pos)
    ensures |h| == HEADER
  {
    Header(Ino(b, pos), Footprint(NameLen(b, pos)), NameLen(b, pos), Kind(b, pos))
  }

  /** The header of the record that takes that slack. */
  function Added(b: Bytes, pos: nat, name: Bytes, ino: u32): (h: Bytes)
    requires RecordAt(b, pos)
    ensures |h| == HEADER
  {
    Header(ino, Slack(b, pos), |name| % 256, REG_FILE)
  }

  /** The block with the record at `pos` cut to its own name and a new record behind it. */
  function Split(b: Bytes, pos: nat, name: Bytes, ino: u32): (r: Bytes)
    requires RecordAt(b, pos) && Slack(b, pos) >= Footprint(|name|)
    ensures |r| == |b|
  {
    var mid := pos + Footprint(NameLen(b, pos));
    Put(Put(Put(b, pos, Cut(b, pos)), mid, Added(b, pos, name, ino)), mid + HEADER, name)
  }

  /** The record fields of a written header. */
  lemma HeaderFields(b: Bytes, pos: nat, ino: u32, recLen: u16, nameLen: u8, kind: u8)
    requires pos + HEADER <= |b| && b[pos..pos + HEADER] == Header(ino, recLen, nameLen, kind)
    ensures Ino(b, pos) == ino && RecLen(b, pos) == recLen && NameLen(b, pos) == nameLen && Kind(b, pos) == kind
  {
    var h := Header(ino, recLen, nameLen, kind);
    SubSlice(b, pos, pos + HEADER, 0, 4);
    SubSlice(b, pos, pos + HEADER, 4, 6);
    assert h[0..4] == Enc32(ino) && h[4..6] == Enc16(recLen);
    Enc32Get(b, pos, ino);
    Enc16Get(b, pos + 4, recLen);
    assert b[pos + 6] == b[pos..pos + HEADER][6] && b[pos + 7] == b[pos..pos + HEADER][7];
  }

  /** The bytes a record stands for an entry with: inode, record length, name length, kind, name. */
  lemma RecordIsItsEntry(b: Bytes, pos: nat)
    requires RecordAt(b, pos)
    ensures var e := EntryAt(b, pos);
            b[pos..pos + HEADER + |e.name|]
            == Enc32(e.ino) + Enc16(RecLen(b, pos)) + [|e.name|, e.kind] + e.name
  {
    var e := EntryAt(b, pos);
    GetEnc32(b, pos);
    assert b[pos + 4..pos + 6] == Enc16(RecLen(b, pos));
    assert b[pos..pos + HEADER + |e.name|]
           == b[pos..pos + 4] + b[pos + 4..pos + 6] + [b[pos + 6], b[pos + 7]] + b[pos + HEADER..pos + HEADER + |e.name|];
  }

  /** `r` is `b` with its record at `pos` split: two headers, the old name and the new one,
      and everything else as it was. */
  ghost predicate IsSplit(b: Bytes, r: Bytes, pos: nat, name: Bytes, ino: u32) {
    forall k: int :: LookAtSplit(k) ==> SplitParts(b, r, pos, name, ino)
  }

  /** Mentioned where the parts of a split matter. */
  predicate LookAtSplit(k: int) {
    true
  }

  ghost predicate SplitParts(b: Bytes, r: Bytes, pos: nat, name: Bytes, ino: u32) {
    && RecordAt(b, pos) && Slack(b, pos) >= Footprint(|name|) && |r| == |b|
    && var nl, mid, end := NameLen(b, pos) as int, pos + Footprint(NameLen(b, pos)), pos + RecLen(b, pos);
    && r[..pos] == b[..pos] && r[end..] == b[end..]
    && r[pos..pos + HEADER] == Cut(b, pos)
    && r[pos + HEADER..pos + HEADER + nl] == b[pos + HEADER..pos + HEADER + nl]
    && r[mid..mid + HEADER] == Added(b, pos, name, ino)
    && r[mid + HEADER..mid + HEADER + |name|] == name
  }

  lemma SplitBytes(b: Bytes, pos: nat, name: Bytes, ino: u32)
    requires RecordAt(b, pos) && Slack(b, pos) >= Footprint(|name|)
    ensures IsSplit(b, Split(b, pos, name, ino), pos, name, ino)
  {
    var nl, mid, end := NameLen(b, pos) as int, pos + Footprint(NameLen(b, pos)), pos + RecLen(b, pos);
    var h0, h1 := Cut(b, pos), Added(b, pos, name, ino);
    ThreePutsAround(b, pos, h0, mid, h1, name, end);
    ThreePuts(b, pos, h0, mid, h1, name, pos + HEADER, nl);
    ThreePutsRead(b, pos, h0, mid, h1, name);
  }

  lemma ThreePutsAround(b: Bytes, pos: nat, h0: Bytes, mid: nat, h1: Bytes, name: Bytes, end: nat)
    requires |h0| == |h1| == HEADER && pos + HEADER <= mid && mid + HEADER + |name| <= end <= |b|
    ensures var r := Put(Put(Put(b, pos, h0), mid, h1), mid + HEADER, name);
            r[..pos] == b[..pos] && r[end..] == b[end..]
  {
    var r := Put(Put(Put(b, pos, h0), mid, h1), mid + HEADER, name);
    ThreePuts(b, pos, h0, mid, h1, name, 0, pos);
    ThreePuts(b, pos, h0, mid, h1, name, end, |b| - end);
    assert r[..pos] == r[0..pos] && b[..pos] == b[0..pos];
    assert r[end..] == r[end..end + (|b| - end)] && b[end..] == b[end..end + (|b| - end)];
  }

  lemma ThreePutsRead(b: Bytes, pos: nat, h0: Bytes, mid: nat, h1: Bytes, name: Bytes)
    requires |h0| == |h1| == HEADER && pos + HEADER <= mid && mid + HEADER + |name| <= |b|
    ensures var r := Put(Put(Put(b, pos, h0), mid, h1), mid + HEADER, name);
            && r[pos..pos + HEADER] == h0 && r[mid..mid + HEADER] == h1
            && r[mid + HEADER..mid + HEADER + |name|] == name
  {
    var shrunk := Put(b, pos, h0);
    PutElsewhere(shrunk, mid, h1, pos, HEADER);
    PutElsewhere(Put(shrunk, mid, h1), mid + HEADER, name, pos, HEADER);
    PutElsewhere(Put(shrunk, mid, h1), mid + HEADER, name, mid, HEADER);
  }

  /** Bytes apart from all three writes stay. */
  lemma ThreePuts(b: Bytes, pos: nat, h0: Bytes, mid: nat, h1: Bytes, name: Bytes, o: nat, n: nat)
    requires |h0| == |h1| == HEADER && pos + HEADER <= mid && mid + HEADER + |name| <= |b| && o + n <= |b|
    requires o + n <= pos || (pos + HEADER <= o && o + n <= mid) || mid + HEADER + |name| <= o
    ensures Put(Put(Put(b, pos, h0), mid, h1), mid + HEADER, name)[o..o + n] == b[o..o + n]
  {
    PutElsewhere(b, pos, h0, o, n);
    PutElsewhere(Put(b, pos, h0), mid, h1, o, n);
    PutElsewhere(Put(Put(b, pos, h0), mid, h1), mid + HEADER, name, o, n);
  }

  /** The split record keeps its entry. */
  lemma SplitFirst(b: Bytes, r: Bytes, pos: nat, name: Bytes, ino: u32)
    requires SplitParts(b, r, pos, name, ino)
    ensures RecordAt(r, pos) && RecLen(r, pos) == Footprint(NameLen(b, pos)) && EntryAt(r, pos) == EntryAt(b, pos)
  {
    HeaderFields(r, pos, Ino(b, pos), Footprint(NameLen(b, pos)), NameLen(b, pos), Kind(b, pos));
  }

  /** Behind it stands the new one, with as much of the name as its length byte tells. */
  lemma SplitSecond(b: Bytes, r: Bytes, pos: nat, name: Bytes, ino: u32)
    requires SplitParts(b, r, pos, name, ino)
    ensures var mid := pos + Footprint(NameLen(b, pos));
            RecordAt(r, mid) && RecLen(r, mid) == Slack(b, pos) && EntryAt(r, mid) == Entry(ino, Kept(name), REG_FILE)
  {
    var mid := pos + Footprint(NameLen(b, pos));
    HeaderFields(r, mid, ino, Slack(b, pos), |name| % 256, REG_FILE);
    SubSlice(r, mid + HEADER, mid + HEADER + |name|, 0, |name| % 256);
  }

  lemma SplitRecords(b: Bytes, r: Bytes, pos: nat, name: Bytes, ino: u32)
    requires IsSplit(b, r, pos, name, ino)
    ensures RecordAt(b, pos)
    ensures var mid := pos + Footprint(NameLen(b, pos));
            && RecordAt(r, pos) && pos + RecLen(r, pos) == mid && EntryAt(r, pos) == EntryAt(b, pos)
            && RecordAt(r, mid) && mid + RecLen(r, mid) == pos + RecLen(b, pos)
            && EntryAt(r, mid) == Entry(ino, Kept(name), REG_FILE)
  {
    assert LookAtSplit(0);
    SplitFirst(b, r, pos, name, ino);
    SplitSecond(b, r, pos, name, ino);
  }

  /** The records from `pos` on depend on nothing before `pos`. */
  lemma {:induction false} TailFrame(b: Bytes, r: Bytes, pos: nat)
    requires |r| == |b| && pos <= |b| && r[pos..] == b[pos..] && Tiles(b, pos)
    ensures Tiles(r, pos) && Entries(r, pos) == Entries(b, pos)
    decreases |b| - pos
  {
    if pos < |b| {
      RecordFrame(b, r, pos, pos, |b|);
      var next := pos + RecLen(b, pos);
      SubSlice(b, pos, |b|, next - pos, |b| - pos);
      SubSlice(r, pos, |r|, next - pos, |b| - pos);
      TailFrame(b, r, next);
    }
  }

  /** A record whose bytes are the same is the same record. */
  lemma RecordFrame(b: Bytes, r: Bytes, pos: nat, lo: nat, hi: nat)
    requires |r| == |b| && RecordAt(b, pos) && lo <= pos && pos + RecLen(b, pos) <= hi <= |b|
    requires r[lo..hi] == b[lo..hi]
    ensures RecordAt(r, pos) && RecLen(r, pos) == RecLen(b, pos) && EntryAt(r, pos) == EntryAt(b, pos)
  {
    forall k | lo <= k < hi ensures r[k] == b[k] {
      assert r[lo..hi][k - lo] == b[lo..hi][k - lo];
    }
    var nl := NameLen(b, pos) as int;
    assert r[pos + HEADER..pos + HEADER + nl] == b[pos + HEADER..pos + HEADER + nl];
  }

  lemma SplitOutside(b: Bytes, r: Bytes, pos: nat, name: Bytes, ino: u32)
    requires IsSplit(b, r, pos, name, ino)
    ensures RecordAt(b, pos) && |r| == |b| && r[..pos] == b[..pos]
    ensures r[pos + RecLen(b, pos)..] == b[pos + RecLen(b, pos)..]
  {
    assert LookAtSplit(0);
  }

  /** Two records where there was one. */
  lemma OneMore(b: Bytes, r: Bytes, pos: nat, mid: nat, next: nat)
    requires Tiles(b, pos) && pos < |b| && next == pos + RecLen(b, pos)
    requires RecordAt(r, pos) && pos + RecLen(r, pos) == mid && EntryAt(r, pos) == EntryAt(b, pos)
    requires RecordAt(r, mid) && mid + RecLen(r, mid) == next
    requires Tiles(r, next) && Entries(r, next) == Entries(b, next)
    ensures Tiles(r, pos) && Entries(r, pos) == Inserted(Entries(b, pos), 0, EntryAt(r, mid))
  {
    assert Entries(r, mid) == [EntryAt(r, mid)] + Entries(b, next);
    assert Entries(r, pos) == [EntryAt(b, pos)] + Entries(r, mid);
  }

  /** The list from the split record on. */
  lemma SplitHere(b: Bytes, r: Bytes, pos: nat, name: Bytes, ino: u32)
    requires Tiles(b, pos) && IsSplit(b, r, pos, name, ino)
    ensures pos < |b| && Tiles(r, pos)
    ensures Entries(r, pos) == Inserted(Entries(b, pos), 0, Entry(ino, Kept(name), REG_FILE))
  {
    SplitRecords(b, r, pos, name, ino);
    SplitOutside(b, r, pos, name, ino);
    var next := pos + RecLen(b, pos);
    TailFrame(b, r, next);
    OneMore(b, r, pos, pos + Footprint(NameLen(b, pos)), next);
  }

  /** The list with a new entry after its `k`-th. */
  function Inserted(es: seq<Entry>, k: nat, e: Entry): seq<Entry>
    requires k < |es|
  {
    es[..k + 1] + [e] + es[k + 1..]
  }

  lemma InsertedLater(e0: Entry, es: seq<Entry>, k: nat, e: Entry)
    requires k < |es|
    ensures Inserted([e0] + es, k + 1, e) == [e0] + Inserted(es, k, e)
  {
  }

  /** Splitting the record at `p`, wherever the block's records have one, keeps the block
      tiled; the entry list is the old one with the new entry in it. */
  lemma {:induction false} SplitList(b: Bytes, r: Bytes, pos: nat, p: nat, name: Bytes, ino: u32) returns (k: nat)
    requires Tiles(b, pos) && OnTheWay(b, pos, p) && p < |b| && IsSplit(b, r, p, name, ino)
    ensures k < |Entries(b, pos)| && Tiles(r, pos) && Entries(b, pos)[..k + 1] == UpTo(b, pos, p)
    ensures Entries(r, pos) == Inserted(Entries(b, pos), k, Entry(ino, Kept(name), REG_FILE))
    decreases |b| - pos
  {
    if p == pos {
      SplitHere(b, r, pos, name, ino);
      k := 0;
      assert Entries(b, pos)[..1] == [EntryAt(b, pos)];
    } else {
      var next := pos + RecLen(b, pos);
      var j := SplitList(b, r, next, p, name, ino);
      k := j + 1;
      OnTheWayOrder(b, next, p);
      SplitOutside(b, r, p, name, ino);
      RecordFrame(b, r, pos, 0, p);
      SameRecordFirst(b, r, pos, j, Entry(ino, Kept(name), REG_FILE));
      TakeLater(EntryAt(b, pos), Entries(b, next), j + 1);
    }
  }

  lemma TakeLater(e: Entry, es: seq<Entry>, n: nat)
    requires n <= |es|
    ensures ([e] + es)[..n + 1] == [e] + es[..n]
  {
  }

  /** The entries of the records from `pos` to the one at `p`. */
  function UpTo(b: Bytes, pos: nat, p: nat): seq<Entry>
    requires Tiles(b, pos) && OnTheWay(b, pos, p) && p < |b|
    decreases |b| - pos
  {
    if p == pos then [EntryAt(b, pos)] else [EntryAt(b, pos)] + UpTo(b, pos + RecLen(b, pos), p)
  }

  /** A record that is the same before and after, and the insertion behind it. */
  lemma SameRecordFirst(b: Bytes, r: Bytes, pos: nat, j: nat, e: Entry)
    requires pos < |b| && Tiles(b, pos) && RecordAt(r, pos)
    requires RecLen(r, pos) == RecLen(b, pos) && EntryAt(r, pos) == EntryAt(b, pos)
    requires var next := pos + RecLen(b, pos);
             Tiles(r, next) && j < |Entries(b, next)| && Entries(r, next) == Inserted(Entries(b, next), j, e)
    ensures Tiles(r, pos) && Entries(r, pos) == Inserted(Entries(b, pos), j + 1, e)
  {
    InsertedLater(EntryAt(b, pos), Entries(b, pos + RecLen(b, pos)), j, e);
  }

  /** A walk over the records from `pos` comes to `p`. */
  predicate OnTheWay(b: Bytes, pos: nat, p: nat)
    requires Tiles(b, pos)
    decreases |b| - pos
  {
    p == pos || (pos < |b| && OnTheWay(b, pos + RecLen(b, pos), p))
  }

  lemma {:induction false} OnTheWayOrder(b: Bytes, pos: nat, p: nat)
    requires Tiles(b, pos) && OnTheWay(b, pos, p)
    ensures pos <= p && Tiles(b, p)
    decreases |b| - pos
  {
    if p != pos {
      OnTheWayOrder(b, pos + RecLen(b, pos), p);
    }
  }

  /** No record on the way to that one has the room. */
  lemma {:induction false} RoomIsFirst(b: Bytes, pos: nat, needed: nat, q: nat)
    requires Tiles(b, pos) && OnTheWay(b, pos, q) && q < Room(b, pos, needed)
    ensures RecordAt(b, q) && Slack(b, q) < needed
    decreases |b| - pos
  {
    if q != pos {
      OnTheWayOrder(b, pos + RecLen(b, pos), q);
      RoomIsFirst(b, pos + RecLen(b, pos), needed, q);
    }
  }

  lemma {:induction false} RoomOnTheWay(b: Bytes, pos: nat, needed: nat)
    requires Tiles(b, pos)
    ensures OnTheWay(b, pos, Room(b, pos, needed))
    decreases |b| - pos
  {
    if pos < |b| && Slack(b, pos) < needed {
      RoomOnTheWay(b, pos + RecLen(b, pos), needed);
    }
  }

  // ---- what an insertion means ----

  /** Only the name of the new entry is affected: it leads to the new inode unless an entry
      before has it. */
  lemma {:induction false} LookupInserted(es: seq<Entry>, k: nat, e: Entry, n: Bytes)
    requires k < |es| && e.ino != 0
    ensures n != e.name ==> Lookup(Inserted(es, k, e), n) == Lookup(es, n)
    ensures n == e.name ==>
              Lookup(Inserted(es, k, e), n) == if Lookup(es[..k + 1], n) == None then Some(e.ino) else Lookup(es, n)
    ensures Lookup(es[..k + 1], n) == None || Lookup(es[..k + 1], n) == Lookup(es, n)
  {
    var rest := Inserted(es, k, e)[1..];
    assert es[..k + 1][1..] == es[1..][..k];
    if k > 0 {
      LookupInserted(es[1..], k - 1, e, n);
      assert rest == Inserted(es[1..], k - 1, e);
    } else {
      assert rest == [e] + es[1..];
      assert rest[1..] == es[1..];
    }
  }

  lemma {:induction false} LookupLong(es: seq<Entry>, n: Bytes)
    requires forall i :: 0 <= i < |es| ==> |es[i].name| < |n|
    ensures Lookup(es, n) == None
  {
    if es != [] {
      LookupLong(es[1..], n);
    }
  }

  lemma {:induction false} NamesAreShort(b: Bytes, pos: nat)
    requires Tiles(b, pos)
    ensures forall i :: 0 <= i < |Entries(b, pos)| ==> |Entries(b, pos)[i].name| < 256
    decreases |b| - pos
  {
    if pos < |b| {
      NamesAreShort(b, pos + RecLen(b, pos));
    }
  }

  /** The room asked for, a 16-bit number. */
  function Asked(len: nat): u16 {
    Footprint(len) % TWO16
  }

  lemma AskedIs(len: nat)
    requires Footprint(len) < TWO16
    ensures Asked(len) == Footprint(len)
  {
  }

  /** Where the 16-bit number has wrapped, no record has the room: otherwise the name would be
      copied past the end of the block. */
  predicate Copyable(b: Bytes, name: Bytes)
    requires Tiles(b, 0)
  {
    Footprint(|name|) < TWO16 || Room(b, 0, Asked(|name|)) == |b|
  }

  /** The block after an insertion, if some record has the slack for it. */
  function AfterInsert(b: Bytes, name: Bytes, ino: u32): (r: Option<Bytes>)
    requires Tiles(b, 0) && Copyable(b, name)
    ensures r.Some? ==> |r.value| == |b|
  {
    var p := Room(b, 0, Asked(|name|));
    if p == |b| then None else Some(Split(b, p, name, ino))
  }

  /** The entries before the place where a new one goes. */
  function Earlier(b: Bytes, name: Bytes): seq<Entry>
    requires Tiles(b, 0)
  {
    RoomOnTheWay(b, 0, Asked(|name|));
    var p := Room(b, 0, Asked(|name|));
    if p < |b| then UpTo(b, 0, p) else Entries(b, 0)
  }

  /** Mentioned where the bytes of an insertion matter. */
  predicate LookAtInsert(k: int) {
    true
  }

  /** `r` is the block `b` after the insertion. */
  ghost predicate Inserts(b: Bytes, name: Bytes, ino: u32, r: Bytes) {
    && Tiles(b, 0) && Copyable(b, name)
    && forall k: int :: LookAtInsert(k) ==> AfterInsert(b, name, ino) == Some(r)
  }

  /** The records still fill the block, and the list is the old one with the new entry. */
  lemma InsertList(b: Bytes, name: Bytes, ino: u32, r: Bytes) returns (k: nat)
    requires Inserts(b, name, ino, r)
    ensures |r| == |b| && Tiles(r, 0) && k < |Entries(b, 0)| && Entries(b, 0)[..k + 1] == Earlier(b, name)
    ensures Entries(r, 0) == Inserted(Entries(b, 0), k, Entry(ino, Kept(name), REG_FILE))
  {
    assert LookAtInsert(0);
    var p := Room(b, 0, Asked(|name|));
    AskedIs(|name|);
    SplitBytes(b, p, name, ino);
    RoomOnTheWay(b, 0, Asked(|name|));
    k := SplitList(b, r, 0, p, name, ino);
  }

  lemma ListTheorem(es: seq<Entry>, k: nat, name: Bytes, ino: u32)
    requires k < |es| && ino != 0 && Lookup(es, name) == None
    requires forall i :: 0 <= i < |es| ==> |es[i].name| < 256
    ensures var es' := Inserted(es, k, Entry(ino, Kept(name), REG_FILE));
            && (Lookup(es', name) == Some(ino) <==> |name| <= 255)
            && (forall n: Bytes :: n != Kept(name) ==> Lookup(es', n) == Lookup(es, n))
            && Lookup(es', Kept(name))
               == if Lookup(es[..k + 1], Kept(name)) == None then Some(ino) else Lookup(es, Kept(name))
  {
    var e := Entry(ino, Kept(name), REG_FILE);
    forall n: Bytes ensures n != Kept(name) ==> Lookup(Inserted(es, k, e), n) == Lookup(es, n) {
      LookupInserted(es, k, e, n);
    }
    LookupInserted(es, k, e, Kept(name));
    if |name| <= 255 {
      assert Kept(name) == name;
    } else {
      LookupLong(Inserted(es, k, e), name);
    }
  }

  /** What an inserted name means, for every length of it. */
  ghost predicate NameEntered(es: seq<Entry>, earlier: seq<Entry>, es': seq<Entry>, name: Bytes, ino: u32) {
    && earlier <= es && es' == earlier + [Entry(ino, Kept(name), 1)] + es[|earlier|..]
    && (Lookup(es', name) == Some(ino) <==> |name| <= 255)
    && (forall n: Bytes :: n != Kept(name) ==> Lookup(es', n) == Lookup(es, n))
    && Lookup(es', Kept(name)) == if Lookup(earlier, Kept(name)) == None then Some(ino) else Lookup(es, Kept(name))
  }

  /** Inserting a name that is not there: the records still fill the block, and the name is
      found afterwards exactly if it has at most 255 bytes. Of a longer name only the first
      `|name| % 256` bytes are kept. That name then leads to the new inode, unless an earlier
      entry has it, and every other name leads where it did. */
  lemma InsertTheorem(b: Bytes, name: Bytes, ino: u32, r: Bytes)
    requires Inserts(b, name, ino, r) && ino != 0 && Lookup(Entries(b, 0), name) == None
    ensures |r| == |b| && Tiles(r, 0)
    ensures NameEntered(Entries(b, 0), Earlier(b, name), Entries(r, 0), name, ino)
  {
    var k := InsertList(b, name, ino, r);
    NamesAreShort(b, 0);
    ListTheorem(Entries(b, 0), k, name, ino);
  }

  /** So a name that is too long can take another file's name away: here `[65]` led to inode 12
      and now leads to 13. */
  lemma LongNameShadows(name: Bytes)
    requires |name| == 257 && name[0] == 65
    ensures var es := [Entry(2, [46], 2), Entry(12, [65], 1)];
            var es' := Inserted(es, 0, Entry(13, Kept(name), 1));
            Lookup(es, name) == None && Lookup(es, [65]) == Some(12) && Lookup(es', [65]) == Some(13)
  {
    var es := [Entry(2, [46], 2), Entry(12, [65], 1)];
    assert Kept(name) == [65];
    LookupLong(es, name);
    LookupInserted(es, 0, Entry(13, Kept(name), 1), [65]);
    assert es[..1] == [Entry(2, [46], 2)] && es[1..] == [Entry(12, [65], 1)];
    assert [Entry(2, [46], 2)][1..] == [];
  }

  /** The first record, from the start of the block, with enough slack for `needed` bytes. */
  method FindRoom(block: Bytes, needed: nat) returns (p: Option<nat>)
    requires Tiles(block, 0)
    ensures p == if Room(block, 0, needed) == |block| then None else Some(Room(block, 0, needed))
  {
    var pos: nat := 0;
    while pos + HEADER <= |block|
      invariant pos <= |block| && Tiles(block, pos)
      invariant Room(block, pos, needed) == Room(block, 0, needed)
    {
      var recLen := RecLen(block, pos);
      if recLen == 0 {
        break;
      }
      var slack := recLen - Footprint(NameLen(block, pos));
      if slack >= needed {
        return Some(pos);
      }
      pos := pos + recLen;
    }
    return None;
  }

  /** Cuts the record at `pos` to its own name and puts a new one behind it. */
  method SplitRecord(block: Bytes, pos: nat, name: Bytes, ino: u32) returns (b: Bytes)
    requires RecordAt(block, pos) && Slack(block, pos) >= Footprint(|name|)
    ensures b == Split(block, pos, name, ino)
  {
    var used := Footprint(NameLen(block, pos));
    var slack := RecLen(block, pos) - used;
    b := Put(block, pos, Header(Ino(block, pos), used, NameLen(block, pos), Kind(block, pos)));
    b := Put(b, pos + used, Header(ino, slack, |name| % 256, REG_FILE));
    b := Put(b, pos + used + HEADER, name);
  }

  lemma InsertsHere(b: Bytes, name: Bytes, ino: u32, p: nat)
    requires Tiles(b, 0) && Copyable(b, name) && p == Room(b, 0, Asked(|name|)) < |b|
    ensures RecordAt(b, p) && Slack(b, p) >= Footprint(|name|) && Inserts(b, name, ino, Split(b, p, name, ino))
  {
    AskedIs(|name|);
  }

  /** Splits the first record with enough slack for `name`, if there is one. */
  method Insert(block: Bytes, name: Bytes, ino: u32) returns (r: Option<Bytes>)
    requires Tiles(block, 0) && Copyable(block, name)
    ensures r.Some? ==> Inserts(block, name, ino, r.value)
    ensures r.None? <==> Room(block, 0, Asked(|name|)) == |block|
  {
    var needed: u16 := Footprint(|name|) % TWO16;
    var found := FindRoom(block, needed);
    if found.None? {
      return None;
    }
    InsertsHere(block, name, ino, found.value);
    var b := SplitRecord(block, found.value, name, ino);
    return Some(b);
  }
}
