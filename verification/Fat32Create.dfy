/** The volume through the steps of creating a file. */
module Fat32Create {
  import opened Words
  import opened LittleEndian
  import opened Fat32Chain
  import opened Fat32Free
  import opened Fat32Dir
  import opened Fat32Volume
  import opened Fat32Update
  import opened Fat32Access

  lemma UsedElsewhere(v: Vol, cs: seq<nat>)
    requires WellFormed(v) && FreshIn(v.fat, cs)
    ensures Unowned(v, cs)
  {
    forall c | c in cs ensures c !in Root(v) {
      if c in Root(v) {
        ChainInUse(v.fat, Root(v), c);
        assert false;
      }
    }
    forall i | 0 <= i < |Dir(v)| && Live(Dir(v)[i]) ensures Disjoint(cs, FileChain(v.fat, Dir(v)[i])) {
      FileInUse(v.fat, Dir(v)[i]);
    }
  }

  /** Taking free clusters and writing in them changes no file; the clusters belong to
      nobody yet. */
  lemma AllocKeeps(v: Vol, w: Vol, cs: seq<nat>)
    requires WellFormed(v) && FreshIn(v.fat, cs) && Shape(w) && w.root == v.root && w.cb == v.cb
    requires w.fat == Linked(v.fat, cs)
    requires forall c :: 2 <= c < |v.data| && c !in cs ==> w.data[c] == v.data[c]
    ensures WellFormed(w) && SameFiles(v, w) && Dir(w) == Dir(v) && Root(w) == Root(v) && Unowned(w, cs)
  {
    UsedElsewhere(v, cs);
    forall c | 2 <= c < |v.fat| && v.fat[c] != 0 ensures w.fat[c] == v.fat[c] && w.data[c] == v.data[c] {
      if c in cs {
        assert false;
      }
      LinkedFrame(v.fat, cs, c);
    }
    UnusedFrame(v, w);
    forall i | 0 <= i < |Dir(v)| && Live(Dir(v)[i])
      ensures FileChain(w.fat, Dir(v)[i]) == FileChain(v.fat, Dir(v)[i])
    {
      FileInUse(v.fat, Dir(v)[i]);
      FileFrame(v.fat, w.fat, Dir(v)[i]);
    }
  }

  /** Extending the directory leaves a chain that belongs to nobody as it is. */
  lemma ExtendKeepsUnowned(v: Vol, c: nat, cs: seq<nat>)
    requires WellFormed(v) && InTable(v.fat, c) && v.fat[c] == 0 && IsChain(v.fat, cs) && Unowned(v, cs)
    ensures var w := Extended(v, c);
            IsChain(w.fat, cs) && Unowned(w, cs) && forall x :: x in cs ==> w.data[x] == v.data[x]
  {
    var w, rs := Extended(v, c), Root(v);
    forall x | x in cs ensures x != c && x != rs[|rs| - 1] {
      ChainInUse(v.fat, cs, x);
      assert rs[|rs| - 1] in rs;
    }
    assert forall i :: 0 <= i < |cs| ==> cs[i] in cs;
    ChainFrame(v.fat, w.fat, cs);
    ExtendedRoot(v, c);
    BlankSlots(v.cb);
    forall i | 0 <= i < |Dir(w)| && Live(Dir(w)[i]) ensures Disjoint(cs, FileChain(w.fat, Dir(w)[i])) {
      if i < |Dir(v)| {
        ExtendedFile(v, c, i);
      }
    }
  }

  /** The new entry is one the directory can take, and its file is the new chain. */
  lemma EntryFits(v: Vol, name: Bytes, cs: seq<nat>, size: u32)
    requires WellFormed(v) && |name| == 11 && name[0] != 0 && Find(Dir(v), name) == None
    requires IsChain(v.fat, cs) && Unowned(v, cs)
    ensures var s := Entry(name, cs[0], size);
            Fits(v, s) && FileChain(v.fat, s) == cs && Name(s) == name && Size(s) == size
            && (Live(s) <==> name[0] != DELETED)
  {
    var s := Entry(name, cs[0], size);
    EntryFields(name, cs[0], size);
    ChainIs(v.fat, cs);
  }

  /** The directory with no spare slot, extended: its first spare slot is the first new one. */
  lemma SpareAfterExtend(v: Vol, c: nat)
    requires WellFormed(v) && InTable(v.fat, c) && v.fat[c] == 0 && SpareFrom(Dir(v), 0) == |Dir(v)|
    ensures var w := Extended(v, c);
            && |Root(w)| == |Root(v)| + 1 && Root(w)[|Root(v)|] == c && Per(w) == Per(v) > 0
            && SpareFrom(Dir(w), 0) == Pos(w, |Root(v)|, 0) < |Dir(w)|
  {
    ExtendedRoot(v, c);
    DirFrame(v.data, Extended(v, c).data, Root(v));
    assert Root(Extended(v, c))[..|Root(v)|] == Root(v);
    BlankSlots(v.cb);
    SpareAppend(Dir(v), Slots(Zeros(v.cb)), 0);
  }

  /** Taking a cluster, zeroing it and hanging it on the directory is extending it. */
  lemma ExtendSteps(v: Vol, cs: seq<nat>)
    requires WellFormed(v) && FreshIn(v.fat, cs) && |cs| == 1
    ensures var rs := Root(v);
            && rs[|rs| - 1] != cs[0] && Linked(v.fat, cs) == v.fat[cs[0] := EOC]
            && Extended(v, cs[0]) == v.(fat := Linked(v.fat, cs)[rs[|rs| - 1] := cs[0]], data := v.data[cs[0] := Zeros(v.cb)])
  {
    var rs := Root(v);
    assert rs[|rs| - 1] in rs;
    ChainInUse(v.fat, rs, rs[|rs| - 1]);
  }

  lemma FreeAfterExtend(v: Vol, c: nat)
    requires WellFormed(v) && InTable(v.fat, c) && v.fat[c] == 0
    ensures FreeSet(Extended(v, c).fat) == FreeSet(v.fat) - {c}
  {
    var rs := Root(v);
    assert rs[|rs| - 1] in rs;
    ChainInUse(v.fat, rs, rs[|rs| - 1]);
  }

  /** `w` is `v` with one more file `name`, on the chain `cs`. A name stored with first byte
      0xE5 counts as deleted, so such a file can never be read. */
  ghost predicate Entered(v: Vol, w: Vol, name: Bytes, cs: seq<nat>, content: Bytes)
    requires |v.data| == |v.fat|
  {
    && WellFormed(w)
    && (forall n: Bytes :: n != name ==> Read(w, n) == Read(v, n))
    && Read(w, name) == (if |name| > 0 && name[0] == DELETED then None else Some(content))
    && (Find(Dir(w), name).Some? ==> FileChain(w.fat, Dir(w)[Find(Dir(w), name).value]) == cs)
  }

  /** Placing the entry of a chain that belongs to nobody. */
  lemma EnterFile(v: Vol, w: Vol, k: nat, name: Bytes, cs: seq<nat>, size: u32)
    requires WellFormed(v) && |name| == 11 && name[0] != 0 && Find(Dir(v), name) == None
    requires IsChain(v.fat, cs) && Unowned(v, cs) && k == SpareFrom(Dir(v), 0)
    requires SlotSet(v, w, k, Entry(name, cs[0], size))
    ensures Entered(v, w, name, cs, TakeTo(Flat(v.data, cs), size))
  {
    var s := Entry(name, cs[0], size);
    EntryFits(v, name, cs, size);
    PlaceEntry(v, w, k, s);
    if Live(s) {
      FindIff(Dir(w), name, k);
    }
  }

  lemma EnteredAfterSame(v: Vol, u: Vol, w: Vol, name: Bytes, cs: seq<nat>, content: Bytes)
    requires |v.data| == |v.fat| && |u.data| == |u.fat| && SameFiles(v, u) && Entered(u, w, name, cs, content)
    ensures Entered(v, w, name, cs, content)
  {
  }

  lemma FindSame(v: Vol, u: Vol, name: Bytes)
    requires |v.data| == |v.fat| && |u.data| == |u.fat| && SameFiles(v, u) && Find(Dir(v), name) == None
    ensures Find(Dir(u), name) == None
  {
    assert Read(u, name) == Read(v, name);
  }

  /** `u` is `v` with room for an entry: as it was, or its directory extended by `ext`. */
  ghost predicate MadeRoom(v: Vol, u: Vol, ext: seq<nat>)
    requires WellFormed(v)
  {
    RootStart(v);
    if ext == [] then u == v else |ext| == 1 && FreshIn(v.fat, ext) && u == Extended(v, ext[0])
  }

  lemma RoomKeeps(v: Vol, u: Vol, ext: seq<nat>, name: Bytes, cs: seq<nat>)
    requires WellFormed(v) && MadeRoom(v, u, ext) && IsChain(v.fat, cs) && Unowned(v, cs)
    requires Find(Dir(v), name) == None
    ensures WellFormed(u) && SameFiles(v, u) && Find(Dir(u), name) == None
    ensures IsChain(u.fat, cs) && Unowned(u, cs) && Flat(u.data, cs) == Flat(v.data, cs)
    ensures FreeSet(u.fat) == FreeSet(v.fat) - Clusters(ext)
  {
    if ext != [] {
      ExtendDirectory(v, ext[0]);
      ExtendKeepsUnowned(v, ext[0], cs);
      FreeAfterExtend(v, ext[0]);
      FlatFrame(v.data, u.data, cs);
      FindSame(v, u, name);
    }
  }

  lemma EntryAdded(v: Vol, u: Vol, w: Vol, k: nat, name: Bytes, cs: seq<nat>, size: u32)
    requires WellFormed(v) && WellFormed(u) && SameFiles(v, u) && |name| == 11 && name[0] != 0 && Find(Dir(u), name) == None
    requires IsChain(u.fat, cs) && Unowned(u, cs) && k == SpareFrom(Dir(u), 0)
    requires IsChain(v.fat, cs) && Flat(u.data, cs) == Flat(v.data, cs)
    requires SlotSet(u, w, k, Entry(name, cs[0], size))
    ensures Entered(v, w, name, cs, TakeTo(Flat(v.data, cs), size)) && w.fat == u.fat
  {
    EnterFile(u, w, k, name, cs, size);
    EnteredAfterSame(v, u, w, name, cs, TakeTo(Flat(u.data, cs), size));
  }

  // ---- what ends up where ----

  predicate LookAtLaid(k: int) { true }

  /** The first spare slot of the directory of `v`, or the first beyond, is `s` in `w`; what else
      is new is blank, and the clusters `cs` are as they were. */
  ghost predicate SlotTaken(v: Vol, w: Vol, s: Bytes, cs: seq<nat>) {
    forall k: int :: LookAtLaid(k) ==>
      && |v.data| == |v.fat| == |w.data| == |w.fat| && w.cb == v.cb
      && OnlyNew(Dir(v), Dir(w), SpareFrom(Dir(v), 0), s)
      && forall c :: c in cs ==> c < |v.data| && w.data[c] == v.data[c]
  }

  ghost predicate OnlyNew(ss: seq<Bytes>, ss': seq<Bytes>, k: nat, s: Bytes) {
    && |ss| <= |ss'| && k < |ss'|
    && forall i :: 0 <= i < |ss'| ==> ss'[i] == if i == k then s else if i < |ss| then ss[i] else Zeros(SLOT)
  }

  lemma BlankSlot(n: nat, i: nat)
    requires i < n / SLOT
    ensures Slots(Zeros(n))[i] == Zeros(SLOT)
  {
  }

  lemma RoomDir(v: Vol, u: Vol, ext: seq<nat>)
    requires WellFormed(v) && MadeRoom(v, u, ext)
    ensures |v.data| == |v.fat| && |u.data| == |u.fat| && Shape(v)
    ensures |Dir(v)| <= |Dir(u)| && forall i :: 0 <= i < |Dir(u)| ==> Dir(u)[i] == if i < |Dir(v)| then Dir(v)[i] else Zeros(SLOT)
  {
    if ext != [] {
      ExtendedRoot(v, ext[0]);
      forall i | |Dir(v)| <= i < |Dir(u)| ensures Dir(u)[i] == Zeros(SLOT) {
        BlankSlot(v.cb, i - |Dir(v)|);
      }
    }
  }

  lemma TakesSlot(v: Vol, u: Vol, w: Vol, ext: seq<nat>, k: nat, s: Bytes, cs: seq<nat>)
    requires WellFormed(v) && MadeRoom(v, u, ext) && Shape(u) && SlotSet(u, w, k, s) && k == SpareFrom(Dir(u), 0)
    requires Shape(v) && (ext == [] <==> SpareFrom(Dir(v), 0) < |Dir(v)|)
    requires IsChain(v.fat, cs) && Unowned(v, cs) && Unowned(u, cs)
    ensures SlotTaken(v, w, s, cs)
  {
    RoomDir(v, u, ext);
    assert k == SpareFrom(Dir(v), 0) by {
      if ext != [] {
        SpareAfterExtend(v, ext[0]);
        SpareAtEnd(v, u);
      }
    }
    TakesNoData(v, u, w, ext, k, s, cs);
  }

  lemma SpareAtEnd(v: Vol, u: Vol)
    requires |v.data| == |v.fat| && |u.data| == |u.fat|
    requires |Dir(v)| < |Dir(u)| && SpareFrom(Dir(v), 0) == |Dir(v)| && Spare(Dir(u)[|Dir(v)|])
    requires forall i :: 0 <= i < |Dir(v)| ==> Dir(u)[i] == Dir(v)[i]
    ensures SpareFrom(Dir(u), 0) == |Dir(v)|
  {
  }

  lemma TakesNoData(v: Vol, u: Vol, w: Vol, ext: seq<nat>, k: nat, s: Bytes, cs: seq<nat>)
    requires WellFormed(v) && MadeRoom(v, u, ext) && Shape(u) && SlotSet(u, w, k, s)
    requires IsChain(v.fat, cs) && Unowned(v, cs) && Unowned(u, cs)
    ensures |v.data| == |v.fat| == |w.data| == |w.fat| && w.cb == v.cb
    ensures forall c :: c in cs ==> c < |v.data| && w.data[c] == v.data[c]
  {
    if ext != [] {
      ExtendKeepsUnowned(v, ext[0], cs);
    }
    forall c | c in cs ensures c < |v.data| && w.data[c] == v.data[c] {
      ChainInUse(v.fat, cs, c);
      assert c !in Root(u);
    }
  }

  /** The chain `cs` holds `bytes`, and zeros to the end of its last cluster. */
  ghost predicate DataLaid(w: Vol, cs: seq<nat>, bytes: Bytes) {
    forall k: int :: LookAtLaid(k) ==>
      && |bytes| <= |cs| * w.cb && (forall i :: 0 <= i < |cs| ==> cs[i] < |w.data|)
      && Flat(w.data, cs) == bytes + Zeros(|cs| * w.cb - |bytes|)
  }

  lemma FillLays(v: Vol, w: Vol, cs: seq<nat>, bytes: Bytes)
    requires Filled(v, w, cs, bytes, |cs|) && |bytes| <= |cs| * v.cb
    ensures DataLaid(w, cs, bytes)
  {
    FilledPads(w.data, cs, bytes, w.cb);
  }

  /** In `w` the entry `s` stands for the chain `cs`, which holds `bytes` and zeros; nothing else
      in the directory of `v` has changed. */
  ghost predicate Laid(v: Vol, w: Vol, s: Bytes, cs: seq<nat>, bytes: Bytes) {
    forall k: int :: LookAtLaid(k) ==>
      && |v.data| == |v.fat| && |w.data| == |w.fat| && OnlyNew(Dir(v), Dir(w), SpareFrom(Dir(v), 0), s)
      && DataLaid(w, cs, bytes)
  }

  lemma LaidAfter(v: Vol, u: Vol, w: Vol, s: Bytes, cs: seq<nat>, bytes: Bytes)
    requires |v.data| == |v.fat| && |u.data| == |u.fat| && Dir(u) == Dir(v)
    requires DataLaid(u, cs, bytes) && SlotTaken(u, w, s, cs)
    ensures Laid(v, w, s, cs, bytes)
  {
    assert LookAtLaid(0);
    forall i | 0 <= i < |cs| ensures w.data[cs[i]] == u.data[cs[i]] {
      assert cs[i] in cs;
    }
    FlatFrame(u.data, w.data, cs);
  }

  /** The clusters a file of `size` bytes takes. */
  function Needed(size: u32, cb: nat): nat
    requires cb > 0
  {
    if size == 0 then 1 else (size + cb - 1) % TWO32 / cb
  }

  /** The 32-bit sum wraps only to ask for no cluster at all; otherwise it asks for the least
      number, at least one, that has room for the data. */
  lemma NeededIsEnough(size: u32, cb: nat)
    requires 0 < cb <= 64 * 512
    ensures Needed(size, cb) == 0 <==> size + cb - 1 >= TWO32
    ensures Needed(size, cb) > 0 ==> size <= Needed(size, cb) * cb
    ensures Needed(size, cb) > 1 ==> (Needed(size, cb) - 1) * cb < size
  {
    DivParts((size + cb - 1) % TWO32, cb);
    var n := Needed(size, cb);
    assert (n - 1) * cb == n * cb - cb;
  }

  /** Once the data is on its chain: no file has changed, the chain belongs to nobody and
      reads back as the data. */
  lemma DataWritten(v: Vol, w: Vol, cs: seq<nat>, bytes: Bytes)
    requires WellFormed(v) && FreshIn(v.fat, cs) && cs != [] && Shape(w)
    requires Filled(v.(fat := Linked(v.fat, cs)), w, cs, bytes, |cs|) && |bytes| <= |cs| * v.cb
    ensures Shape(v) && DataReady(v, w, cs, bytes)
  {
    AllocKeeps(v, w, cs);
    LinkedIsChain(v.fat, cs);
    FilledReads(w.data, cs, bytes, v.cb);
    FreeAfterLink(v.fat, cs);
  }

  /** `w` is `v` with `bytes` on the chain `cs`, which belongs to nobody. */
  ghost predicate DataReady(v: Vol, w: Vol, cs: seq<nat>, bytes: Bytes)
    requires Shape(v)
  {
    && WellFormed(w) && SameFiles(v, w) && Dir(w) == Dir(v)
    && IsChain(w.fat, cs) && Unowned(w, cs) && TakeTo(Flat(w.data, cs), |bytes|) == bytes
    && |FreeSet(w.fat)| == |FreeSet(v.fat)| - |cs| && FreeSet(w.fat) == FreeSet(v.fat) - Clusters(cs)
    && Clusters(cs) <= FreeSet(v.fat)
  }

  lemma FileStored(v: Vol, w: Vol, u: Vol, name: Bytes, cs: seq<nat>, ext: seq<nat>, bytes: Bytes)
    requires Shape(v) && DataReady(v, w, cs, bytes) && Entered(w, u, name, cs, bytes)
    requires |ext| <= 1 && FreeSet(u.fat) == FreeSet(w.fat) - Clusters(ext) && Clusters(ext) <= FreeSet(w.fat)
    ensures Entered(v, u, name, cs, bytes) && Spent(v, u, cs, ext)
  {
    EnteredAfterSame(v, w, u, name, cs, bytes);
    SpentMore(v, w, u, cs, ext);
  }

  /** Giving the chain back leaves every file as it was. */
  lemma DataDropped(v: Vol, w: Vol, u: Vol, cs: seq<nat>, bytes: Bytes)
    requires WellFormed(v) && FreshIn(v.fat, cs) && cs != [] && Shape(w) && Shape(u)
    requires Filled(v.(fat := Linked(v.fat, cs)), w, cs, bytes, |cs|)
    requires u == w.(fat := u.fat) && Freed(w.fat, u.fat, cs)
    ensures WellFormed(u) && SameFiles(v, u)
  {
    TakeThenFree(v.fat, cs, u.fat);
    forall c | 2 <= c < |v.fat| && v.fat[c] != 0 ensures u.fat[c] == v.fat[c] && u.data[c] == v.data[c] {
      if c in cs {
        assert false;
      }
    }
    UnusedFrame(v, u);
  }

  /** From `v` to `w` exactly the free clusters `cs`, and one more at most, have been taken. */
  ghost predicate Spent(v: Vol, w: Vol, cs: seq<nat>, ext: seq<nat>) {
    && |ext| <= 1 && Clusters(cs) <= FreeSet(v.fat) && Clusters(cs) !! Clusters(ext)
    && FreeSet(w.fat) == FreeSet(v.fat) - Clusters(cs) - Clusters(ext)
  }

  lemma SpentMore(v: Vol, w: Vol, u: Vol, cs: seq<nat>, ext: seq<nat>)
    requires FreeSet(w.fat) == FreeSet(v.fat) - Clusters(cs) && Clusters(cs) <= FreeSet(v.fat)
    requires |ext| <= 1 && FreeSet(u.fat) == FreeSet(w.fat) - Clusters(ext) && Clusters(ext) <= FreeSet(w.fat)
    ensures Spent(v, u, cs, ext)
  {
  }

  /** Clusters a new file takes in all, with the one a full directory is extended by. */
  ghost function Wanted(v: Vol, size: u32): nat
    requires Shape(v)
  {
    Needed(size, v.cb) + if SpareFrom(Dir(v), 0) < |Dir(v)| then 0 else 1
  }

  /** `w` is `v` without the file in slot `k`, its clusters free again. */
  ghost predicate Removed(v: Vol, w: Vol, k: nat)
    requires |v.data| == |v.fat| && k < |Dir(v)|
  {
    var s := Dir(v)[k];
    && WellFormed(w) && Dir(w) == Dir(v)[k := [DELETED] + s[1..]] && Read(w, Name(s)) == None
    && (forall n: Bytes :: n != Name(s) ==> Read(w, n) == Read(v, n))
    && FreeSet(w.fat) == FreeSet(v.fat) + Clusters(FileChain(v.fat, s))
  }

  lemma RemoveFile(v: Vol, u: Vol, w: Vol, k: nat)
    requires WellFormed(v) && k < |Dir(v)| && Live(Dir(v)[k])
    requires SlotSet(v, u, k, Erased(Dir(v)[k]))
    requires w == u.(fat := w.fat) && Freed(v.fat, w.fat, FileChain(v.fat, Dir(v)[k]))
    ensures Removed(v, w, k)
  {
    RemoveEntry(v, u, w, k);
    assert Erased(Dir(v)[k]) == [DELETED] + Dir(v)[k][1..];
    FreedSet(v.fat, w.fat, FileChain(v.fat, Dir(v)[k]));
  }

  /** Removing the file that was just entered. */
  lemma EnteredThenRemoved(v: Vol, u: Vol, w: Vol, name: Bytes, cs: seq<nat>, ext: seq<nat>, content: Bytes)
    requires WellFormed(v) && Find(Dir(v), name) == None && Entered(v, u, name, cs, content)
    requires Find(Dir(u), name).Some? && Removed(u, w, Find(Dir(u), name).value)
    requires Spent(v, u, cs, ext)
    ensures SameFiles(v, w) && FreeSet(w.fat) == FreeSet(v.fat) - Clusters(ext)
  {
    forall n: Bytes ensures Read(w, n) == Read(v, n) {
      if n != name {
        assert Read(u, n) == Read(v, n);
      }
    }
  }
}
