/** Creating and deleting a file on a well-formed volume, in the steps the driver takes. */
module Fat32Update {
  import opened Words
  import opened LittleEndian
  import opened Fat32Chain
  import opened Fat32Free
  import opened Fat32Dir
  import opened Fat32Volume

  // ---- slots of the directory ----

  lemma Associative(a: seq<Bytes>, b: seq<Bytes>, c: seq<Bytes>)
    ensures (a + b) + c == a + (b + c)
  {
  }

  lemma {:induction false} DirSplit(data: seq<Bytes>, rs: seq<nat>, i: nat)
    requires i <= |rs| && forall m :: 0 <= m < |rs| ==> rs[m] < |data|
    ensures DirSlots(data, rs) == DirSlots(data, rs[..i]) + DirSlots(data, rs[i..])
    decreases |rs|
  {
    var n := |rs| - 1;
    if i == |rs| {
      assert rs[..i] == rs && rs[i..] == [];
    } else {
      DirSplit(data, rs[..n], i);
      assert rs[..n][..i] == rs[..i] && rs[..n][i..] == rs[i..][..n - i] && rs[i..][n - i] == rs[n];
      Associative(DirSlots(data, rs[..i]), DirSlots(data, rs[i..][..n - i]), Slots(data[rs[n]]));
    }
  }

  /** The directory around its `i`-th cluster. */
  lemma DirParts(data: seq<Bytes>, rs: seq<nat>, i: nat)
    requires i < |rs| && forall m :: 0 <= m < |rs| ==> rs[m] < |data|
    ensures DirSlots(data, rs[..i + 1]) == DirSlots(data, rs[..i]) + Slots(data[rs[i]])
    ensures DirSlots(data, rs) == DirSlots(data, rs[..i]) + Slots(data[rs[i]]) + DirSlots(data, rs[i + 1..])
  {
    assert rs[..i + 1][..i] == rs[..i];
    DirSplit(data, rs, i + 1);
  }

  lemma UpdateMiddle(a: seq<Bytes>, b: seq<Bytes>, c: seq<Bytes>, j: nat, s: Bytes)
    requires j < |b|
    ensures |a| + j < |a + b + c| && (a + b + c)[|a| + j] == b[j] && (a + b + c)[|a| + j := s] == a + b[j := s] + c
  {
  }

  lemma DirElsewhere(data: seq<Bytes>, rs: seq<nat>, i: nat, b: Bytes)
    requires Distinct(rs) && i < |rs| && (forall m :: 0 <= m < |rs| ==> rs[m] < |data|)
    ensures DirSlots(data[rs[i] := b], rs[..i]) == DirSlots(data, rs[..i])
    ensures DirSlots(data[rs[i] := b], rs[i + 1..]) == DirSlots(data, rs[i + 1..])
  {
    DirFrame(data, data[rs[i] := b], rs[..i]);
    DirFrame(data, data[rs[i] := b], rs[i + 1..]);
  }

  /** Changing a slot of one directory cluster changes that slot of the directory and
      nothing else. */
  lemma DirUpdate(data: seq<Bytes>, rs: seq<nat>, i: nat, j: nat, b: Bytes, s: Bytes)
    requires Distinct(rs) && i < |rs| && (forall m :: 0 <= m < |rs| ==> rs[m] < |data|)
    requires j < |Slots(data[rs[i]])| && Slots(b) == Slots(data[rs[i]])[j := s]
    ensures var k := |DirSlots(data, rs[..i])| + j;
            && k < |DirSlots(data, rs)| && DirSlots(data, rs)[k] == Slots(data[rs[i]])[j]
            && DirSlots(data[rs[i] := b], rs) == DirSlots(data, rs)[k := s]
  {
    DirParts(data, rs, i);
    DirParts(data[rs[i] := b], rs, i);
    DirElsewhere(data, rs, i, b);
    UpdateMiddle(DirSlots(data, rs[..i]), Slots(data[rs[i]]), DirSlots(data, rs[i + 1..]), j, s);
  }

  lemma FindUpdate(ss: seq<Bytes>, k: nat, s: Bytes, n: Bytes)
    requires AllSlots(ss) && IsSlot(s) && k < |ss|
    requires Terminated(ss) && UniqueNames(ss) && Terminated(ss[k := s]) && UniqueNames(ss[k := s])
    requires !Named(s, n) && !Named(ss[k], n)
    ensures Find(ss[k := s], n) == Find(ss, n)
  {
    var ss' := ss[k := s];
    if Find(ss, n).Some? {
      FindIff(ss', n, Find(ss, n).value);
    } else if Find(ss', n).Some? {
      FindIff(ss, n, Find(ss', n).value);
    }
  }

  // ---- adding ----

  /** A chain no file of the volume uses. */
  ghost predicate Unowned(v: Vol, cs: seq<nat>)
    requires |v.data| == |v.fat|
  {
    && Disjoint(cs, Root(v))
    && forall i :: 0 <= i < |Dir(v)| && Live(Dir(v)[i]) ==> Disjoint(cs, FileChain(v.fat, Dir(v)[i]))
  }

  /** `v'` is `v` with directory slot `k` holding `s`. */
  ghost predicate SlotSet(v: Vol, v': Vol, k: nat, s: Bytes) {
    && Shape(v) && Shape(v') && v'.fat == v.fat && v'.root == v.root && v'.cb == v.cb
    && IsSlot(s) && k < |Dir(v)| && Dir(v') == Dir(v)[k := s]
    && forall c :: 2 <= c < |v.data| && c !in Root(v) ==> v'.data[c] == v.data[c]
  }

  lemma OtherContent(v: Vol, v': Vol, k: nat, s: Bytes, i: nat)
    requires WellFormed(v) && SlotSet(v, v', k, s)
    requires i < |Dir(v)| && Live(Dir(v)[i])
    ensures Content(v', Dir(v)[i]) == Content(v, Dir(v)[i])
  {
    assert Disjoint(FileChain(v.fat, Dir(v)[i]), Root(v));
    FileInUse(v.fat, Dir(v)[i]);
    ContentFrame(v, v', Dir(v)[i]);
  }

  /** An entry the directory can take: not an end mark, and, if it is live, a new name
      with a chain of its own. */
  ghost predicate Fits(v: Vol, s: Bytes)
    requires |v.data| == |v.fat|
  {
    && IsSlot(s) && !IsEnd(s)
    && (Live(s) ==> Find(Dir(v), Name(s)) == None && FileOk(v.fat, s) && Unowned(v, FileChain(v.fat, s)))
  }

  lemma PlacedDirectory(ss: seq<Bytes>, k: nat, s: Bytes)
    requires AllSlots(ss) && Terminated(ss) && UniqueNames(ss)
    requires IsSlot(s) && !IsEnd(s) && k == SpareFrom(ss, 0) < |ss|
    requires Live(s) ==> Find(ss, Name(s)) == None
    ensures Terminated(ss[k := s]) && UniqueNames(ss[k := s])
  {
    if Live(s) {
      FindNone(ss, Name(s));
      forall i | 0 <= i < |ss| && Live(ss[i]) ensures Name(ss[i]) != Name(s) {
        assert !Named(ss[i], Name(s));
      }
    }
  }

  lemma PlacedFiles(fat: seq<nat>, rs: seq<nat>, ss: seq<Bytes>, k: nat, s: Bytes)
    requires AllSlots(ss) && FilesOk(fat, rs, ss) && IsSlot(s) && k < |ss|
    requires Live(s) ==> FileOk(fat, s) && Disjoint(FileChain(fat, s), rs)
    requires Live(s) ==> forall i :: 0 <= i < |ss| && Live(ss[i]) ==> Disjoint(FileChain(fat, s), FileChain(fat, ss[i]))
    ensures FilesOk(fat, rs, ss[k := s])
  {
    var ss' := ss[k := s];
    forall i, j | 0 <= i < |ss'| && 0 <= j < |ss'| && i != j && Live(ss'[i]) && Live(ss'[j])
      ensures Disjoint(FileChain(fat, ss'[i]), FileChain(fat, ss'[j]))
    {
      if j == k {
        assert Disjoint(FileChain(fat, s), FileChain(fat, ss[i]));
      }
    }
  }

  /** Putting an entry in the first spare slot: the volume stays well formed, the new name
      reads as the entry's chain, and no other name reads differently. An entry that is
      not live (its name starts with 0xE5) is never found again. */
  lemma PlaceEntry(v: Vol, v': Vol, k: nat, s: Bytes)
    requires WellFormed(v) && SlotSet(v, v', k, s) && k == SpareFrom(Dir(v), 0) && Fits(v, s)
    ensures WellFormed(v')
    ensures Live(s) ==> Read(v', Name(s)) == Some(Content(v, s))
    ensures forall n: Bytes :: n != Name(s) || !Live(s) ==> Read(v', n) == Read(v, n)
  {
    var rs, ss := Root(v), Dir(v);
    assert Root(v') == rs;
    PlacedDirectory(ss, k, s);
    PlacedFiles(v.fat, rs, ss, k, s);
    if Live(s) {
      FindIff(Dir(v'), Name(s), k);
      FileInUse(v.fat, s);
      ContentFrame(v, v', s);
    }
    forall n: Bytes | n != Name(s) || !Live(s) ensures Read(v', n) == Read(v, n) {
      FindUpdate(ss, k, s, n);
      if Find(ss, n).Some? {
        OtherContent(v, v', k, s, Find(ss, n).value);
      }
    }
  }

  // ---- extending the directory ----

  /** The root directory with one more, zeroed, cluster `c`. */
  function Extended(v: Vol, c: nat): (v': Vol)
    requires Root(v) != [] && c < |v.fat| && |v.data| == |v.fat|
    ensures |v'.data| == |v'.fat| == |v.fat|
  {
    var rs := Root(v);
    v.(fat := v.fat[c := EOC][rs[|rs| - 1] := c], data := v.data[c := Zeros(v.cb)])
  }

  lemma BlankSlots(n: nat)
    requires n % SLOT == 0
    ensures forall i :: 0 <= i < n / SLOT ==> IsEnd(Slots(Zeros(n))[i])
  {
  }

  lemma ExtendedRoot(v: Vol, c: nat)
    requires WellFormed(v) && InTable(v.fat, c) && v.fat[c] == 0
    ensures Shape(Extended(v, c)) && IsChain(Extended(v, c).fat, Root(v) + [c])
    ensures Root(Extended(v, c)) == Root(v) + [c]
    ensures Dir(Extended(v, c)) == Dir(v) + Slots(Zeros(v.cb))
  {
    var rs, w := Root(v), Extended(v, c);
    forall x | x in rs ensures v.fat[x] != 0 {
      ChainInUse(v.fat, rs, x);
    }
    assert forall i :: 0 <= i < |rs| ==> rs[i] in rs;
    ChainFrame(v.fat, v.fat[c := EOC], rs);
    ChainExtends(v.fat[c := EOC], rs, c);
    ChainIs(w.fat, rs + [c]);
    DirFrame(v.data, w.data, rs);
    assert (rs + [c])[..|rs|] == rs;
  }

  lemma ExtendedFile(v: Vol, c: nat, i: nat)
    requires WellFormed(v) && InTable(v.fat, c) && v.fat[c] == 0
    requires i < |Dir(v)| && Live(Dir(v)[i])
    ensures var w, s := Extended(v, c), Dir(v)[i];
            && FileOk(w.fat, s) && FileChain(w.fat, s) == FileChain(v.fat, s)
            && Disjoint(FileChain(w.fat, s), Root(v) + [c]) && Content(w, s) == Content(v, s)
  {
    var w, s, rs := Extended(v, c), Dir(v)[i], Root(v);
    FileInUse(v.fat, s);
    assert rs[|rs| - 1] in rs;
    FileFrame(v.fat, w.fat, s);
    ContentFrame(v, w, s);
  }

  /** Extending the directory adds end marks and changes no file. */
  lemma ExtendDirectory(v: Vol, c: nat)
    requires WellFormed(v) && InTable(v.fat, c) && v.fat[c] == 0
    ensures WellFormed(Extended(v, c)) && SameFiles(v, Extended(v, c))
    ensures Dir(Extended(v, c)) == Dir(v) + Slots(Zeros(v.cb))
  {
    var w, ss, zs := Extended(v, c), Dir(v), Slots(Zeros(v.cb));
    ExtendedRoot(v, c);
    BlankSlots(v.cb);
    forall i | 0 <= i < |ss| && Live(ss[i])
      ensures FileOk(w.fat, ss[i]) && FileChain(w.fat, ss[i]) == FileChain(v.fat, ss[i])
      ensures Disjoint(FileChain(w.fat, ss[i]), Root(w)) && Content(w, ss[i]) == Content(v, ss[i])
    {
      ExtendedFile(v, c, i);
    }
    MoreEnds(ss, zs);
    forall n: Bytes ensures Read(w, n) == Read(v, n) {
      FindBeforeEnds(ss, zs, n);
    }
  }

  lemma MoreEnds(ss: seq<Bytes>, zs: seq<Bytes>)
    requires AllSlots(ss) && AllSlots(zs) && Terminated(ss) && UniqueNames(ss)
    requires forall i :: 0 <= i < |zs| ==> IsEnd(zs[i])
    ensures Terminated(ss + zs) && UniqueNames(ss + zs)
    ensures forall i :: 0 <= i < |ss + zs| && Live((ss + zs)[i]) ==> i < |ss| && (ss + zs)[i] == ss[i]
  {
  }

  lemma FindBeforeEnds(ss: seq<Bytes>, zs: seq<Bytes>, n: Bytes)
    requires AllSlots(ss) && AllSlots(zs) && Terminated(ss) && UniqueNames(ss)
    requires forall i :: 0 <= i < |zs| ==> IsEnd(zs[i])
    ensures Find(ss + zs, n) == Find(ss, n)
  {
    MoreEnds(ss, zs);
    if Find(ss, n).Some? {
      FindIff(ss + zs, n, Find(ss, n).value);
    } else if Find(ss + zs, n).Some? {
      FindIff(ss, n, Find(ss + zs, n).value);
    }
  }

  // ---- removing ----

  function Erased(s: Bytes): (r: Bytes)
    requires IsSlot(s)
    ensures IsSlot(r) && !IsEnd(r) && !Live(r)
  {
    s[0 := DELETED]
  }

  /** Marking the slot of a file deleted and freeing its chain: the name is gone, no other
      name reads differently, and the volume stays well formed. */
  lemma RemoveEntry(v: Vol, w: Vol, v': Vol, k: nat)
    requires WellFormed(v) && k < |Dir(v)| && Live(Dir(v)[k])
    requires SlotSet(v, w, k, Erased(Dir(v)[k]))
    requires v' == w.(fat := v'.fat) && Freed(v.fat, v'.fat, FileChain(v.fat, Dir(v)[k]))
    ensures WellFormed(v') && Dir(v') == Dir(v)[k := Erased(Dir(v)[k])] && Read(v', Name(Dir(v)[k])) == None
    ensures forall n: Bytes :: n != Name(Dir(v)[k]) ==> Read(v', n) == Read(v, n)
  {
    var rs, ss, s := Root(v), Dir(v), Dir(v)[k];
    var t := Erased(s);
    assert Disjoint(FileChain(v.fat, s), rs);
    RootSurvives(v, v', FileChain(v.fat, s));
    assert Dir(v') == ss[k := t];
    forall i | 0 <= i < |ss| && i != k && Live(ss[i])
      ensures FileOk(v'.fat, ss[i]) && FileChain(v'.fat, ss[i]) == FileChain(v.fat, ss[i])
      ensures Content(v', ss[i]) == Content(v, ss[i])
    {
      assert Disjoint(FileChain(v.fat, ss[i]), FileChain(v.fat, s));
      assert Disjoint(FileChain(v.fat, ss[i]), rs);
      FileFrame(v.fat, v'.fat, ss[i]);
      ContentFrame(v, v', ss[i]);
    }
    RemovedDirectory(ss, k);
    forall n: Bytes | n != Name(s) ensures Read(v', n) == Read(v, n) {
      FindUpdate(ss, k, t, n);
      if Find(ss, n).Some? {
        assert Find(ss, n).value != k;
      }
    }
  }

  lemma RemovedDirectory(ss: seq<Bytes>, k: nat)
    requires AllSlots(ss) && Terminated(ss) && UniqueNames(ss) && k < |ss| && Live(ss[k])
    ensures Terminated(ss[k := Erased(ss[k])]) && UniqueNames(ss[k := Erased(ss[k])])
    ensures Find(ss[k := Erased(ss[k])], Name(ss[k])) == None
  {
    FindNone(ss[k := Erased(ss[k])], Name(ss[k]));
  }

  lemma RootSurvives(v: Vol, v': Vol, cs: seq<nat>)
    requires WellFormed(v) && Shape(v') && v'.root == v.root && |v'.fat| == |v.fat|
    requires Freed(v.fat, v'.fat, cs) && Disjoint(cs, Root(v))
    ensures IsChain(v'.fat, Root(v)) && Root(v') == Root(v)
  {
    var rs := Root(v);
    assert forall i :: 0 <= i < |rs| ==> rs[i] in rs;
    ChainFrame(v.fat, v'.fat, rs);
    ChainIs(v'.fat, rs);
  }
}
