/** A FAT32 volume as a table and cluster contents: what a well-formed volume is, what
    reading a name means, and why creating and deleting a file leave every other one alone. */
module Fat32Volume {
  import opened Words
  import opened LittleEndian
  import opened Fat32Chain
  import opened Fat32Dir

  /** `root` is the first cluster of the root directory, `cb` the bytes of a cluster. */
  datatype Vol = Vol(root: nat, cb: nat, fat: seq<nat>, data: seq<Bytes>)

  ghost predicate Shape(v: Vol) {
    && |v.data| == |v.fat| <= EOC && v.cb > 0 && v.cb % SLOT == 0 && InTable(v.fat, v.root)
    && forall c :: 2 <= c < |v.data| ==> |v.data[c]| == v.cb
  }

  /** The bytes of the clusters `cs`, end to end. */
  function Flat(data: seq<Bytes>, cs: seq<nat>): Bytes
    requires forall i :: 0 <= i < |cs| ==> cs[i] < |data|
  {
    if cs == [] then [] else Flat(data, cs[..|cs| - 1]) + data[cs[|cs| - 1]]
  }

  /** The slots of the clusters `rs`, end to end. */
  function DirSlots(data: seq<Bytes>, rs: seq<nat>): (ss: seq<Bytes>)
    requires forall i :: 0 <= i < |rs| ==> rs[i] < |data|
    ensures AllSlots(ss)
  {
    if rs == [] then [] else DirSlots(data, rs[..|rs| - 1]) + Slots(data[rs[|rs| - 1]])
  }

  function Follows(fat: seq<nat>, c: nat): (cs: seq<nat>)
    ensures forall i :: 0 <= i < |cs| ==> InTable(fat, cs[i])
  {
    FollowInTable(fat, c, |fat|);
    Chain(fat, c)
  }

  lemma {:induction false} FollowInTable(fat: seq<nat>, c: nat, fuel: nat)
    ensures forall i :: 0 <= i < |Follow(fat, c, fuel)| ==> InTable(fat, Follow(fat, c, fuel)[i])
    decreases fuel
  {
    if fuel > 0 && InTable(fat, c) {
      FollowInTable(fat, fat[c], fuel - 1);
    }
  }

  function Root(v: Vol): (rs: seq<nat>)
    ensures forall i :: 0 <= i < |rs| ==> InTable(v.fat, rs[i])
  {
    Follows(v.fat, v.root)
  }

  function Dir(v: Vol): (ss: seq<Bytes>)
    requires |v.data| == |v.fat|
    ensures AllSlots(ss)
  {
    DirSlots(v.data, Root(v))
  }

  /** The clusters of the file a slot names. */
  function FileChain(fat: seq<nat>, s: Bytes): (cs: seq<nat>)
    requires IsSlot(s)
    ensures forall i :: 0 <= i < |cs| ==> InTable(fat, cs[i])
  {
    Follows(fat, FirstCluster(s))
  }

  /** The whole-file read of a slot: as much of the recorded size as the chain holds. */
  function Content(v: Vol, s: Bytes): Bytes
    requires |v.data| == |v.fat| && IsSlot(s)
  {
    var b := Flat(v.data, FileChain(v.fat, s));
    if Size(s) <= |b| then b[..Size(s)] else b
  }

  /** What reading a name gives: nothing if there is no such file. */
  function Read(v: Vol, name: Bytes): Option<Bytes>
    requires |v.data| == |v.fat|
  {
    match Find(Dir(v), name)
    case Some(i) => Some(Content(v, Dir(v)[i]))
    case None => None
  }

  // ---- well-formedness ----

  /** A file with no clusters, as other systems store an empty one. */
  predicate NoClusters(s: Bytes)
    requires IsSlot(s)
  {
    (FirstCluster(s) < 2 && Size(s) == 0) || FirstCluster(s) >= EOC
  }

  ghost predicate FileOk(fat: seq<nat>, s: Bytes)
    requires IsSlot(s)
  {
    NoClusters(s) || (InTable(fat, FirstCluster(s)) && IsChain(fat, FileChain(fat, s)))
  }

  ghost predicate Disjoint(a: seq<nat>, b: seq<nat>) {
    forall c :: c in a ==> c !in b
  }

  ghost predicate FilesOk(fat: seq<nat>, rs: seq<nat>, ss: seq<Bytes>)
    requires AllSlots(ss)
  {
    && (forall i :: 0 <= i < |ss| && Live(ss[i]) ==> FileOk(fat, ss[i]) && Disjoint(FileChain(fat, ss[i]), rs))
    && (forall i, j :: 0 <= i < |ss| && 0 <= j < |ss| && i != j && Live(ss[i]) && Live(ss[j]) ==>
          Disjoint(FileChain(fat, ss[i]), FileChain(fat, ss[j])))
  }

  /** Chains that end, share no cluster with each other or with the directory, an intact
      end mark and no name twice. */
  ghost predicate WellFormed(v: Vol) {
    && Shape(v) && IsChain(v.fat, Root(v))
    && Terminated(Dir(v)) && UniqueNames(Dir(v)) && FilesOk(v.fat, Root(v), Dir(v))
  }

  // ---- framing ----

  lemma {:induction false} FlatFrame(data: seq<Bytes>, data': seq<Bytes>, cs: seq<nat>)
    requires |data| == |data'| && forall i :: 0 <= i < |cs| ==> cs[i] < |data| && data'[cs[i]] == data[cs[i]]
    ensures Flat(data', cs) == Flat(data, cs)
  {
    if cs != [] {
      FlatFrame(data, data', cs[..|cs| - 1]);
    }
  }

  lemma {:induction false} DirFrame(data: seq<Bytes>, data': seq<Bytes>, rs: seq<nat>)
    requires |data| == |data'| && forall i :: 0 <= i < |rs| ==> rs[i] < |data| && data'[rs[i]] == data[rs[i]]
    ensures DirSlots(data', rs) == DirSlots(data, rs)
  {
    if rs != [] {
      DirFrame(data, data', rs[..|rs| - 1]);
    }
  }

  /** A file whose clusters' table entries are untouched keeps its chain. */
  lemma FileFrame(fat: seq<nat>, fat': seq<nat>, s: Bytes)
    requires |fat'| == |fat| <= EOC && IsSlot(s) && FileOk(fat, s)
    requires forall c :: c in FileChain(fat, s) ==> fat'[c] == fat[c]
    ensures FileOk(fat', s) && FileChain(fat', s) == FileChain(fat, s)
  {
    if !NoClusters(s) {
      var cs := FileChain(fat, s);
      assert forall i :: 0 <= i < |cs| ==> cs[i] in cs;
      ChainFrame(fat, fat', cs);
      ChainIs(fat', cs);
      assert cs[0] == FirstCluster(s);
    }
  }

  lemma ContentFrame(v: Vol, v': Vol, s: Bytes)
    requires |v.data| == |v.fat| == |v'.fat| == |v'.data| <= EOC && IsSlot(s) && FileOk(v.fat, s)
    requires forall c :: c in FileChain(v.fat, s) ==> v'.fat[c] == v.fat[c] && v'.data[c] == v.data[c]
    ensures Content(v', s) == Content(v, s)
  {
    FileFrame(v.fat, v'.fat, s);
    var cs := FileChain(v.fat, s);
    assert forall i :: 0 <= i < |cs| ==> cs[i] in cs;
    FlatFrame(v.data, v'.data, cs);
  }

  ghost predicate SameFiles(v: Vol, v': Vol)
    requires |v.data| == |v.fat| && |v'.data| == |v'.fat|
  {
    forall n: Bytes :: Read(v', n) == Read(v, n)
  }

  /** Clusters the volume does not use can change freely. */
  lemma UnusedFrame(v: Vol, v': Vol)
    requires WellFormed(v) && Shape(v') && |v'.fat| == |v.fat| && v'.root == v.root && v'.cb == v.cb
    requires forall c :: 2 <= c < |v.fat| && v.fat[c] != 0 ==> v'.fat[c] == v.fat[c] && v'.data[c] == v.data[c]
    ensures WellFormed(v') && Root(v') == Root(v) && Dir(v') == Dir(v) && SameFiles(v, v')
  {
    var rs, ss := Root(v), Dir(v);
    forall c | c in rs ensures v.fat[c] != 0 {
      ChainInUse(v.fat, rs, c);
    }
    assert forall i :: 0 <= i < |rs| ==> rs[i] in rs;
    ChainFrame(v.fat, v'.fat, rs);
    ChainIs(v.fat, rs);
    ChainIs(v'.fat, rs);
    DirFrame(v.data, v'.data, rs);
    forall i | 0 <= i < |ss| && Live(ss[i])
      ensures FileOk(v'.fat, ss[i]) && FileChain(v'.fat, ss[i]) == FileChain(v.fat, ss[i])
      ensures Content(v', ss[i]) == Content(v, ss[i])
    {
      FileInUse(v.fat, ss[i]);
      FileFrame(v.fat, v'.fat, ss[i]);
      ContentFrame(v, v', ss[i]);
    }
  }

  lemma RootStart(v: Vol)
    requires Shape(v)
    ensures Root(v) != [] && Root(v)[0] == v.root
  {
  }

  lemma FileInUse(fat: seq<nat>, s: Bytes)
    requires |fat| <= EOC && IsSlot(s) && FileOk(fat, s)
    ensures forall c :: c in FileChain(fat, s) ==> InTable(fat, c) && fat[c] != 0
  {
    if !NoClusters(s) {
      forall c | c in FileChain(fat, s) ensures InTable(fat, c) && fat[c] != 0 {
        ChainInUse(fat, FileChain(fat, s), c);
      }
    }
  }
}
