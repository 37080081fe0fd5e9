/** What each step of walking the directory, reading a chain and filling one contributes. */
module Fat32Access {
  import opened Words
  import opened LittleEndian
  import opened Fat32Chain
  import opened Fat32Dir
  import opened Fat32Volume
  import opened Fat32Update

  /** Slots per directory cluster. */
  function Per(v: Vol): nat {
    v.cb / SLOT
  }

  /** What walking a chain reaches after `i` clusters: the next one, or an end mark. */
  ghost predicate At(fat: seq<nat>, cs: seq<nat>, i: nat, c: nat) {
    i <= |cs| && if i < |cs| then c == cs[i] else c >= EOC
  }

  lemma AtNext(fat: seq<nat>, cs: seq<nat>, i: nat)
    requires IsChain(fat, cs) && i < |cs|
    ensures At(fat, cs, i + 1, fat[cs[i]])
  {
  }

  // ---- the directory ----

  /** Where in the directory slot `j` of its `i`-th cluster is. */
  ghost function Pos(v: Vol, i: nat, j: nat): nat
    requires |v.data| == |v.fat| && i <= |Root(v)|
  {
    |DirSlots(v.data, Root(v)[..i])| + j
  }

  /** No slot of the first `i` directory clusters stops the walk for `name`. */
  ghost predicate Scanned(v: Vol, name: Bytes, i: nat)
    requires |v.data| == |v.fat| && i <= |Root(v)|
  {
    ScanFrom(DirSlots(v.data, Root(v)[..i]), name, 0) == More
  }

  /** The directory around its `i`-th cluster. */
  lemma DirAround(v: Vol, i: nat)
    requires Shape(v) && i < |Root(v)|
    ensures var a, b := DirSlots(v.data, Root(v)[..i]), Slots(v.data[Root(v)[i]]);
            && |b| == Per(v)
            && DirSlots(v.data, Root(v)[..i + 1]) == a + b
            && Dir(v) == a + b + DirSlots(v.data, Root(v)[i + 1..])
  {
    DirParts(v.data, Root(v), i);
  }

  lemma SlotAt(v: Vol, i: nat, j: nat)
    requires Shape(v) && i < |Root(v)| && j < Per(v)
    ensures Pos(v, i, j) < |Dir(v)| && Dir(v)[Pos(v, i, j)] == Slots(v.data[Root(v)[i]])[j]
  {
    DirAround(v, i);
  }

  lemma ScanTriple(a: seq<Bytes>, b: seq<Bytes>, c: seq<Bytes>, name: Bytes)
    requires AllSlots(a) && AllSlots(b) && AllSlots(c) && ScanFrom(a, name, 0) == More
    ensures match ScanFrom(b, name, 0)
            case More => ScanFrom(a + b, name, 0) == More
            case End => Find(a + b + c, name) == None
            case Found(j) => Find(a + b + c, name) == Some(|a| + j)
  {
    ScanAppend(a, b, name, 0);
    ScanAppend(a + b, c, name, 0);
  }

  lemma ScanNext(v: Vol, name: Bytes, i: nat)
    requires Shape(v) && i < |Root(v)| && Scanned(v, name, i)
    ensures match ScanFrom(Slots(v.data[Root(v)[i]]), name, 0)
            case More => Scanned(v, name, i + 1)
            case End => Find(Dir(v), name) == None
            case Found(j) => j < Per(v) && Find(Dir(v), name) == Some(Pos(v, i, j))
  {
    var rs := Root(v);
    DirAround(v, i);
    ScanTriple(DirSlots(v.data, rs[..i]), Slots(v.data[rs[i]]), DirSlots(v.data, rs[i + 1..]), name);
  }

  lemma ScanAll(v: Vol, name: Bytes)
    requires |v.data| == |v.fat| && Scanned(v, name, |Root(v)|)
    ensures Find(Dir(v), name) == None
  {
    assert Root(v)[..|Root(v)|] == Root(v);
  }

  /** None of the first `i` directory clusters has a spare slot. */
  ghost predicate NoSpare(v: Vol, i: nat)
    requires |v.data| == |v.fat| && i <= |Root(v)|
  {
    var ss := DirSlots(v.data, Root(v)[..i]);
    SpareFrom(ss, 0) == |ss|
  }

  lemma SpareNext(v: Vol, i: nat)
    requires Shape(v) && i < |Root(v)| && NoSpare(v, i)
    ensures var j := SpareFrom(Slots(v.data[Root(v)[i]]), 0);
            if j < Per(v) then SpareFrom(Dir(v), 0) == Pos(v, i, j) < |Dir(v)| else NoSpare(v, i + 1)
  {
    var rs := Root(v);
    var a, b := DirSlots(v.data, rs[..i]), Slots(v.data[rs[i]]);
    DirAround(v, i);
    SpareAppend(a, b, 0);
    if SpareFrom(b, 0) < |b| {
      SpareWithin(a + b, DirSlots(v.data, rs[i + 1..]), 0);
    }
  }

  lemma SpareNone(v: Vol)
    requires |v.data| == |v.fat| && NoSpare(v, |Root(v)|)
    ensures SpareFrom(Dir(v), 0) == |Dir(v)|
  {
    assert Root(v)[..|Root(v)|] == Root(v);
  }

  /** Writing slot `j` of the `i`-th directory cluster sets that slot of the directory. */
  lemma SlotWritten(v: Vol, i: nat, j: nat, b: Bytes, s: Bytes)
    requires WellFormed(v) && i < |Root(v)| && j < Per(v) && IsSlot(s)
    requires |b| == v.cb && Slots(b) == Slots(v.data[Root(v)[i]])[j := s]
    ensures Pos(v, i, j) < |Dir(v)| && Dir(v)[Pos(v, i, j)] == Slots(v.data[Root(v)[i]])[j]
    ensures SlotSet(v, v.(data := v.data[Root(v)[i] := b]), Pos(v, i, j), s)
  {
    var rs := Root(v);
    DirUpdate(v.data, rs, i, j, b, s);
    assert rs[i] in rs;
  }

  // ---- reading a chain ----

  function TakeTo(b: Bytes, n: nat): Bytes {
    if n <= |b| then b[..n] else b
  }

  ghost predicate Sized(data: seq<Bytes>, cs: seq<nat>, cb: nat) {
    forall m :: 0 <= m < |cs| ==> cs[m] < |data| && |data[cs[m]]| == cb
  }

  lemma {:induction false} FlatLength(data: seq<Bytes>, cs: seq<nat>, cb: nat)
    requires Sized(data, cs, cb)
    ensures |Flat(data, cs)| == |cs| * cb
  {
    if cs != [] {
      FlatLength(data, cs[..|cs| - 1], cb);
      assert (|cs| - 1) * cb + cb == |cs| * cb;
    }
  }

  lemma {:induction false} FlatSplit(data: seq<Bytes>, cs: seq<nat>, i: nat)
    requires i <= |cs| && forall m :: 0 <= m < |cs| ==> cs[m] < |data|
    ensures Flat(data, cs) == Flat(data, cs[..i]) + Flat(data, cs[i..])
    decreases |cs|
  {
    var n := |cs| - 1;
    if i == |cs| {
      assert cs[..i] == cs && cs[i..] == [];
    } else {
      FlatSplit(data, cs[..n], i);
      assert cs[..n][..i] == cs[..i] && cs[..n][i..] == cs[i..][..n - i];
      assert cs[i..][n - i] == cs[n];
    }
  }

  /** Reading a file that has bytes starts at its chain, or at an end mark. */
  lemma FileStart(fat: seq<nat>, s: Bytes)
    requires |fat| <= EOC && IsSlot(s) && FileOk(fat, s)
    ensures FileChain(fat, s) == [] || IsChain(fat, FileChain(fat, s))
    ensures Size(s) > 0 ==> At(fat, FileChain(fat, s), 0, FirstCluster(s))
  {
  }

  lemma FlatStep(data: seq<Bytes>, cs: seq<nat>, i: nat)
    requires i < |cs| && forall m :: 0 <= m < |cs| ==> cs[m] < |data|
    ensures Flat(data, cs[..i + 1]) == Flat(data, cs[..i]) + data[cs[i]]
    ensures Flat(data, cs[..i + 1]) <= Flat(data, cs)
  {
    assert cs[..i + 1][..i] == cs[..i];
    FlatSplit(data, cs, i + 1);
  }

  lemma TakeToAppend(f: Bytes, d: Bytes, target: nat)
    requires |f| < target
    ensures TakeTo(f + d, target) == TakeTo(f, target) + TakeTo(d, target - |f|)
  {
  }

  /** One more cluster's worth of a read that stops at `target` bytes. */
  lemma ReadNext(data: seq<Bytes>, cs: seq<nat>, i: nat, target: nat)
    requires i < |cs| && forall m :: 0 <= m < |cs| ==> cs[m] < |data|
    requires |TakeTo(Flat(data, cs[..i]), target)| < target
    ensures var f := Flat(data, cs[..i]);
            TakeTo(Flat(data, cs[..i + 1]), target) == TakeTo(f, target) + TakeTo(data[cs[i]], target - |f|)
  {
    FlatStep(data, cs, i);
    TakeToAppend(Flat(data, cs[..i]), data[cs[i]], target);
  }

  lemma ReadStops(data: seq<Bytes>, cs: seq<nat>, i: nat, target: nat)
    requires i <= |cs| && forall m :: 0 <= m < |cs| ==> cs[m] < |data|
    requires i == |cs| || |TakeTo(Flat(data, cs[..i]), target)| == target
    ensures TakeTo(Flat(data, cs[..i]), target) == TakeTo(Flat(data, cs), target)
  {
    FlatSplit(data, cs, i);
    assert cs[..|cs|] == cs;
  }

  /** `out` is what lies at offset `off` of a chain; if there is `more` to read, the next
      bytes are `inC` bytes into its `i`-th cluster. */
  ghost predicate Gathered(data: seq<Bytes>, cs: seq<nat>, off: nat, out: Bytes, i: nat, inC: nat, more: bool)
    requires i <= |cs| && forall m :: 0 <= m < |cs| ==> cs[m] < |data|
  {
    var flat := Flat(data, cs);
    && off + |out| <= |flat| && out == flat[off..off + |out|]
    && (more ==> off + |out| == |Flat(data, cs[..i])| + inC)
  }

  /** `ReadSoFar` is unfolded where `LookAtRead(0)` is asserted and nowhere else: it is kept out of
      the proofs that do not need to look inside. */
  predicate LookAtRead(k: int) {
    true
  }

  ghost predicate ReadSoFar(data: seq<Bytes>, cs: seq<nat>, off: nat, out: Bytes, i: nat, inC: nat, more: bool) {
    forall k: int :: LookAtRead(k) ==>
      i <= |cs| && (forall m :: 0 <= m < |cs| ==> cs[m] < |data|) && Gathered(data, cs, off, out, i, inC, more)
  }

  lemma RangeNext(data: seq<Bytes>, cs: seq<nat>, off: nat, out: Bytes, i: nat, inC: nat, chunk: nat)
    requires i < |cs| && (forall m :: 0 <= m < |cs| ==> cs[m] < |data|) && inC + chunk <= |data[cs[i]]|
    requires ReadSoFar(data, cs, off, out, i, inC, true)
    ensures var next := out + data[cs[i]][inC..inC + chunk];
            ReadSoFar(data, cs, off, next, i + 1, 0, inC + chunk == |data[cs[i]]|)
  {
    assert LookAtRead(0);
    FlatStep(data, cs, i);
    var p := |Flat(data, cs[..i])|;
    assert Flat(data, cs[..i + 1])[p..] == data[cs[i]];
    Glue(Flat(data, cs), data[cs[i]], p, off, out, inC, chunk);
  }

  lemma Glue(flat: Bytes, d: Bytes, p: nat, off: nat, out: Bytes, inC: nat, chunk: nat)
    requires p + |d| <= |flat| && flat[p..p + |d|] == d && inC + chunk <= |d|
    requires off + |out| == p + inC && out == flat[off..off + |out|]
    ensures out + d[inC..inC + chunk] == flat[off..off + |out| + chunk]
  {
    SubSlice(flat, p, p + |d|, inC, inC + chunk);
  }

  /** One cluster of a ranged read of `want` bytes: as much of it as is still wanted. */
  lemma ReadStep(data: seq<Bytes>, cs: seq<nat>, off: nat, out: Bytes, i: nat, inC: nat, chunk: nat, want: nat)
    requires i < |cs| && (forall m :: 0 <= m < |cs| ==> cs[m] < |data|) && inC <= |data[cs[i]]|
    requires |out| < want && chunk == Min(want - |out|, |data[cs[i]]| - inC)
    requires ReadSoFar(data, cs, off, out, i, inC, true)
    ensures ReadSoFar(data, cs, off, out + data[cs[i]][inC..inC + chunk], i + 1, 0, |out| + chunk < want)
  {
    RangeNext(data, cs, off, out, i, inC, chunk);
  }

  /** A ranged read that has all it wanted, or has come to the end of the chain. */
  lemma RangeStops(data: seq<Bytes>, cs: seq<nat>, off: nat, out: Bytes, i: nat, inC: nat, want: nat)
    requires forall m :: 0 <= m < |cs| ==> cs[m] < |data|
    requires |out| <= want && ReadSoFar(data, cs, off, out, i, inC, |out| < want)
    requires |out| < want ==> i == |cs| && inC == 0
    ensures out == Slice(Flat(data, cs), off, want)
  {
    assert LookAtRead(0);
    assert cs[..|cs|] == cs;
  }

  /** A slice of a file is a slice of its chain, cut at the recorded size. */
  lemma SliceOfFile(flat: Bytes, size: nat, off: nat, len: nat)
    ensures off >= size || len == 0 ==> Slice(TakeTo(flat, size), off, len) == []
    ensures off < size ==> Slice(TakeTo(flat, size), off, len) == Slice(flat, off, Min(size - off, len))
  {
  }

  /** Skipping whole clusters ends where the offset lies, or past the end of the chain. */
  lemma SkipLands(data: seq<Bytes>, cs: seq<nat>, cb: nat, off: nat, q: nat, r: nat, i: nat, more: bool)
    requires Sized(data, cs, cb) && off == q * cb + r && r < cb && i <= |cs|
    ensures i == |cs| && i <= q ==> |Flat(data, cs)| <= off
    ensures i == q < |cs| ==> ReadSoFar(data, cs, off, [], i, r, more)
  {
    FlatLength(data, cs, cb);
    FlatLength(data, cs[..i], cb);
    if i == |cs| && i < q {
      BlocksApart(i, q, cb);
    }
    if i == q && i < |cs| {
      BlocksApart(i, |cs|, cb);
    }
  }

  // ---- filling a chain ----

  /** The `cb` bytes from `off` on, padded with zeros past the end. */
  function ChunkAt(bytes: Bytes, off: nat, cb: nat): (r: Bytes)
    ensures |r| == cb
  {
    var part := Slice(bytes, off, cb);
    part + Zeros(cb - |part|)
  }

  /** Piece `j` of `bytes` in clusters of `cb`. */
  function Chunk(bytes: Bytes, j: nat, cb: nat): (r: Bytes)
    ensures |r| == cb
  {
    ChunkAt(bytes, j * cb, cb)
  }

  ghost predicate Filled(v: Vol, w: Vol, cs: seq<nat>, bytes: Bytes, i: nat) {
    && w == v.(data := w.data) && |w.data| == |v.data| && i <= |cs|
    && (forall c :: 0 <= c < |v.data| && c !in cs ==> w.data[c] == v.data[c])
    && (forall j :: 0 <= j < i ==> cs[j] < |w.data| && w.data[cs[j]] == Chunk(bytes, j, v.cb))
  }

  lemma FillNext(v: Vol, w: Vol, cs: seq<nat>, bytes: Bytes, i: nat)
    requires Distinct(cs) && i < |cs| && cs[i] < |v.data| && Filled(v, w, cs, bytes, i)
    ensures Filled(v, w.(data := w.data[cs[i] := Chunk(bytes, i, v.cb)]), cs, bytes, i + 1)
  {
    assert cs[i] in cs;
  }

  lemma AppendChunk(f: Bytes, bytes: Bytes, cb: nat)
    requires TakeTo(f, |bytes|) == TakeTo(bytes, |f|)
    ensures TakeTo(f + ChunkAt(bytes, |f|, cb), |bytes|) == TakeTo(bytes, |f| + cb)
  {
    var part := Slice(bytes, |f|, cb);
    if |f| + cb <= |bytes| {
      assert bytes[..|f| + cb] == bytes[..|f|] + part;
    } else if |f| <= |bytes| {
      assert bytes == bytes[..|f|] + part;
    }
  }

  lemma FlatNext(data: seq<Bytes>, cs: seq<nat>, bytes: Bytes, cb: nat, i: nat)
    requires i < |cs| && forall j :: 0 <= j < |cs| ==> cs[j] < |data| && data[cs[j]] == Chunk(bytes, j, cb)
    ensures var f := Flat(data, cs[..i]);
            Flat(data, cs[..i + 1]) == f + ChunkAt(bytes, |f|, cb)
  {
    FlatLength(data, cs[..i], cb);
    assert cs[..i + 1][..i] == cs[..i];
  }

  lemma {:induction false} FilledPrefix(data: seq<Bytes>, cs: seq<nat>, bytes: Bytes, cb: nat, i: nat)
    requires i <= |cs| && forall j :: 0 <= j < |cs| ==> cs[j] < |data| && data[cs[j]] == Chunk(bytes, j, cb)
    ensures var f := Flat(data, cs[..i]);
            TakeTo(f, |bytes|) == TakeTo(bytes, |f|)
    decreases i
  {
    if i > 0 {
      FilledPrefix(data, cs, bytes, cb, i - 1);
      FlatNext(data, cs, bytes, cb, i - 1);
      AppendChunk(Flat(data, cs[..i - 1]), bytes, cb);
    }
  }

  /** A filled chain reads back as what was put in it. */
  lemma FilledReads(data: seq<Bytes>, cs: seq<nat>, bytes: Bytes, cb: nat)
    requires forall j :: 0 <= j < |cs| ==> cs[j] < |data| && data[cs[j]] == Chunk(bytes, j, cb)
    requires |bytes| <= |cs| * cb
    ensures TakeTo(Flat(data, cs), |bytes|) == bytes
  {
    FilledPrefix(data, cs, bytes, cb, |cs|);
    FlatLength(data, cs, cb);
    assert cs[..|cs|] == cs;
  }

  /** `f` is as much of `bytes` as it has room for, and zeros. */
  ghost predicate Padded(f: Bytes, bytes: Bytes) {
    f == TakeTo(bytes, |f|) + Zeros(|f| - |TakeTo(bytes, |f|)|)
  }

  lemma PadChunk(f: Bytes, bytes: Bytes, cb: nat)
    requires Padded(f, bytes)
    ensures Padded(f + ChunkAt(bytes, |f|, cb), bytes)
  {
    var part := Slice(bytes, |f|, cb);
    if |f| <= |bytes| {
      assert f == bytes[..|f|];
      assert TakeTo(bytes, |f| + cb) == bytes[..|f|] + part;
    } else {
      assert part == [];
      assert Zeros(|f| - |bytes|) + Zeros(cb) == Zeros(|f| + cb - |bytes|);
    }
  }

  lemma {:induction false} PaddedPrefix(data: seq<Bytes>, cs: seq<nat>, bytes: Bytes, cb: nat, i: nat)
    requires i <= |cs| && forall j :: 0 <= j < |cs| ==> cs[j] < |data| && data[cs[j]] == Chunk(bytes, j, cb)
    ensures Padded(Flat(data, cs[..i]), bytes)
    decreases i
  {
    if i > 0 {
      PaddedPrefix(data, cs, bytes, cb, i - 1);
      FlatNext(data, cs, bytes, cb, i - 1);
      PadChunk(Flat(data, cs[..i - 1]), bytes, cb);
    }
  }

  /** Behind them it holds zeros. */
  lemma FilledPads(data: seq<Bytes>, cs: seq<nat>, bytes: Bytes, cb: nat)
    requires forall j :: 0 <= j < |cs| ==> cs[j] < |data| && data[cs[j]] == Chunk(bytes, j, cb)
    requires |bytes| <= |cs| * cb
    ensures Flat(data, cs) == bytes + Zeros(|cs| * cb - |bytes|)
  {
    PaddedPrefix(data, cs, bytes, cb, |cs|);
    FlatLength(data, cs, cb);
    assert cs[..|cs|] == cs;
  }

  // ---- reading in pieces ----

  function Pieces(b: Bytes, len: nat, k: nat): Bytes {
    if k == 0 then [] else Pieces(b, len, k - 1) + Slice(b, (k - 1) * len, len)
  }

  /** Reading a file in successive pieces of any fixed size rebuilds it. */
  lemma {:induction false} PiecesRebuild(b: Bytes, len: nat, k: nat)
    ensures Pieces(b, len, k) == TakeTo(b, k * len)
  {
    if k > 0 {
      PiecesRebuild(b, len, k - 1);
      assert (k - 1) * len + len == k * len;
    }
  }
}
