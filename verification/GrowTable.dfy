/** Tables that grow by whole chunks and never move an element. */
module GrowTable {
  import opened Words

  const MAX_CHUNKS := 64
  const MAX_TABLES := 16

  datatype Table = Table(inUse: bool, elementSize: u32, slots: u32, maxChunks: nat, chunks: seq<u32>)

  const EMPTY := Table(false, 0, 0, 0, [])

  /** The size of a chunk, in the 32-bit arithmetic of the target. */
  function ChunkBytes(t: Table): u32 {
    Wrap32(t.elementSize * t.slots)
  }

  function Capacity(t: Table): u32 {
    Wrap32(|t.chunks| * t.slots)
  }

  /** A table as creation and growth leave it. */
  predicate Proper(t: Table) {
    t.inUse ==> t.elementSize > 0 && t.slots > 0 && |t.chunks| <= t.maxChunks <= MAX_CHUNKS
  }

  // ---- memory ----

  /** The bytes of a block. */
  function Range(a: nat, n: nat): (r: set<nat>)
    ensures forall x: nat :: x in r <==> a <= x < a + n
  {
    if n == 0 then {} else Range(a, n - 1) + {a + n - 1}
  }

  type Mem = map<nat, u8>

  /** Memory with a block filled with zeros. */
  function Zeroed(m: Mem, a: nat, n: nat): (r: Mem)
    ensures r.Keys == m.Keys + Range(a, n)
    ensures forall x :: x in r ==> r[x] == if x in Range(a, n) then 0 else m[x]
  {
    map x | x in m.Keys + Range(a, n) :: if x in Range(a, n) then 0 else m[x]
  }

  // ---- growing ----

  datatype Grown = Grown(t: Table, mem: Mem, ok: bool)

  /** Growth with the allocator's answers in order, zero where it has no memory. */
  function Grow(t: Table, mem: Mem, atLeast: nat, answers: seq<u32>): Grown
    decreases |answers|
  {
    if Capacity(t) >= atLeast then Grown(t, mem, true)
    else if |t.chunks| >= t.maxChunks || answers == [] || answers[0] == 0 then Grown(t, mem, false)
    else Grow(t.(chunks := t.chunks + [answers[0]]), Zeroed(mem, answers[0], ChunkBytes(t)), atLeast, answers[1..])
  }

  /** The new chunks of a growth. */
  function Added(t: Table, g: Table): seq<u32>
    requires |t.chunks| <= |g.chunks|
  {
    g.chunks[|t.chunks|..]
  }

  /** Growing only appends chunks, each an answer of the allocator; it succeeds exactly if the
      capacity now suffices, and keeps what it gained if not. */
  lemma {:induction false} GrowAppends(t: Table, mem: Mem, atLeast: nat, answers: seq<u32>)
    requires Proper(t) && t.inUse
    ensures var g := Grow(t, mem, atLeast, answers);
            && Proper(g.t) && g.t == t.(chunks := g.t.chunks) && t.chunks <= g.t.chunks
            && (g.ok <==> Capacity(g.t) >= atLeast)
            && |Added(t, g.t)| <= |answers| && Added(t, g.t) == answers[..|Added(t, g.t)|]
            && forall i :: 0 <= i < |Added(t, g.t)| ==> answers[i] != 0
    decreases |answers|
  {
    var g := Grow(t, mem, atLeast, answers);
    if Capacity(t) < atLeast && |t.chunks| < t.maxChunks && answers != [] && answers[0] != 0 {
      var u := t.(chunks := t.chunks + [answers[0]]);
      GrowAppends(u, Zeroed(mem, answers[0], ChunkBytes(t)), atLeast, answers[1..]);
      AddedMore(t.chunks, answers, g.t.chunks);
    }
  }

  /** The table with its first `n` chunks. */
  function Cut(t: Table, n: nat): Table
    requires n <= |t.chunks|
  {
    t.(chunks := t.chunks[..n])
  }

  /** It adds a chunk only while the capacity does not suffice, and gives up only at the limit
      of chunks, or when the allocator has no memory. */
  lemma {:induction false} GrowsAsFar(t: Table, mem: Mem, atLeast: nat, answers: seq<u32>)
    requires Proper(t) && t.inUse
    ensures var g := Grow(t, mem, atLeast, answers);
            && |t.chunks| <= |g.t.chunks|
            && (forall n :: |t.chunks| <= n < |g.t.chunks| ==> Capacity(Cut(g.t, n)) < atLeast)
            && (!g.ok ==> |g.t.chunks| == t.maxChunks || RunsOut(answers, |Added(t, g.t)|))
    decreases |answers|
  {
    GrowAppends(t, mem, atLeast, answers);
    if Capacity(t) < atLeast && |t.chunks| < t.maxChunks && answers != [] && answers[0] != 0 {
      var g := Grow(t, mem, atLeast, answers);
      var u := t.(chunks := t.chunks + [answers[0]]);
      GrowAppends(u, Zeroed(mem, answers[0], ChunkBytes(t)), atLeast, answers[1..]);
      GrowsAsFar(u, Zeroed(mem, answers[0], ChunkBytes(t)), atLeast, answers[1..]);
      assert Cut(g.t, |t.chunks|) == t;
    }
  }

  /** The allocator has no memory at answer `n`. */
  predicate RunsOut(answers: seq<u32>, n: nat) {
    n >= |answers| || answers[n] == 0
  }

  /** Appending the first answer and then others is appending them all. */
  lemma AddedMore(chunks: seq<u32>, answers: seq<u32>, all: seq<u32>)
    requires answers != [] && answers[0] != 0 && chunks + [answers[0]] <= all
    requires var more := all[|chunks| + 1..];
             |more| <= |answers[1..]| && more == answers[1..][..|more|] && forall i :: 0 <= i < |more| ==> answers[1..][i] != 0
    ensures chunks <= all
    ensures var more := all[|chunks|..];
            |more| <= |answers| && more == answers[..|more|] && forall i :: 0 <= i < |more| ==> answers[i] != 0
  {
    var more, rest := all[|chunks|..], all[|chunks| + 1..];
    assert more == [answers[0]] + rest;
    forall i | 0 <= i < |more| ensures more[i] == answers[i] && answers[i] != 0 {
      if i > 0 {
        assert rest[i - 1] == answers[1..][i - 1] == answers[i];
      }
    }
  }

  /** What is in a new chunk reads as zero, and nothing else has changed. */
  lemma {:induction false} GrowZeroes(t: Table, mem: Mem, atLeast: nat, answers: seq<u32>, x: nat)
    requires Proper(t) && t.inUse
    ensures var g := Grow(t, mem, atLeast, answers);
            && |t.chunks| <= |g.t.chunks|
            && (InSome(Added(t, g.t), ChunkBytes(t), x) ==> x in g.mem && g.mem[x] == 0)
            && (!InSome(Added(t, g.t), ChunkBytes(t), x) ==> (x in g.mem <==> x in mem) && (x in mem ==> g.mem[x] == mem[x]))
    decreases |answers|
  {
    GrowAppends(t, mem, atLeast, answers);
    var g := Grow(t, mem, atLeast, answers);
    if Capacity(t) < atLeast && |t.chunks| < t.maxChunks && answers != [] && answers[0] != 0 {
      var u := t.(chunks := t.chunks + [answers[0]]);
      var filled := Zeroed(mem, answers[0], ChunkBytes(t));
      GrowAppends(u, filled, atLeast, answers[1..]);
      GrowZeroes(u, filled, atLeast, answers[1..], x);
      assert Added(t, g.t) == [answers[0]] + Added(u, g.t);
      InSomeSplit(answers[0], Added(u, g.t), ChunkBytes(t), x);
    }
  }

  /** Byte `x` is in one of the blocks of `n` bytes at `as'`. */
  ghost predicate InSome(addrs: seq<u32>, n: nat, x: nat) {
    exists i :: 0 <= i < |addrs| && x in Range(addrs[i], n)
  }

  lemma InSomeSplit(a: u32, rest: seq<u32>, n: nat, x: nat)
    ensures InSome([a] + rest, n, x) <==> x in Range(a, n) || InSome(rest, n, x)
  {
    var all := [a] + rest;
    if x in Range(a, n) {
      assert x in Range(all[0], n);
    }
    if InSome(rest, n, x) {
      var i :| 0 <= i < |rest| && x in Range(rest[i], n);
      assert x in Range(all[i + 1], n);
    }
    if InSome(all, n, x) {
      var i :| 0 <= i < |all| && x in Range(all[i], n);
      if i > 0 {
        assert x in Range(rest[i - 1], n);
      }
    }
  }

  // ---- when a chunk holds its elements ----

  predicate Fits(t: Table) {
    t.elementSize * t.slots < TWO32
  }

  lemma ElementInside(size: nat, slots: nat, j: nat)
    requires j < slots
    ensures j * size + size <= size * slots
  {
    BlocksApart(j, slots, size);
  }

  /** Every element lies inside its chunk exactly if the size of a chunk fits 32 bits. */
  lemma FitsExactly(t: Table)
    requires t.elementSize > 0 && t.slots > 0
    ensures Fits(t) <==> forall j: nat :: j < t.slots ==> j * t.elementSize + t.elementSize <= ChunkBytes(t)
  {
    if Fits(t) {
      forall j: nat | j < t.slots ensures j * t.elementSize + t.elementSize <= ChunkBytes(t) {
        ElementInside(t.elementSize, t.slots, j);
      }
    } else {
      var j := t.slots - 1;
      assert j * t.elementSize + t.elementSize == t.elementSize * t.slots;
    }
  }

  // ---- addresses ----

  /** The chunk of element `i`, and its place in it: quotient and remainder. */
  function ChunkOf(i: nat, slots: nat): nat
    requires slots > 0
  {
    if i < slots then 0 else 1 + ChunkOf(i - slots, slots)
  }

  function SlotOf(i: nat, slots: nat): (r: nat)
    requires slots > 0
    ensures r < slots
  {
    if i < slots then i else SlotOf(i - slots, slots)
  }

  lemma {:induction false} IndexSplits(i: nat, slots: nat)
    requires slots > 0
    ensures i == ChunkOf(i, slots) * slots + SlotOf(i, slots)
  {
    if i >= slots {
      IndexSplits(i - slots, slots);
      var q := ChunkOf(i - slots, slots);
      assert (q + 1) * slots == q * slots + slots;
    }
  }

  lemma DivMod(i: nat, slots: nat)
    requires slots > 0
    ensures i / slots == ChunkOf(i, slots) && i % slots == SlotOf(i, slots)
  {
    IndexSplits(i, slots);
    DivParts(i, slots);
    var q, p := ChunkOf(i, slots), i / slots;
    if q < p {
      BlocksApart(q, p, slots);
    } else if p < q {
      BlocksApart(p, q, slots);
    }
    assert i == p * slots + i % slots;
  }

  lemma IndexInRange(i: nat, slots: nat, k: nat)
    requires slots > 0
    ensures i < k * slots <==> ChunkOf(i, slots) < k
  {
    IndexSplits(i, slots);
    var q := ChunkOf(i, slots);
    if q < k {
      BlocksApart(q, k, slots);
    } else {
      Monotone(k, q, slots);
    }
  }

  lemma ChunkOrder(i: nat, j: nat, slots: nat)
    requires slots > 0 && i < j
    ensures ChunkOf(i, slots) <= ChunkOf(j, slots)
    ensures ChunkOf(i, slots) == ChunkOf(j, slots) ==> SlotOf(i, slots) < SlotOf(j, slots)
  {
    IndexSplits(i, slots);
    IndexSplits(j, slots);
    var q, p := ChunkOf(i, slots), ChunkOf(j, slots);
    if p < q {
      BlocksApart(p, q, slots);
    }
  }

  /** The address of element `i`; zero where there is none. */
  function Address(t: Table, i: nat): u32 {
    if t.slots == 0 || i >= Capacity(t) || ChunkOf(i, t.slots) >= |t.chunks| then 0
    else Wrap32(t.chunks[ChunkOf(i, t.slots)] + SlotOf(i, t.slots) * t.elementSize)
  }

  ghost predicate InSpace(a: nat, n: nat) {
    0 < a && a + n <= TWO32
  }

  /** A growing table whose chunks exist, have their size and do not overlap. */
  ghost predicate Placed(t: Table) {
    && Proper(t) && t.inUse && Fits(t)
    && (forall c :: 0 <= c < |t.chunks| ==> InSpace(t.chunks[c], ChunkBytes(t)))
    && (forall c, d :: 0 <= c < d < |t.chunks| ==> Range(t.chunks[c], ChunkBytes(t)) !! Range(t.chunks[d], ChunkBytes(t)))
  }

  lemma {:induction false} RangeSize(a: nat, n: nat)
    ensures |Range(a, n)| == n
  {
    if n > 0 {
      RangeSize(a, n - 1);
    }
  }

  /** The bytes of several blocks. */
  function Union(addrs: seq<u32>, n: nat): set<nat> {
    if addrs == [] then {} else Union(addrs[..|addrs| - 1], n) + Range(addrs[|addrs| - 1], n)
  }

  function Times(k: nat, n: nat): nat {
    if k == 0 then 0 else Times(k - 1, n) + n
  }

  lemma {:induction false} TimesIs(k: nat, n: nat)
    ensures Times(k, n) == k * n
  {
    if k > 0 {
      TimesIs(k - 1, n);
      assert (k - 1) * n + n == k * n;
    }
  }

  predicate Disjoint(a: nat, b: nat, n: nat) {
    Range(a, n) !! Range(b, n)
  }

  predicate AllDisjoint(addrs: seq<u32>, n: nat) {
    forall c, d :: 0 <= c < d < |addrs| ==> Disjoint(addrs[c], addrs[d], n)
  }

  lemma {:induction false} UnionApart(addrs: seq<u32>, n: nat, a: u32)
    requires forall c :: 0 <= c < |addrs| ==> Disjoint(addrs[c], a, n)
    ensures Union(addrs, n) !! Range(a, n)
  {
    if addrs != [] {
      UnionApart(addrs[..|addrs| - 1], n, a);
    }
  }

  lemma {:induction false} UnionInside(addrs: seq<u32>, n: nat, r: set<nat>)
    requires forall c :: 0 <= c < |addrs| ==> Range(addrs[c], n) <= r
    ensures Union(addrs, n) <= r
  {
    if addrs != [] {
      UnionInside(addrs[..|addrs| - 1], n, r);
    }
  }

  /** One more block adds its bytes. */
  lemma UnionNext(front: seq<u32>, last: u32, n: nat)
    requires forall c :: 0 <= c < |front| ==> Disjoint(front[c], last, n)
    ensures |Union(front, n) + Range(last, n)| == |Union(front, n)| + n
  {
    UnionApart(front, n, last);
    RangeSize(last, n);
  }

  lemma {:induction false} UnionSize(addrs: seq<u32>, n: nat)
    requires AllDisjoint(addrs, n)
    ensures |Union(addrs, n)| == Times(|addrs|, n)
  {
    if addrs != [] {
      var k := |addrs| - 1;
      UnionSize(addrs[..k], n);
      UnionNext(addrs[..k], addrs[k], n);
    }
  }

  lemma SubsetSize(a: set<nat>, b: set<nat>)
    requires a <= b
    ensures |a| <= |b|
  {
    assert b == a + (b - a);
  }

  /** Disjoint blocks of the address space have no more bytes than it has. */
  lemma BlocksFitSpace(addrs: seq<u32>, n: nat)
    requires forall c :: 0 <= c < |addrs| ==> InSpace(addrs[c], n)
    requires forall c, d :: 0 <= c < d < |addrs| ==> Range(addrs[c], n) !! Range(addrs[d], n)
    ensures |addrs| * n < TWO32
  {
    var space := Range(1, TWO32 - 1);
    assert AllDisjoint(addrs, n);
    UnionSize(addrs, n);
    UnionInside(addrs, n, space);
    SubsetSize(Union(addrs, n), space);
    RangeSize(1, TWO32 - 1);
    TimesIs(|addrs|, n);
  }

  /** So the count of elements does not wrap. */
  lemma CapacityIsExact(t: Table)
    requires Placed(t)
    ensures Capacity(t) == |t.chunks| * t.slots
  {
    var n := ChunkBytes(t);
    BlocksFitSpace(t.chunks, n);
    FewerElements(|t.chunks|, t.slots, t.elementSize, n);
  }

  lemma FewerElements(k: nat, slots: nat, size: nat, n: nat)
    requires size > 0 && n == size * slots
    ensures k * slots <= k * n
  {
    assert slots <= n;
    Monotone(slots, n, k);
    assert k * slots == slots * k && k * n == n * k;
  }

  /** Element `i` of a placed table is at its place in its chunk, and ends inside it. */
  lemma AddressIs(t: Table, i: nat)
    requires Placed(t)
    ensures i < Capacity(t) <==> ChunkOf(i, t.slots) < |t.chunks|
    ensures i < Capacity(t) ==>
              Address(t, i) == t.chunks[ChunkOf(i, t.slots)] + SlotOf(i, t.slots) * t.elementSize > 0
    ensures i < Capacity(t) ==>
              Range(Address(t, i), t.elementSize) <= Range(t.chunks[ChunkOf(i, t.slots)], ChunkBytes(t))
  {
    CapacityIsExact(t);
    IndexInRange(i, t.slots, |t.chunks|);
    if ChunkOf(i, t.slots) < |t.chunks| {
      var off := SlotOf(i, t.slots) * t.elementSize;
      SlotInside(t, SlotOf(i, t.slots));
      InBlock(t.chunks[ChunkOf(i, t.slots)], ChunkBytes(t), off, t.elementSize);
    }
  }

  lemma SlotInside(t: Table, r: nat)
    requires Fits(t) && r < t.slots
    ensures r * t.elementSize + t.elementSize <= ChunkBytes(t)
  {
    ElementInside(t.elementSize, t.slots, r);
  }

  lemma InBlock(a: nat, n: nat, off: nat, size: nat)
    requires off + size <= n && InSpace(a, n) && size > 0
    ensures Wrap32(a + off) == a + off && Range(a + off, size) <= Range(a, n)
  {
  }

  /** Different elements of a table occupy different bytes. */
  lemma ElementsApart(t: Table, i: nat, j: nat)
    requires Placed(t) && i < j < Capacity(t)
    ensures Range(Address(t, i), t.elementSize) !! Range(Address(t, j), t.elementSize)
  {
    AddressIs(t, i);
    AddressIs(t, j);
    ChunkOrder(i, j, t.slots);
    if ChunkOf(i, t.slots) == ChunkOf(j, t.slots) {
      BlocksApart(SlotOf(i, t.slots), SlotOf(j, t.slots), t.elementSize);
    }
  }

  /** An address that is valid stays the same when chunks are appended. */
  lemma AddressStable(t: Table, u: Table, i: nat)
    requires Placed(t) && Placed(u) && u == t.(chunks := u.chunks) && t.chunks <= u.chunks && i < Capacity(t)
    ensures i < Capacity(u) && Address(u, i) == Address(t, i)
  {
    AddressIs(t, i);
    AddressIs(u, i);
  }
}
