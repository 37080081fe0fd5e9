/** All growable tables of the kernel, over any run of creations and growths. */
module GrowTables {
  import opened Words
  import opened GrowTable

  /** The tables and the memory their chunks lie in. */
  datatype World = World(tables: seq<Table>, mem: Mem)

  /** A call; growth comes with what the allocator will answer. */
  datatype Op = Create(size: u32, slots: u32, maxChunks: u32) | Ensure(handle: int, atLeast: u32, answers: seq<u32>)

  function FirstFree(tables: seq<Table>, i: nat): (f: nat)
    requires i <= |tables|
    ensures i <= f <= |tables| && (f < |tables| ==> !tables[f].inUse)
    ensures forall j :: i <= j < f ==> tables[j].inUse
    decreases |tables| - i
  {
    if i == |tables| || !tables[i].inUse then i else FirstFree(tables, i + 1)
  }

  predicate BadSizes(size: u32, slots: u32, maxChunks: u32) {
    size == 0 || slots == 0 || maxChunks == 0 || maxChunks > MAX_CHUNKS
  }

  predicate Usable(tables: seq<Table>, handle: int) {
    0 <= handle < |tables| && tables[handle].inUse
  }

  function Step(w: World, op: Op): World {
    match op
    case Create(size, slots, maxChunks) =>
      var f := FirstFree(w.tables, 0);
      if BadSizes(size, slots, maxChunks) || f == |w.tables| then w
      else w.(tables := w.tables[f := Table(true, size, slots, maxChunks, [])])
    case Ensure(handle, atLeast, answers) =>
      if !Usable(w.tables, handle) then w
      else
        var g := Grow(w.tables[handle], w.mem, atLeast, answers);
        World(w.tables[handle := g.t], g.mem)
  }

  function Run(w: World, ops: seq<Op>): World {
    if ops == [] then w else Step(Run(w, ops[..|ops| - 1]), ops[|ops| - 1])
  }

  // ---- what is true of every run ----

  ghost predicate Apart(t: Table, u: Table) {
    forall c, d :: 0 <= c < |t.chunks| && 0 <= d < |u.chunks| ==>
      Range(t.chunks[c], ChunkBytes(t)) !! Range(u.chunks[d], ChunkBytes(u))
  }

  /** No two chunks of any table overlap. */
  ghost predicate AllPlaced(tables: seq<Table>) {
    && (forall h :: 0 <= h < |tables| && tables[h].inUse ==> Placed(tables[h]))
    && (forall h, k :: 0 <= h < k < |tables| && tables[h].inUse && tables[k].inUse ==> Apart(tables[h], tables[k]))
  }

  /** Blocks the allocator may answer with: in the address space, and clear of each other and
      of every chunk. */
  ghost predicate FreshBlocks(tables: seq<Table>, answers: seq<u32>, n: nat) {
    && (forall i :: 0 <= i < |answers| && answers[i] != 0 ==> InSpace(answers[i], n))
    && (forall i, j :: 0 <= i < j < |answers| && answers[i] != 0 && answers[j] != 0 ==>
          Range(answers[i], n) !! Range(answers[j], n))
    && (forall i, h :: 0 <= i < |answers| && answers[i] != 0 && 0 <= h < |tables| && tables[h].inUse ==>
          ClearOf(tables[h], answers[i], n))
  }

  ghost predicate ClearOf(t: Table, a: nat, n: nat) {
    forall c :: 0 <= c < |t.chunks| ==> Range(a, n) !! Range(t.chunks[c], ChunkBytes(t))
  }

  /** Tables are created with a chunk size that fits 32 bits, and the allocator is sound. */
  ghost predicate Sensible(w: World, op: Op) {
    match op
    case Create(size, slots, _) => size * slots < TWO32
    case Ensure(handle, _, answers) =>
      Usable(w.tables, handle) ==> FreshBlocks(w.tables, answers, ChunkBytes(w.tables[handle]))
  }

  ghost predicate SensibleRun(w: World, ops: seq<Op>) {
    forall i :: 0 <= i < |ops| ==> Sensible(Run(w, ops[..i]), ops[i])
  }

  /** Every table in use is still there, with at least the chunks it had. */
  ghost predicate Extends(before: seq<Table>, after: seq<Table>) {
    && |after| == |before|
    && forall h :: 0 <= h < |before| && before[h].inUse ==>
         after[h] == before[h].(chunks := after[h].chunks) && before[h].chunks <= after[h].chunks
  }

  lemma GrowPlaced(tables: seq<Table>, h: nat, mem: Mem, atLeast: nat, answers: seq<u32>)
    requires AllPlaced(tables) && h < |tables| && tables[h].inUse
    requires FreshBlocks(tables, answers, ChunkBytes(tables[h]))
    ensures Placed(Grow(tables[h], mem, atLeast, answers).t)
    ensures forall k :: 0 <= k < |tables| && k != h && tables[k].inUse ==>
              Apart(Grow(tables[h], mem, atLeast, answers).t, tables[k])
  {
    var t := tables[h];
    GrowAppends(t, mem, atLeast, answers);
    var g := Grow(t, mem, atLeast, answers).t;
    var m := |t.chunks|;
    forall c | 0 <= c < |g.chunks| ensures g.chunks[c] == (if c < m then t.chunks[c] else answers[c - m])
      ensures c >= m ==> answers[c - m] != 0
    {
      if c >= m {
        assert Added(t, g)[c - m] == g.chunks[c];
      }
    }
    forall k | 0 <= k < |tables| && k != h && tables[k].inUse ensures Apart(g, tables[k]) {
      assert if k < h then Apart(tables[k], t) else Apart(t, tables[k]);
    }
  }

  lemma ApartSwap(t: Table, u: Table)
    requires Apart(t, u)
    ensures Apart(u, t)
  {
  }

  lemma EnsureKeeps(w: World, op: Op)
    requires AllPlaced(w.tables) && Sensible(w, op) && op.Ensure?
    ensures AllPlaced(Step(w, op).tables) && Extends(w.tables, Step(w, op).tables)
  {
    if Usable(w.tables, op.handle) {
      var h := op.handle;
      GrowPlaced(w.tables, h, w.mem, op.atLeast, op.answers);
      GrowAppends(w.tables[h], w.mem, op.atLeast, op.answers);
      var after := Step(w, op).tables;
      forall j, k | 0 <= j < k < |after| && after[j].inUse && after[k].inUse ensures Apart(after[j], after[k]) {
        if k == h {
          ApartSwap(after[h], after[j]);
        }
      }
    }
  }

  lemma CreateKeeps(w: World, op: Op)
    requires AllPlaced(w.tables) && Sensible(w, op) && op.Create?
    ensures AllPlaced(Step(w, op).tables) && Extends(w.tables, Step(w, op).tables)
  {
  }

  lemma StepKeeps(w: World, op: Op)
    requires AllPlaced(w.tables) && Sensible(w, op)
    ensures AllPlaced(Step(w, op).tables) && Extends(w.tables, Step(w, op).tables)
  {
    match op
    case Create(_, _, _) => CreateKeeps(w, op);
    case Ensure(_, _, _) => EnsureKeeps(w, op);
  }

  lemma ExtendsTrans(a: seq<Table>, b: seq<Table>, c: seq<Table>)
    requires Extends(a, b) && Extends(b, c)
    ensures Extends(a, c)
  {
  }

  lemma {:induction false} RunKeeps(w: World, ops: seq<Op>)
    requires AllPlaced(w.tables) && SensibleRun(w, ops)
    ensures AllPlaced(Run(w, ops).tables) && Extends(w.tables, Run(w, ops).tables)
  {
    if ops != [] {
      var pre := ops[..|ops| - 1];
      forall i | 0 <= i < |pre| ensures Sensible(Run(w, pre[..i]), pre[i]) {
        assert pre[..i] == ops[..i];
      }
      RunKeeps(w, pre);
      StepKeeps(Run(w, pre), ops[|ops| - 1]);
      ExtendsTrans(w.tables, Run(w, pre).tables, Run(w, ops).tables);
    }
  }

  /** Whatever calls follow, the address of an element that is there never changes. */
  lemma AddressesNeverChange(w: World, ops: seq<Op>, h: nat, i: nat)
    requires AllPlaced(w.tables) && SensibleRun(w, ops)
    requires h < |w.tables| && w.tables[h].inUse && i < Capacity(w.tables[h])
    ensures Usable(Run(w, ops).tables, h) && i < Capacity(Run(w, ops).tables[h])
    ensures Address(Run(w, ops).tables[h], i) == Address(w.tables[h], i) != 0
  {
    RunKeeps(w, ops);
    AddressStable(w.tables[h], Run(w, ops).tables[h], i);
    AddressIs(w.tables[h], i);
  }

  /** With an allocator that has memory, a table grows to every capacity its chunks allow, and to
      no other. */
  lemma GrowthSucceeds(tables: seq<Table>, h: nat, mem: Mem, atLeast: u32, answers: seq<u32>)
    requires AllPlaced(tables) && h < |tables| && tables[h].inUse
    requires FreshBlocks(tables, answers, ChunkBytes(tables[h]))
    requires |answers| >= MAX_CHUNKS && forall i :: 0 <= i < |answers| ==> answers[i] != 0
    ensures Grow(tables[h], mem, atLeast, answers).ok <==> atLeast <= tables[h].maxChunks * tables[h].slots
  {
    var t := tables[h];
    var g := Grow(t, mem, atLeast, answers);
    GrowPlaced(tables, h, mem, atLeast, answers);
    GrowAppends(t, mem, atLeast, answers);
    GrowsAsFar(t, mem, atLeast, answers);
    CapacityIsExact(g.t);
    Monotone(|g.t.chunks|, t.maxChunks, t.slots);
  }

  /** Element `i` of table `h` exists. */
  predicate Exists(tables: seq<Table>, h: nat, i: nat) {
    h < |tables| && tables[h].inUse && i < Capacity(tables[h])
  }

  /** The bytes of an element. */
  function Element(tables: seq<Table>, h: nat, i: nat): set<nat>
    requires h < |tables|
  {
    Range(Address(tables[h], i), tables[h].elementSize)
  }

  lemma TablesApart(tables: seq<Table>, h: nat, i: nat, k: nat, j: nat)
    requires AllPlaced(tables) && Exists(tables, h, i) && Exists(tables, k, j) && h < k
    ensures Element(tables, h, i) !! Element(tables, k, j)
  {
    AddressIs(tables[h], i);
    AddressIs(tables[k], j);
    assert Apart(tables[h], tables[k]);
    assert Range(tables[h].chunks[ChunkOf(i, tables[h].slots)], ChunkBytes(tables[h]))
           !! Range(tables[k].chunks[ChunkOf(j, tables[k].slots)], ChunkBytes(tables[k]));
  }

  /** After any run, different elements, of one table or of two, occupy different bytes. */
  lemma ElementsNeverOverlap(w: World, ops: seq<Op>, h: nat, i: nat, k: nat, j: nat)
    requires AllPlaced(w.tables) && SensibleRun(w, ops) && (h, i) != (k, j)
    requires Exists(Run(w, ops).tables, h, i) && Exists(Run(w, ops).tables, k, j)
    ensures Element(Run(w, ops).tables, h, i) !! Element(Run(w, ops).tables, k, j)
  {
    RunKeeps(w, ops);
    AnyApart(Run(w, ops).tables, h, i, k, j);
  }

  lemma AnyApart(tables: seq<Table>, h: nat, i: nat, k: nat, j: nat)
    requires AllPlaced(tables) && Exists(tables, h, i) && Exists(tables, k, j) && (h, i) != (k, j)
    ensures Element(tables, h, i) !! Element(tables, k, j)
  {
    if h < k {
      TablesApart(tables, h, i, k, j);
    } else if k < h {
      TablesApart(tables, k, j, h, i);
    } else if i < j {
      ElementsApart(tables[h], i, j);
    } else {
      ElementsApart(tables[h], j, i);
    }
  }

  /** An element that a growth adds reads as zero, and every element there was reads as it did. */
  lemma NewElementsAreZero(w: World, op: Op, h: nat, i: nat, x: nat)
    requires AllPlaced(w.tables) && Sensible(w, op) && Exists(Step(w, op).tables, h, i)
    requires x in Element(Step(w, op).tables, h, i)
    ensures !Exists(w.tables, h, i) ==> x in Step(w, op).mem && Step(w, op).mem[x] == 0
    ensures Exists(w.tables, h, i) && x in w.mem ==> x in Step(w, op).mem && Step(w, op).mem[x] == w.mem[x]
  {
    StepKeeps(w, op);
    if op.Ensure? && Usable(w.tables, op.handle) {
      var t := w.tables[op.handle];
      GrowAppends(t, w.mem, op.atLeast, op.answers);
      GrowZeroes(t, w.mem, op.atLeast, op.answers, x);
      var after := Step(w, op).tables;
      AddressIs(after[h], i);
      if Exists(w.tables, h, i) {
        AddressIs(w.tables[h], i);
        AddressStable(w.tables[h], after[h], i);
        OldIsNotNew(w.tables, op.handle, op.answers, |Added(t, after[op.handle])|, h, ChunkOf(i, w.tables[h].slots), x);
      } else {
        AddressIs(w.tables[h], i);
        var c := ChunkOf(i, t.slots);
        assert Added(t, after[h])[c - |t.chunks|] == after[h].chunks[c];
        assert InSome(Added(t, after[h]), ChunkBytes(t), x);
      }
    }
  }

  /** A byte of an old chunk is in no block the allocator answers with. */
  lemma OldIsNotNew(tables: seq<Table>, handle: nat, answers: seq<u32>, n: nat, h: nat, c: nat, x: nat)
    requires handle < |tables| && FreshBlocks(tables, answers, ChunkBytes(tables[handle]))
    requires n <= |answers| && (forall i :: 0 <= i < n ==> answers[i] != 0)
    requires h < |tables| && tables[h].inUse && c < |tables[h].chunks| && x in Range(tables[h].chunks[c], ChunkBytes(tables[h]))
    ensures !InSome(answers[..n], ChunkBytes(tables[handle]), x)
  {
  }

  // ---- the module's state ----

  class Tables {
    var tables: seq<Table>
    var mem: Mem

    constructor ()
      ensures |tables| == MAX_TABLES && AllPlaced(tables) && mem == map[]
      ensures forall h :: 0 <= h < MAX_TABLES ==> !tables[h].inUse
    {
      tables := seq(MAX_TABLES, i => EMPTY);
      mem := map[];
    }

    /** Claims the first unused table; -1 if the sizes are bad or none is left. */
    method CreateTable(size: u32, slots: u32, maxChunks: u32) returns (handle: int)
      requires |tables| == MAX_TABLES
      modifies this
      ensures World(tables, mem) == Step(World(old(tables), old(mem)), Create(size, slots, maxChunks))
      ensures handle == -1 <==>
              !(size > 0 && slots > 0 && 1 <= maxChunks <= 64) || forall h :: 0 <= h < MAX_TABLES ==> old(tables[h].inUse)
      ensures handle != -1 ==> Usable(tables, handle) && !old(tables)[handle].inUse
      ensures handle != -1 ==> tables == old(tables)[handle := Table(true, size, slots, maxChunks, [])]
    {
      if BadSizes(size, slots, maxChunks) {
        return -1;
      }
      var i: nat := 0;
      while i < MAX_TABLES
        invariant i <= MAX_TABLES && tables == old(tables) && mem == old(mem)
        invariant FirstFree(tables, 0) == FirstFree(tables, i)
        invariant forall j :: 0 <= j < i ==> tables[j].inUse
      {
        if !tables[i].inUse {
          tables := tables[i := Table(true, size, slots, maxChunks, [])];
          return i;
        }
        i := i + 1;
      }
      return -1;
    }

    method CapacityOf(handle: int) returns (n: u32)
      ensures n == if Usable(tables, handle) then Capacity(tables[handle]) else 0
    {
      if handle < 0 || handle >= |tables| || !tables[handle].inUse {
        return 0;
      }
      return Wrap32(|tables[handle].chunks| * tables[handle].slots);
    }

    /** Grows a table to at least `atLeast` elements, chunk by chunk. */
    method EnsureCapacity(handle: int, atLeast: u32, answers: seq<u32>) returns (ok: bool)
      modifies this
      ensures World(tables, mem) == Step(World(old(tables), old(mem)), Ensure(handle, atLeast, answers))
      ensures ok == (Usable(old(tables), handle) && Grow(old(tables)[handle], old(mem), atLeast, answers).ok)
    {
      if handle < 0 || handle >= |tables| || !tables[handle].inUse {
        return false;
      }
      var t := tables[handle];
      ghost var goal := Grow(t, mem, atLeast, answers);
      var used: nat := 0;
      while Wrap32(|t.chunks| * t.slots) < atLeast
        invariant used <= |answers| && |tables| == |old(tables)| && tables == old(tables)[handle := t]
        invariant Grow(t, mem, atLeast, answers[used..]) == goal
        decreases |answers| - used
      {
        if |t.chunks| >= t.maxChunks {
          return false;
        }
        var bytes := Wrap32(t.elementSize * t.slots);
        if used == |answers| || answers[used] == 0 {
          return false;
        }
        var block := answers[used];
        mem := Zeroed(mem, block, bytes);
        t := t.(chunks := t.chunks + [block]);
        tables := tables[handle := t];
        assert answers[used..][1..] == answers[used + 1..];
        used := used + 1;
      }
      return true;
    }

    /** The address of an element, zero if there is none. */
    method SlotPtr(handle: int, index: u32) returns (p: u32)
      requires forall h :: 0 <= h < |tables| ==> Proper(tables[h])
      ensures p == if Usable(tables, handle) then Address(tables[handle], index) else 0
    {
      if handle < 0 || handle >= |tables| || !tables[handle].inUse {
        return 0;
      }
      var t := tables[handle];
      var capacity := Wrap32(|t.chunks| * t.slots);
      if index >= capacity {
        return 0;
      }
      IndexInRange(index, t.slots, |t.chunks|);
      DivMod(index, t.slots);
      var chunk := t.chunks[index / t.slots];
      return Wrap32(chunk + index % t.slots * t.elementSize);
    }
  }
}
