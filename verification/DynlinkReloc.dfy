/** Relocations of an image: what each entry asks for, and what running them leaves in memory. */
module DynlinkReloc {
  import opened Words
  import opened LittleEndian
  import opened DynlinkImage

  const R_NONE := 0
  const R_32 := 1
  const R_PC32 := 2
  const R_COPY := 5
  const R_GLOB_DAT := 6
  const R_JMP_SLOT := 7
  const R_RELATIVE := 8
  const REL_SIZE := 8
  const STB_WEAK := 2

  const OK := 0
  const ERR_MALFORMED := -1
  const ERR_UNRESOLVED := -2
  const ERR_WRITE_FAILED := -3
  const ERR_COPY := -4
  const ERR_TYPE := -5

  /** The address of an external symbol by name, zero if it has none. */
  type Resolver = Bytes -> u32

  datatype Action = Skip | Store(addr: u32, value: u32) | Fail(code: int)

  datatype Result = Ok(value: u32) | Err(code: int)

  // ---- one entry ----

  /** The value of symbol `i`: local, from another image, or zero for an unresolved weak one. */
  function SymbolValue(img: Image, dyn: Dyn, resolve: Resolver, i: nat): Result {
    if i == 0 then Ok(0)
    else
      match SymAt(img.data, dyn.symtab, i)
      case None => Err(ERR_MALFORMED)
      case Some(s) =>
        if s.shndx != 0 then Ok(WrapAdd(img.bias, s.value))
        else
          match CString(img.data, WrapAdd(dyn.strtab, s.name), 0)
          case None => Err(ERR_MALFORMED)
          case Some(name) =>
            if resolve(name) != 0 then Ok(resolve(name))
            else if Bind(s) == STB_WEAK then Ok(0)
            else Err(ERR_UNRESOLVED)
  }

  predicate UsesSymbol(kind: nat) {
    kind == R_32 || kind == R_GLOB_DAT || kind == R_JMP_SLOT || kind == R_PC32
  }

  function Computed(kind: nat, bias: u32, addend: u32, offset: u32, sym: u32): u32 {
    if kind == R_PC32 then WrapSub(WrapAdd(sym, addend), WrapAdd(offset, bias))
    else if kind == R_32 then WrapAdd(sym, addend)
    else sym
  }

  /** The four bytes of the file at link-time address `v`. */
  function Addend(img: Image, v: u32): Option<u32> {
    match Offset(img.segs, v) case None => None case Some(o) => Read32(img.data, o)
  }

  /** What one relocation asks for. */
  function ActionOf(img: Image, dyn: Dyn, resolve: Resolver, offset: u32, info: u32): Action {
    var sym, kind := info / 256, info % 256;
    if kind == R_NONE then Skip
    else if kind == R_COPY then Fail(ERR_COPY)
    else
      match Addend(img, offset)
      case None => Fail(ERR_MALFORMED)
      case Some(addend) =>
        if kind == R_RELATIVE then Store(WrapAdd(img.bias, offset), WrapAdd(img.bias, addend))
        else if !UsesSymbol(kind) then Fail(ERR_TYPE)
        else
          match SymbolValue(img, dyn, resolve, sym)
          case Err(code) => Fail(code)
          case Ok(s) => Store(WrapAdd(img.bias, offset), Computed(kind, img.bias, addend, offset, s))
  }

  /** Entry `i` of the relocation table at file offset `table`. */
  function EntryAction(img: Image, dyn: Dyn, resolve: Resolver, table: u32, i: nat): Action {
    var off := Wrap32(table + i * REL_SIZE);
    match Read32(img.data, off)
    case None => Fail(ERR_MALFORMED)
    case Some(offset) =>
      match Read32(img.data, WrapAdd(off, 4))
      case None => Fail(ERR_MALFORMED)
      case Some(info) => ActionOf(img, dyn, resolve, offset, info)
  }

  // ---- against the System V ABI, Intel386 supplement, chapter 4 ----

  /** The value the ABI prescribes: B is the base address, A the addend, P the place being
      relocated and S the value of the symbol. */
  predicate Prescribed(kind: nat, b: u32, a: u32, p: u32, s: u32, value: u32) {
    || (kind == R_32 && value == (s + a) % TWO32)
    || (kind == R_PC32 && value == (s + a - p) % TWO32)
    || ((kind == R_GLOB_DAT || kind == R_JMP_SLOT) && value == s)
    || (kind == R_RELATIVE && value == (b + a) % TWO32)
  }

  lemma WrapIsMod(a: u32, b: u32)
    ensures WrapAdd(a, b) == (a + b) % TWO32 && WrapSub(a, b) == (a - b) % TWO32
  {
  }

  lemma PcRelative(s: u32, a: u32, p: u32)
    ensures WrapSub(WrapAdd(s, a), p) == (s + a - p) % TWO32
  {
  }

  /** The string at `at` is `name`. */
  ghost predicate StringAt(d: Bytes, at: nat, name: Bytes) {
    && |name| <= MAX_NAME && at + |name| < |d| && d[at..at + |name|] == name && d[at + |name|] == 0
    && forall i :: 0 <= i < |name| ==> name[i] != 0
  }

  lemma StringRead(d: Bytes, at: nat, name: Bytes)
    ensures CString(d, at, 0) == Some(name) <==> StringAt(d, at, name)
  {
    CStringIs(d, at, 0, name);
  }

  /** The name of a symbol, as the string table spells it. */
  ghost predicate NameIs(img: Image, dyn: Dyn, s: Sym, name: Bytes) {
    StringAt(img.data, (dyn.strtab + s.name) % TWO32, name)
  }

  /** `v` is the value of symbol `i`: for a symbol the image defines its address, for another
      one what the resolver says of its name, which may be nothing if the symbol is weak. */
  ghost predicate Denotes(img: Image, dyn: Dyn, resolve: Resolver, i: nat, v: u32) {
    if i == 0 then v == 0
    else
      && Readable(img, dyn, i)
      && var s := SymAt(img.data, dyn.symtab, i).value;
         if s.shndx != 0 then v == (img.bias + s.value) % TWO32
         else exists name: Bytes :: NameIs(img, dyn, s, name) && v == resolve(name) && (v == 0 ==> Bind(s) == STB_WEAK)
  }

  lemma NameRead(img: Image, dyn: Dyn, s: Sym, name: Bytes)
    ensures CString(img.data, WrapAdd(dyn.strtab, s.name), 0) == Some(name) <==> NameIs(img, dyn, s, name)
  {
    WrapIsMod(dyn.strtab, s.name);
    StringRead(img.data, WrapAdd(dyn.strtab, s.name), name);
  }

  /** What resolving a symbol computes is its value, and fails exactly if it has none. */
  lemma SymbolMeaning(img: Image, dyn: Dyn, resolve: Resolver, i: nat, v: u32)
    ensures SymbolValue(img, dyn, resolve, i) == Ok(v) <==> Denotes(img, dyn, resolve, i, v)
  {
    if i > 0 && Readable(img, dyn, i) {
      var s := SymAt(img.data, dyn.symtab, i).value;
      WrapIsMod(img.bias, s.value);
      forall name: Bytes
        ensures CString(img.data, WrapAdd(dyn.strtab, s.name), 0) == Some(name) <==> NameIs(img, dyn, s, name)
      {
        NameRead(img, dyn, s, name);
      }
    }
  }

  /** For the first symbol the image exports under a name, that is the address `FindSymbol`
      finds for the name. */
  lemma OwnSymbol(img: Image, dyn: Dyn, resolve: Resolver, i: nat, name: Bytes, v: u32, addr: u32)
    requires FirstExport(img, dyn, i, name) && i > 0 && Finds(img, dyn, name, addr)
    ensures Denotes(img, dyn, resolve, i, v) <==> v == addr
  {
  }

  /** An undefined symbol that is not weak, and of which the resolver knows nothing. */
  ghost predicate Unresolved(img: Image, dyn: Dyn, resolve: Resolver, i: nat) {
    && i > 0 && Readable(img, dyn, i)
    && var s := SymAt(img.data, dyn.symtab, i).value;
       s.shndx == 0 && Bind(s) != STB_WEAK && exists name: Bytes :: NameIs(img, dyn, s, name) && resolve(name) == 0
  }

  lemma UnresolvedMeaning(img: Image, dyn: Dyn, resolve: Resolver, i: nat)
    ensures SymbolValue(img, dyn, resolve, i) == Err(ERR_UNRESOLVED) <==> Unresolved(img, dyn, resolve, i)
  {
    if i > 0 && Readable(img, dyn, i) {
      var s := SymAt(img.data, dyn.symtab, i).value;
      forall name: Bytes
        ensures CString(img.data, WrapAdd(dyn.strtab, s.name), 0) == Some(name) <==> NameIs(img, dyn, s, name)
      {
        NameRead(img, dyn, s, name);
      }
    }
  }

  /** The addend: the four bytes of the file where the first segment that covers the address
      has it. */
  ghost predicate AddendIs(img: Image, v: u32, a: u32) {
    exists i: nat, off: u32 :: FirstCover(img.segs, v, i, off) && off + 4 <= |img.data| && img.data[off..off + 4] == Enc32(a)
  }

  lemma AddendMeaning(img: Image, v: u32, a: u32)
    ensures Addend(img, v) == Some(a) <==> AddendIs(img, v, a)
  {
    OffsetIsFirst(img.segs, v);
    forall i: nat, off: u32 | FirstCover(img.segs, v, i, off) ensures Offset(img.segs, v) == Some(off) {
      FirstCoverOnly(img.segs, v, i, off);
    }
    if Offset(img.segs, v).Some? && Offset(img.segs, v).value + 4 <= |img.data| {
      WordBytes(img.data, Offset(img.segs, v).value, a);
    }
  }

  lemma FirstCoverOnly(segs: seq<Seg>, v: u32, i: nat, off: u32)
    requires FirstCover(segs, v, i, off)
    ensures Offset(segs, v) == Some(off)
  {
    OffsetIsFirst(segs, v);
    var j: nat :| FirstCover(segs, v, j, Offset(segs, v).value);
    assert i == j;
  }

  lemma WordBytes(b: Bytes, off: nat, v: u32)
    requires off + 4 <= |b|
    ensures Get32(b, off) == v <==> b[off..off + 4] == Enc32(v)
  {
    if b[off..off + 4] == Enc32(v) {
      Enc32Get(b, off, v);
    } else if Get32(b, off) == v {
      GetEnc32(b, off);
    }
  }

  /** The kinds of relocation that store the value of a symbol. */
  const SYMBOLIC: set<nat> := {R_32, R_PC32, R_GLOB_DAT, R_JMP_SLOT}

  ghost predicate HasAddend(img: Image, v: u32) {
    exists a: u32 :: AddendIs(img, v, a)
  }

  ghost predicate HasValue(img: Image, dyn: Dyn, resolve: Resolver, i: nat) {
    exists v: u32 :: Denotes(img, dyn, resolve, i, v)
  }

  lemma AddendFound(img: Image, v: u32)
    ensures Addend(img, v).Some? <==> HasAddend(img, v)
    ensures Addend(img, v).Some? ==> AddendIs(img, v, Addend(img, v).value)
  {
    forall a: u32 ensures Addend(img, v) == Some(a) <==> AddendIs(img, v, a) {
      AddendMeaning(img, v, a);
    }
  }

  lemma ValueFound(img: Image, dyn: Dyn, resolve: Resolver, i: nat)
    ensures SymbolValue(img, dyn, resolve, i).Ok? <==> HasValue(img, dyn, resolve, i)
    ensures SymbolValue(img, dyn, resolve, i).Ok? ==> Denotes(img, dyn, resolve, i, SymbolValue(img, dyn, resolve, i).value)
  {
    forall v: u32 ensures SymbolValue(img, dyn, resolve, i) == Ok(v) <==> Denotes(img, dyn, resolve, i, v) {
      SymbolMeaning(img, dyn, resolve, i, v);
    }
  }

  /** The word `value` is the ABI's for an entry of this kind, with its own addend and symbol. */
  ghost predicate Right(img: Image, dyn: Dyn, resolve: Resolver, offset: u32, info: u32, value: u32) {
    exists a: u32, v: u32 :: RightBy(img, dyn, resolve, offset, info, value, a, v)
  }

  ghost predicate RightBy(img: Image, dyn: Dyn, resolve: Resolver, offset: u32, info: u32, value: u32, a: u32, v: u32) {
    && AddendIs(img, offset, a) && (info % 256 in SYMBOLIC ==> Denotes(img, dyn, resolve, info / 256, v))
    && Prescribed(info % 256, img.bias, a, (img.bias + offset) % TWO32, v, value)
  }

  /** An entry stores a word exactly if it is of a kind that stores, its addend is in the file
      and its symbol, where it has one, has a value; the word is the ABI's, and its place is
      the base plus the entry's offset. */
  lemma EntryFollowsAbi(img: Image, dyn: Dyn, resolve: Resolver, offset: u32, info: u32)
    ensures var kind := info % 256;
            var action := ActionOf(img, dyn, resolve, offset, info);
            && (action.Skip? <==> kind == R_NONE)
            && (action.Store? <==>
                  && HasAddend(img, offset)
                  && (kind == R_RELATIVE || (kind in SYMBOLIC && HasValue(img, dyn, resolve, info / 256))))
            && (action.Store? ==>
                  action.addr == (img.bias + offset) % TWO32 && Right(img, dyn, resolve, offset, info, action.value))
  {
    AddendFound(img, offset);
    ValueFound(img, dyn, resolve, info / 256);
    WrapIsMod(img.bias, offset);
    if ActionOf(img, dyn, resolve, offset, info).Store? {
      var a := Addend(img, offset).value;
      var v := if UsesSymbol(info % 256) then SymbolValue(img, dyn, resolve, info / 256).value else 0;
      StoredValue(img, dyn, resolve, offset, info, a, v);
      RightWith(img, dyn, resolve, offset, info, a, v, WrapAdd(img.bias, offset), ActionOf(img, dyn, resolve, offset, info).value);
    }
  }

  lemma RightWith(img: Image, dyn: Dyn, resolve: Resolver, offset: u32, info: u32, a: u32, v: u32, p: u32, value: u32)
    requires AddendIs(img, offset, a) && (info % 256 in SYMBOLIC ==> Denotes(img, dyn, resolve, info / 256, v))
    requires p == (img.bias + offset) % TWO32 && Prescribed(info % 256, img.bias, a, p, v, value)
    ensures Right(img, dyn, resolve, offset, info, value)
  {
    assert RightBy(img, dyn, resolve, offset, info, value, a, v);
  }

  lemma StoredValue(img: Image, dyn: Dyn, resolve: Resolver, offset: u32, info: u32, a: u32, v: u32)
    requires ActionOf(img, dyn, resolve, offset, info).Store? && Addend(img, offset) == Some(a)
    requires UsesSymbol(info % 256) ==> SymbolValue(img, dyn, resolve, info / 256) == Ok(v)
    ensures var action := ActionOf(img, dyn, resolve, offset, info);
            Prescribed(info % 256, img.bias, a, action.addr, v, action.value)
  {
    WrapIsMod(img.bias, a);
    WrapIsMod(v, a);
    PcRelative(v, a, WrapAdd(offset, img.bias));
  }

  /** And what is wrong with an entry that stores nothing. */
  lemma EntryFailures(img: Image, dyn: Dyn, resolve: Resolver, offset: u32, info: u32)
    ensures var kind := info % 256;
            var action := ActionOf(img, dyn, resolve, offset, info);
            && (action == Fail(ERR_COPY) <==> kind == R_COPY)
            && (action == Fail(ERR_TYPE) <==>
                  kind !in SYMBOLIC + {R_NONE, R_COPY, R_RELATIVE} && HasAddend(img, offset))
            && (action == Fail(ERR_UNRESOLVED) <==>
                  kind in SYMBOLIC && HasAddend(img, offset) && Unresolved(img, dyn, resolve, info / 256))
  {
    AddendFound(img, offset);
    UnresolvedMeaning(img, dyn, resolve, info / 256);
  }

  // ---- memory ----

  /** The mapped bytes of an address space. */
  type Mem = map<u32, u8>

  predicate Mapped(m: Mem, addr: u32) {
    addr in m && WrapAdd(addr, 1) in m && WrapAdd(addr, 2) in m && WrapAdd(addr, 3) in m
  }

  /** A word written to mapped memory. */
  function Write(m: Mem, addr: u32, value: u32): (r: Mem)
    requires Mapped(m, addr)
    ensures r.Keys == m.Keys
  {
    var b := Enc32(value);
    m[addr := b[0]][WrapAdd(addr, 1) := b[1]][WrapAdd(addr, 2) := b[2]][WrapAdd(addr, 3) := b[3]]
  }

  // ---- running a list of actions ----

  datatype Outcome = Outcome(mem: Mem, code: int)

  /** One action: it changes memory or stops the run. */
  function Perform(m: Mem, a: Action): Outcome {
    match a
    case Skip => Outcome(m, OK)
    case Fail(code) => Outcome(m, code)
    case Store(addr, value) => if Mapped(m, addr) then Outcome(Write(m, addr, value), OK) else Outcome(m, ERR_WRITE_FAILED)
  }

  /** The actions in order, up to the first that fails. */
  function Run(m: Mem, actions: seq<Action>): Outcome {
    if actions == [] then Outcome(m, OK)
    else
      var o := Perform(m, actions[0]);
      if o.code != OK then o else Run(o.mem, actions[1..])
  }

  /** The actions of a table of `size` bytes at file offset `table`. */
  function TableActions(img: Image, dyn: Dyn, resolve: Resolver, table: u32, size: u32): seq<Action> {
    if size % REL_SIZE != 0 then [Fail(ERR_MALFORMED)]
    else seq(size / REL_SIZE, i requires i >= 0 => EntryAction(img, dyn, resolve, table, i))
  }

  /** Both tables of an image, in the order they are processed. */
  function ImageActions(img: Image, resolve: Resolver): seq<Action> {
    match DynOf(img)
    case None => [Fail(ERR_MALFORMED)]
    case Some(dyn) =>
      TableActions(img, dyn, resolve, dyn.rel, dyn.relSz) + TableActions(img, dyn, resolve, dyn.jmprel, dyn.jmprelSz)
  }

  lemma {:induction false} RunAppend(m: Mem, a: seq<Action>, b: seq<Action>)
    ensures Run(m, a + b) == if Run(m, a).code != OK then Run(m, a) else Run(Run(m, a).mem, b)
  {
    if a == [] {
      assert [] + b == b;
    } else {
      assert (a + b)[0] == a[0] && (a + b)[1..] == a[1..] + b;
      RunAppend(Perform(m, a[0]).mem, a[1..], b);
    }
  }

  // ---- what a run means ----

  /** Byte `k` of the word at `addr` is at `x`. */
  predicate At(addr: u32, k: nat, x: u32) {
    k < 4 && x == WrapAdd(addr, k)
  }

  predicate Touches(a: Action, x: u32) {
    a.Store? && (At(a.addr, 0, x) || At(a.addr, 1, x) || At(a.addr, 2, x) || At(a.addr, 3, x))
  }

  /** The byte an action leaves at an address it touches. */
  function ByteOf(a: Action, x: u32): u8
    requires Touches(a, x)
  {
    Enc32(a.value)[WrapSub(x, a.addr)]
  }

  /** The byte at `x` after all actions: that of the last one to touch it. */
  function ByteAfter(actions: seq<Action>, x: u32, old': u8): u8 {
    if actions == [] then old'
    else
      var last := actions[|actions| - 1];
      if Touches(last, x) then ByteOf(last, x) else ByteAfter(actions[..|actions| - 1], x, old')
  }

  /** An address no action touches keeps its byte. */
  lemma {:induction false} Untouched(actions: seq<Action>, x: u32, b: u8)
    requires forall i :: 0 <= i < |actions| ==> !Touches(actions[i], x)
    ensures ByteAfter(actions, x, b) == b
  {
    if actions != [] {
      Untouched(actions[..|actions| - 1], x, b);
    }
  }

  /** The last action to touch an address decides its byte. */
  lemma {:induction false} LastDecides(actions: seq<Action>, x: u32, b: u8, i: nat)
    requires i < |actions| && Touches(actions[i], x)
    requires forall j :: i < j < |actions| ==> !Touches(actions[j], x)
    ensures ByteAfter(actions, x, b) == ByteOf(actions[i], x)
  {
    if i < |actions| - 1 {
      LastDecides(actions[..|actions| - 1], x, b, i);
    }
  }

  lemma PerformByte(m: Mem, a: Action, x: u32)
    requires Perform(m, a).code == OK && x in m
    ensures Perform(m, a).mem.Keys == m.Keys
    ensures Perform(m, a).mem[x] == if Touches(a, x) then ByteOf(a, x) else m[x]
  {
  }

  lemma {:induction false} RunKeys(m: Mem, actions: seq<Action>)
    ensures Run(m, actions).mem.Keys == m.Keys
  {
    if actions != [] {
      RunKeys(Perform(m, actions[0]).mem, actions[1..]);
    }
  }

  lemma RunLast(m: Mem, actions: seq<Action>)
    requires actions != [] && Run(m, actions).code == OK
    ensures var n := |actions| - 1;
            var before := Run(m, actions[..n]);
            && before.code == OK && Perform(before.mem, actions[n]).code == OK
            && Run(m, actions).mem == Perform(before.mem, actions[n]).mem
  {
    var n := |actions| - 1;
    assert actions == actions[..n] + [actions[n]];
    RunAppend(m, actions[..n], [actions[n]]);
  }

  /** After a run that succeeds, every byte is the one the last relocation to touch it
      prescribes; bytes no relocation touches, and what is mapped, are as before. */
  lemma {:induction false} RunMeaning(m: Mem, actions: seq<Action>, x: u32)
    requires Run(m, actions).code == OK && x in m
    ensures Run(m, actions).mem.Keys == m.Keys
    ensures Run(m, actions).mem[x] == ByteAfter(actions, x, m[x])
    decreases |actions|
  {
    RunKeys(m, actions);
    if actions != [] {
      var n := |actions| - 1;
      RunLast(m, actions);
      RunKeys(m, actions[..n]);
      RunMeaning(m, actions[..n], x);
      PerformByte(Run(m, actions[..n]).mem, actions[n], x);
    }
  }

  /** Bytes depend on the old ones only where nothing was written. */
  lemma {:induction false} ByteAfterTwice(actions: seq<Action>, x: u32, b: u8)
    ensures ByteAfter(actions, x, ByteAfter(actions, x, b)) == ByteAfter(actions, x, b)
    decreases |actions|
  {
    if actions != [] && !Touches(actions[|actions| - 1], x) {
      ByteAfterTwice(actions[..|actions| - 1], x, b);
    }
  }

  /** Whether a run succeeds depends on what is mapped and not on what is there. */
  lemma {:induction false} RunSameKeys(m: Mem, m': Mem, actions: seq<Action>)
    requires m'.Keys == m.Keys
    ensures Run(m', actions).code == Run(m, actions).code
    decreases |actions|
  {
    if actions != [] {
      RunSameKeys(Perform(m, actions[0]).mem, Perform(m', actions[0]).mem, actions[1..]);
    }
  }

  /** Relocating an image again changes nothing. */
  lemma RunTwice(m: Mem, actions: seq<Action>)
    requires Run(m, actions).code == OK
    ensures Run(Run(m, actions).mem, actions) == Run(m, actions)
  {
    var once := Run(m, actions).mem;
    RunKeys(m, actions);
    RunSameKeys(m, once, actions);
    RunKeys(once, actions);
    var twice := Run(once, actions).mem;
    forall x | x in m ensures twice[x] == once[x] {
      RunMeaning(m, actions, x);
      RunMeaning(once, actions, x);
      ByteAfterTwice(actions, x, m[x]);
    }
    assert twice == once;
  }

  predicate Fails(m: Mem, a: Action) {
    match a
    case Skip => false
    case Fail(_) => true
    case Store(addr, _) => !Mapped(m, addr)
  }

  ghost predicate RealCodes(actions: seq<Action>) {
    forall i :: 0 <= i < |actions| && actions[i].Fail? ==> actions[i].code != OK
  }

  /** A run succeeds exactly if no entry fails; otherwise it reports the first that does, and
      has done exactly what those before it asked for. */
  lemma {:induction false} RunReports(m: Mem, actions: seq<Action>)
    requires RealCodes(actions)
    ensures Run(m, actions).code == OK <==> forall i :: 0 <= i < |actions| ==> !Fails(m, actions[i])
    ensures Run(m, actions).code != OK ==> exists i: nat :: StopsAt(m, actions, i)
  {
    if actions != [] {
      var o := Perform(m, actions[0]);
      if o.code == OK {
        RunReports(o.mem, actions[1..]);
        forall i | 0 <= i < |actions| - 1 ensures Fails(o.mem, actions[1..][i]) == Fails(m, actions[i + 1]) {
          RunKeys(m, [actions[0]]);
        }
        if Run(m, actions).code != OK {
          var j: nat :| StopsAt(o.mem, actions[1..], j);
          LaterStop(m, actions, j);
        }
      } else {
        assert StopsAt(m, actions, 0);
      }
    }
  }

  /** The run of `actions` is the run of the first `i`, which succeeds, and then a failure. */
  ghost predicate StopsAt(m: Mem, actions: seq<Action>, i: nat) {
    && i < |actions| && Fails(m, actions[i])
    && Run(m, actions[..i]).code == OK
    && Run(m, actions) == Outcome(Run(m, actions[..i]).mem, if actions[i].Fail? then actions[i].code else ERR_WRITE_FAILED)
  }

  lemma LaterStop(m: Mem, actions: seq<Action>, j: nat)
    requires actions != [] && Perform(m, actions[0]).code == OK
    requires StopsAt(Perform(m, actions[0]).mem, actions[1..], j)
    ensures StopsAt(m, actions, j + 1)
  {
    var o := Perform(m, actions[0]);
    assert actions[..j + 1][0] == actions[0] && actions[..j + 1][1..] == actions[1..][..j];
    assert o.mem.Keys == m.Keys;
  }

  // ---- an image ----

  lemma EntryCode(img: Image, dyn: Dyn, resolve: Resolver, table: u32, i: nat)
    ensures EntryAction(img, dyn, resolve, table, i).Fail? ==> EntryAction(img, dyn, resolve, table, i).code != OK
  {
  }

  lemma TableCodes(img: Image, dyn: Dyn, resolve: Resolver, table: u32, size: u32)
    ensures RealCodes(TableActions(img, dyn, resolve, table, size))
  {
    forall i: nat ensures EntryAction(img, dyn, resolve, table, i).Fail? ==> EntryAction(img, dyn, resolve, table, i).code != OK {
      EntryCode(img, dyn, resolve, table, i);
    }
  }

  lemma CodesAppend(a: seq<Action>, b: seq<Action>)
    requires RealCodes(a) && RealCodes(b)
    ensures RealCodes(a + b)
  {
  }

  /** Every failure is reported by a code of its own. */
  lemma ActionCodes(img: Image, resolve: Resolver)
    ensures RealCodes(ImageActions(img, resolve))
  {
    if DynOf(img).Some? {
      var dyn := DynOf(img).value;
      TableCodes(img, dyn, resolve, dyn.rel, dyn.relSz);
      TableCodes(img, dyn, resolve, dyn.jmprel, dyn.jmprelSz);
      CodesAppend(TableActions(img, dyn, resolve, dyn.rel, dyn.relSz),
                  TableActions(img, dyn, resolve, dyn.jmprel, dyn.jmprelSz));
    }
  }

  /** Relocating an image, as a whole: on success every byte of memory is what the last
      relocation to touch it prescribes, and doing it again leaves memory alone. */
  lemma RelocationMeaning(m: Mem, img: Image, resolve: Resolver)
    requires Run(m, ImageActions(img, resolve)).code == OK
    ensures Run(m, ImageActions(img, resolve)).mem.Keys == m.Keys
    ensures forall x :: x in m ==>
              Run(m, ImageActions(img, resolve)).mem[x] == ByteAfter(ImageActions(img, resolve), x, m[x])
    ensures Run(Run(m, ImageActions(img, resolve)).mem, ImageActions(img, resolve)) == Run(m, ImageActions(img, resolve))
  {
    var actions := ImageActions(img, resolve);
    RunKeys(m, actions);
    forall x | x in m ensures Run(m, actions).mem[x] == ByteAfter(actions, x, m[x]) {
      RunMeaning(m, actions, x);
    }
    RunTwice(m, actions);
  }
}
