/** The ELF32 tables as bytes of the file, and what relocation does stated over those bytes
    (System V ABI, chapters 4 and 5). */
module DynlinkFormat {
  import opened Words
  import opened LittleEndian
  import opened DynlinkImage
  import opened DynlinkReloc

  /** The word at `off` of the file. */
  ghost predicate WordAt(d: Bytes, off: nat, v: u32) {
    off + 4 <= |d| && d[off..off + 4] == Enc32(v)
  }

  lemma WordRead(d: Bytes, off: nat, v: u32)
    ensures Read32(d, off) == Some(v) <==> WordAt(d, off, v)
  {
    if off + 4 <= |d| {
      WordBytes(d, off, v);
    }
  }

  /** Two words, one after the other. */
  ghost predicate PairAt(d: Bytes, at: u32, v: u32, w: u32) {
    WordAt(d, at, v) && WordAt(d, (at + 4) % TWO32, w)
  }

  lemma PairRead(d: Bytes, at: u32, v: u32, w: u32)
    ensures PairAt(d, at, v, w) <==> Read32(d, at) == Some(v) && Read32(d, WrapAdd(at, 4)) == Some(w)
  {
    WrapIsMod(at, 4);
    WordRead(d, at, v);
    WordRead(d, WrapAdd(at, 4), w);
  }

  // ---- symbols ----

  /** An entry of the symbol table: name, value, size, information, other and section. */
  function SymBytes(name: u32, value: u32, size: u32, info: u8, other: u8, shndx: u16): (b: Bytes)
    ensures |b| == SYM_SIZE
  {
    Enc32(name) + Enc32(value) + Enc32(size) + [info, other] + Enc16(shndx)
  }

  lemma SymFields(d: Bytes, at: nat, name: u32, value: u32, size: u32, info: u8, other: u8, shndx: u16)
    requires at + SYM_SIZE <= |d| && d[at..at + SYM_SIZE] == SymBytes(name, value, size, info, other, shndx)
    ensures Get32(d, at) == name && Get32(d, at + 4) == value && d[at + 12] == info && Get16(d, at + 14) == shndx
  {
    var e := SymBytes(name, value, size, info, other, shndx);
    SubSlice(d, at, at + SYM_SIZE, 0, 4);
    SubSlice(d, at, at + SYM_SIZE, 4, 8);
    SubSlice(d, at, at + SYM_SIZE, 14, 16);
    assert e[0..4] == Enc32(name) && e[4..8] == Enc32(value) && e[14..16] == Enc16(shndx);
    assert d[at + 12] == d[at..at + SYM_SIZE][12] == info;
    Enc32Get(d, at, name);
    Enc32Get(d, at + 4, value);
    Enc16Get(d, at + 14, shndx);
  }

  lemma SymbolLayout(d: Bytes, symtab: u32, i: nat, at: nat,
                     name: u32, value: u32, size: u32, info: u8, other: u8, shndx: u16)
    requires at == symtab + i * SYM_SIZE && at + SYM_SIZE <= |d| && at + SYM_SIZE <= TWO32
    requires d[at..at + SYM_SIZE] == SymBytes(name, value, size, info, other, shndx)
    ensures SymAt(d, symtab, i) == Some(Sym(name, value, info, shndx))
  {
    SymFields(d, at, name, value, size, info, other, shndx);
    assert Wrap32(symtab + i * SYM_SIZE) == at;
  }

  // ---- the dynamic section ----

  /** Entry `k` of the dynamic section: a tag and a value. */
  ghost predicate DynEntry(img: Image, k: nat, tag: u32, val: u32) {
    k < img.dynSz / 8 && PairAt(img.data, Wrap32(img.dynOff + k * 8), tag, val)
  }

  ghost predicate Full(img: Image, k: nat) {
    exists tag: u32, val: u32 :: tag != DT_NULL && DynEntry(img, k, tag, val)
  }

  /** An entry before the null one that ends the section. */
  ghost predicate Listed(img: Image, k: nat, tag: u32, val: u32) {
    DynEntry(img, k, tag, val) && forall j: nat :: j <= k ==> Full(img, j)
  }

  /** The last entry with a tag decides its value. */
  ghost predicate TagIs(img: Image, tag: u32, val: u32) {
    exists k: nat :: LastListed(img, k, tag, val)
  }

  ghost predicate LastListed(img: Image, k: nat, tag: u32, val: u32) {
    Listed(img, k, tag, val) && forall j: nat, other: u32 :: j > k ==> !Listed(img, j, tag, other)
  }

  ghost predicate NoTag(img: Image, tag: u32) {
    forall k: nat, val: u32 :: !Listed(img, k, tag, val)
  }

  /** Entry `k` as it is read. */
  function TagRead(img: Image, k: nat): Option<Tag> {
    var at := Wrap32(img.dynOff + k * 8);
    var tag, val := Read32(img.data, at), Read32(img.data, WrapAdd(at, 4));
    if tag.None? || val.None? then None else Some(Tag(tag.value, val.value))
  }

  lemma DynRead(img: Image, k: nat, tag: u32, val: u32)
    ensures DynEntry(img, k, tag, val) <==> k < img.dynSz / 8 && TagRead(img, k) == Some(Tag(tag, val))
  {
    PairRead(img.data, Wrap32(img.dynOff + k * 8), tag, val);
  }

  lemma FullRead(img: Image, k: nat)
    ensures Full(img, k) <==> k < img.dynSz / 8 && TagRead(img, k).Some? && TagRead(img, k).value.tag != DT_NULL
  {
    forall tag: u32, val: u32
      ensures DynEntry(img, k, tag, val) <==> k < img.dynSz / 8 && TagRead(img, k) == Some(Tag(tag, val))
    {
      DynRead(img, k, tag, val);
    }
    if k < img.dynSz / 8 && TagRead(img, k).Some? {
      assert DynEntry(img, k, TagRead(img, k).value.tag, TagRead(img, k).value.val);
    }
  }

  lemma TagsStep(img: Image, i: nat, ts: seq<Tag>)
    requires i < img.dynSz / 8 && Tags(img, i) == Some(ts)
    ensures TagRead(img, i).Some? && (ts == [] <==> TagRead(img, i).value.tag == DT_NULL)
    ensures ts != [] ==> ts[0] == TagRead(img, i).value && Tags(img, i + 1) == Some(ts[1..])
  {
  }

  /** The scan collects the entries before the null one, in order. */
  lemma {:induction false} TagsAre(img: Image, i: nat, ts: seq<Tag>, k: nat)
    requires i <= img.dynSz / 8 && Tags(img, i) == Some(ts) && k <= |ts|
    ensures k < |ts| ==> i + k < img.dynSz / 8 && TagRead(img, i + k) == Some(ts[k]) && ts[k].tag != DT_NULL
    ensures k == |ts| && i + k < img.dynSz / 8 ==> TagRead(img, i + k).Some? && TagRead(img, i + k).value.tag == DT_NULL
    decreases k
  {
    if i < img.dynSz / 8 {
      TagsStep(img, i, ts);
      if k > 0 {
        TagsAre(img, i + 1, ts[1..], k - 1);
      }
    }
  }

  lemma ListedIs(img: Image, ts: seq<Tag>, k: nat, tag: u32, val: u32)
    requires Tags(img, 0) == Some(ts)
    ensures Listed(img, k, tag, val) <==> k < |ts| && ts[k] == Tag(tag, val)
  {
    forall j: nat | j <= |ts| ensures Full(img, j) <==> j < |ts| {
      FullIs(img, ts, j);
    }
    assert !Full(img, |ts|);
    DynRead(img, k, tag, val);
    if k < |ts| {
      TagsAre(img, 0, ts, k);
    }
  }

  lemma FullIs(img: Image, ts: seq<Tag>, j: nat)
    requires Tags(img, 0) == Some(ts) && j <= |ts|
    ensures Full(img, j) <==> j < |ts|
  {
    TagsAre(img, 0, ts, j);
    FullRead(img, j);
  }

  lemma {:induction false} LastIs(ts: seq<Tag>, t: u32)
    ensures Last(ts, t).None? <==> forall k :: 0 <= k < |ts| ==> ts[k].tag != t
    ensures Last(ts, t).Some? ==> exists k: nat :: LastAt(ts, t, k) && ts[k].val == Last(ts, t).value
  {
    if ts != [] {
      var n := |ts| - 1;
      LastIs(ts[..n], t);
      if ts[n].tag == t {
        assert LastAt(ts, t, n);
      } else if Last(ts, t).Some? {
        var k: nat :| LastAt(ts[..n], t, k) && ts[..n][k].val == Last(ts, t).value;
        assert LastAt(ts, t, k);
      }
    }
  }

  ghost predicate LastAt(ts: seq<Tag>, t: u32, k: nat) {
    k < |ts| && ts[k].tag == t && forall j :: k < j < |ts| ==> ts[j].tag != t
  }

  /** The value collected for a tag is that of its last entry. */
  lemma TagMeaning(img: Image, ts: seq<Tag>, t: u32)
    requires Tags(img, 0) == Some(ts)
    ensures Last(ts, t).None? ==> NoTag(img, t)
    ensures Last(ts, t).Some? ==> TagIs(img, t, Last(ts, t).value)
  {
    forall k: nat, val: u32 ensures Listed(img, k, t, val) <==> k < |ts| && ts[k] == Tag(t, val) {
      ListedIs(img, ts, k, t, val);
    }
    LastIs(ts, t);
    if Last(ts, t).Some? {
      var k: nat :| LastAt(ts, t, k) && ts[k].val == Last(ts, t).value;
      assert LastListed(img, k, t, ts[k].val);
    }
  }

  /** `off` is the place in the file of the table whose address a tag gives; zero without one. */
  ghost predicate TableAt(img: Image, tag: u32, off: u32) {
    || (NoTag(img, tag) && off == 0)
    || exists a: u32, i: nat :: TagIs(img, tag, a) && FirstCover(img.segs, a, i, off)
  }

  ghost predicate SizeIs(img: Image, tag: u32, n: u32) {
    (NoTag(img, tag) && n == 0) || TagIs(img, tag, n)
  }

  lemma TableFound(img: Image, ts: seq<Tag>, t: u32)
    requires Tags(img, 0) == Some(ts) && Located(img.segs, Last(ts, t)).Some?
    ensures TableAt(img, t, Located(img.segs, Last(ts, t)).value)
  {
    TagMeaning(img, ts, t);
    if Last(ts, t).Some? {
      var a := Last(ts, t).value;
      OffsetIsFirst(img.segs, a);
      var i: nat :| FirstCover(img.segs, a, i, Offset(img.segs, a).value);
    }
  }

  /** The number of symbols is the second word of the hash table, zero if there is none. */
  ghost predicate CountIs(img: Image, n: u32) {
    || (NoTag(img, DT_HASH) && n == 0)
    || exists a: u32 :: TagIs(img, DT_HASH, a) && HashCount(img, a, n)
  }

  ghost predicate HashCount(img: Image, a: u32, n: u32) {
    || (n == 0 && forall i :: 0 <= i < |img.segs| ==> !Within(img.segs[i], a))
    || exists i: nat, off: u32 :: FirstCover(img.segs, a, i, off) && WordAt(img.data, (off + 4) % TWO32, n)
  }

  lemma CountFound(img: Image, ts: seq<Tag>)
    requires Tags(img, 0) == Some(ts) && SymCount(img, Last(ts, DT_HASH)).Some?
    ensures CountIs(img, SymCount(img, Last(ts, DT_HASH)).value)
  {
    TagMeaning(img, ts, DT_HASH);
    if Last(ts, DT_HASH).Some? {
      HashFound(img, Last(ts, DT_HASH).value);
    }
  }

  lemma HashFound(img: Image, a: u32)
    requires SymCount(img, Some(a)).Some?
    ensures HashCount(img, a, SymCount(img, Some(a)).value)
  {
    OffsetIsFirst(img.segs, a);
    if Offset(img.segs, a).Some? {
      var off := Offset(img.segs, a).value;
      var i: nat :| FirstCover(img.segs, a, i, off);
      WrapIsMod(off, 4);
      WordRead(img.data, WrapAdd(off, 4), SymCount(img, Some(a)).value);
    }
  }

  /** Listing the values of a tag goes entry by entry, in order. */
  lemma {:induction false} ValuesInOrder(a: seq<Tag>, x: Tag, b: seq<Tag>, t: u32)
    ensures All(a + [x] + b, t) == All(a, t) + (if x.tag == t then [x.val] else []) + All(b, t)
    decreases |b|
  {
    var whole := a + [x] + b;
    if b == [] {
      assert whole[..|whole| - 1] == a;
    } else {
      var c := b[..|b| - 1];
      ValuesInOrder(a, x, c, t);
      assert whole[..|whole| - 1] == a + [x] + c;
    }
  }

  /** The libraries asked for: the first sixteen, in order. */
  lemma NeededMeaning(img: Image, dyn: Dyn, ts: seq<Tag>)
    requires DynOf(img) == Some(dyn) && Tags(img, 0) == Some(ts)
    ensures dyn.needed <= All(ts, DT_NEEDED) && |dyn.needed| == Min(16, |All(ts, DT_NEEDED)|)
  {
  }

  /** What the dynamic section says about the tables. */
  lemma DynMeaning(img: Image, dyn: Dyn)
    requires DynOf(img) == Some(dyn)
    ensures TableAt(img, DT_REL, dyn.rel) && SizeIs(img, DT_RELSZ, dyn.relSz)
    ensures TableAt(img, DT_JMPREL, dyn.jmprel) && SizeIs(img, DT_PLTRELSZ, dyn.jmprelSz)
    ensures TableAt(img, DT_SYMTAB, dyn.symtab) && TableAt(img, DT_STRTAB, dyn.strtab) && CountIs(img, dyn.symCount)
  {
    var ts := Tags(img, 0).value;
    TableFound(img, ts, DT_REL);
    TableFound(img, ts, DT_JMPREL);
    TableFound(img, ts, DT_SYMTAB);
    TableFound(img, ts, DT_STRTAB);
    TagMeaning(img, ts, DT_RELSZ);
    TagMeaning(img, ts, DT_PLTRELSZ);
    CountFound(img, ts);
  }

  // ---- relocations ----

  /** Entry `i` of the relocation table at `table`: a place and what to do there. */
  ghost predicate RelEntry(img: Image, table: u32, i: nat, offset: u32, info: u32) {
    PairAt(img.data, Wrap32(table + i * REL_SIZE), offset, info)
  }

  lemma EntryIs(img: Image, dyn: Dyn, resolve: Resolver, table: u32, i: nat, offset: u32, info: u32)
    requires RelEntry(img, table, i, offset, info)
    ensures EntryAction(img, dyn, resolve, table, i) == ActionOf(img, dyn, resolve, offset, info)
  {
    PairRead(img.data, Wrap32(table + i * REL_SIZE), offset, info);
  }

  /** The word `v` is in memory at `addr`, across the end of the address space if need be. */
  ghost predicate WordIn(m: Mem, addr: u32, v: u32) {
    Mapped(m, addr) && forall k: nat :: k < 4 ==> m[WrapAdd(addr, k)] == Enc32(v)[k]
  }

  /** No action after number `k` writes a byte that it wrote. */
  ghost predicate Lasting(actions: seq<Action>, k: nat) {
    k < |actions| && forall j, x: u32 :: k < j < |actions| && Touches(actions[k], x) ==> !Touches(actions[j], x)
  }

  /** A word that is not overwritten is in memory afterwards. */
  lemma WordStays(m: Mem, actions: seq<Action>, k: nat)
    requires Run(m, actions).code == OK && Lasting(actions, k) && actions[k].Store? && Mapped(m, actions[k].addr)
    ensures WordIn(Run(m, actions).mem, actions[k].addr, actions[k].value)
  {
    var addr := actions[k].addr;
    RunKeys(m, actions);
    forall b: nat | b < 4 ensures Run(m, actions).mem[WrapAdd(addr, b)] == Enc32(actions[k].value)[b] {
      var x := WrapAdd(addr, b);
      assert At(addr, b, x) && Touches(actions[k], x);
      LastDecides(actions, x, m[x], k);
      RunMeaning(m, actions, x);
    }
  }

  /** Both relocation tables of an image. */
  function TableOf(dyn: Dyn, plt: bool): (u32, u32) {
    if plt then (dyn.jmprel, dyn.jmprelSz) else (dyn.rel, dyn.relSz)
  }

  /** The place of a relocation in the order they are done: `.rel.dyn` and then `.rel.plt`. */
  function Turn(dyn: Dyn, plt: bool, i: nat): nat {
    if plt then dyn.relSz / REL_SIZE + i else i
  }

  lemma ActionAt(img: Image, dyn: Dyn, resolve: Resolver, plt: bool, i: nat, offset: u32, info: u32)
    requires DynOf(img) == Some(dyn) && dyn.relSz % REL_SIZE == 0 && dyn.jmprelSz % REL_SIZE == 0
    requires i < TableOf(dyn, plt).1 / REL_SIZE && RelEntry(img, TableOf(dyn, plt).0, i, offset, info)
    ensures var actions := ImageActions(img, resolve);
            Turn(dyn, plt, i) < |actions| && actions[Turn(dyn, plt, i)] == ActionOf(img, dyn, resolve, offset, info)
  {
    EntryIs(img, dyn, resolve, TableOf(dyn, plt).0, i, offset, info);
  }

  lemma NothingFails(m: Mem, actions: seq<Action>, k: nat)
    requires RealCodes(actions) && Run(m, actions).code == OK && k < |actions|
    ensures !actions[k].Fail? && (actions[k].Store? ==> Mapped(m, actions[k].addr))
  {
    RunReports(m, actions);
    assert !Fails(m, actions[k]);
  }

  lemma SizesEven(m: Mem, img: Image, dyn: Dyn, resolve: Resolver)
    requires DynOf(img) == Some(dyn) && Run(m, ImageActions(img, resolve)).code == OK
    ensures dyn.relSz % REL_SIZE == 0 && dyn.jmprelSz % REL_SIZE == 0
  {
    var a, b := TableActions(img, dyn, resolve, dyn.rel, dyn.relSz), TableActions(img, dyn, resolve, dyn.jmprel, dyn.jmprelSz);
    ActionCodes(img, resolve);
    if dyn.relSz % REL_SIZE != 0 {
      NothingFails(m, a + b, 0);
      assert false;
    }
    if dyn.jmprelSz % REL_SIZE != 0 {
      NothingFails(m, a + b, |a|);
      assert false;
    }
  }

  /** When relocation succeeds, every entry of the two tables in the file that asks for a word
      has it: at the base plus the entry's offset is the word the ABI prescribes for the
      entry's kind, with the addend in the file and the value of its symbol, unless a later
      entry writes over it. */
  lemma EveryEntryIsDone(m: Mem, img: Image, dyn: Dyn, resolve: Resolver, plt: bool, i: nat, offset: u32, info: u32)
    returns (value: u32)
    requires DynOf(img) == Some(dyn) && Run(m, ImageActions(img, resolve)).code == OK
    requires i < TableOf(dyn, plt).1 / REL_SIZE && RelEntry(img, TableOf(dyn, plt).0, i, offset, info)
    requires info % 256 != R_NONE && Lasting(ImageActions(img, resolve), Turn(dyn, plt, i))
    ensures Right(img, dyn, resolve, offset, info, value)
    ensures WordIn(Run(m, ImageActions(img, resolve)).mem, (img.bias + offset) % TWO32, value)
  {
    var actions, k := ImageActions(img, resolve), Turn(dyn, plt, i);
    SizesEven(m, img, dyn, resolve);
    ActionAt(img, dyn, resolve, plt, i, offset, info);
    ActionCodes(img, resolve);
    NothingFails(m, actions, k);
    EntryFollowsAbi(img, dyn, resolve, offset, info);
    WordStays(m, actions, k);
    value := actions[k].value;
  }
}
