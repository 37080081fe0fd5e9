/** ELF32 images as the dynamic linker reads them: the dynamic section, names and symbols. */
module DynlinkImage {
  import opened Words
  import opened LittleEndian

  const DT_NULL: u32 := 0
  const DT_NEEDED: u32 := 1
  const DT_PLTRELSZ: u32 := 2
  const DT_HASH: u32 := 4
  const DT_STRTAB: u32 := 5
  const DT_SYMTAB: u32 := 6
  const DT_REL: u32 := 17
  const DT_RELSZ: u32 := 18
  const DT_JMPREL: u32 := 23

  const MAX_NEEDED := 16
  const MAX_NAME := 64
  const SYM_SIZE := 16

  /** A loadable segment: link-time address, file offset and size in the file. */
  datatype Seg = Seg(vaddr: u32, offset: u32, filesz: u32)

  /** An image: its file, its load bias, where its dynamic section is, its segments. */
  datatype Image = Image(data: Bytes, bias: u32, dynOff: u32, dynSz: u32, segs: seq<Seg>)

  /** `seen` and then the rest, if there is a rest. */
  function After<T>(seen: seq<T>, rest: Option<seq<T>>): Option<seq<T>> {
    match rest case None => None case Some(r) => Some(seen + r)
  }

  lemma AfterNothing<T>(rest: Option<seq<T>>)
    ensures After([], rest) == rest
  {
    if rest.Some? {
      assert [] + rest.value == rest.value;
    }
  }

  // ---- bounds-checked reads ----

  function Read32(d: Bytes, off: nat): Option<u32> {
    if off + 4 <= |d| then Some(Get32(d, off)) else None
  }

  function Read16(d: Bytes, off: nat): Option<u16> {
    if off + 2 <= |d| then Some(Get16(d, off)) else None
  }

  function Read8(d: Bytes, off: nat): Option<u8> {
    if off < |d| then Some(d[off]) else None
  }

  // ---- link-time address to file offset ----

  predicate Covers(s: Seg, v: u32) {
    s.vaddr <= v && v - s.vaddr < s.filesz
  }

  function Offset(segs: seq<Seg>, v: u32): Option<u32> {
    if segs == [] then None
    else if Covers(segs[0], v) then Some(WrapAdd(segs[0].offset, v - segs[0].vaddr))
    else Offset(segs[1..], v)
  }

  method VaddrToOffset(segs: seq<Seg>, v: u32) returns (r: Option<u32>)
    ensures r == Offset(segs, v)
  {
    for i := 0 to |segs|
      invariant Offset(segs, v) == Offset(segs[i..], v)
    {
      if Covers(segs[i], v) {
        return Some(WrapAdd(segs[i].offset, v - segs[i].vaddr));
      }
    }
    return None;
  }

  /** The address is one of those the segment has in the file. */
  predicate Within(s: Seg, v: u32) {
    s.vaddr <= v < s.vaddr + s.filesz
  }

  /** Segment `i` is the first to cover the address, which lies at file offset `off` of it. */
  ghost predicate FirstCover(segs: seq<Seg>, v: u32, i: nat, off: u32) {
    && i < |segs| && Within(segs[i], v) && (forall j :: 0 <= j < i ==> !Within(segs[j], v))
    && off == (segs[i].offset + v - segs[i].vaddr) % TWO32
  }

  /** The translation is that of the first segment that covers the address, and fails exactly
      when none does. */
  lemma {:induction false} OffsetIsFirst(segs: seq<Seg>, v: u32)
    ensures Offset(segs, v).None? <==> forall i :: 0 <= i < |segs| ==> !Within(segs[i], v)
    ensures Offset(segs, v).Some? ==> exists i: nat :: FirstCover(segs, v, i, Offset(segs, v).value)
  {
    if segs != [] {
      if Covers(segs[0], v) {
        assert FirstCover(segs, v, 0, Offset(segs, v).value);
      } else {
        OffsetIsFirst(segs[1..], v);
        if Offset(segs[1..], v).Some? {
          var i: nat :| FirstCover(segs[1..], v, i, Offset(segs, v).value);
          assert FirstCover(segs, v, i + 1, Offset(segs, v).value);
        }
      }
    }
  }

  // ---- the dynamic section ----

  datatype Tag = Tag(tag: u32, val: u32)

  /** The entries from index `i` up to the first null one; none if the file ends first. */
  function Tags(img: Image, i: nat): Option<seq<Tag>>
    requires i <= img.dynSz / 8
    decreases img.dynSz / 8 - i
  {
    if i == img.dynSz / 8 then Some([])
    else
      var off := Wrap32(img.dynOff + i * 8);
      match Read32(img.data, off)
      case None => None
      case Some(tag) =>
        match Read32(img.data, WrapAdd(off, 4))
        case None => None
        case Some(val) =>
          if tag == DT_NULL then Some([])
          else
            match Tags(img, i + 1)
            case None => None
            case Some(rest) => Some([Tag(tag, val)] + rest)
  }

  /** The value of the last entry with tag `t`. */
  function Last(ts: seq<Tag>, t: u32): Option<u32> {
    if ts == [] then None
    else if ts[|ts| - 1].tag == t then Some(ts[|ts| - 1].val)
    else Last(ts[..|ts| - 1], t)
  }

  function LastOr0(ts: seq<Tag>, t: u32): u32 {
    match Last(ts, t) case None => 0 case Some(v) => v
  }

  /** The values of the entries with tag `t`, in order. */
  function All(ts: seq<Tag>, t: u32): seq<u32> {
    if ts == [] then []
    else All(ts[..|ts| - 1], t) + if ts[|ts| - 1].tag == t then [ts[|ts| - 1].val] else []
  }

  function FirstFew(s: seq<u32>): seq<u32> {
    if |s| <= MAX_NEEDED then s else s[..MAX_NEEDED]
  }

  datatype Dyn = Dyn(strtab: u32, symtab: u32, symCount: u32, rel: u32, relSz: u32,
                     jmprel: u32, jmprelSz: u32, needed: seq<u32>)

  /** A table's file offset: zero if its tag is missing, an error if its address is nowhere. */
  function Located(segs: seq<Seg>, v: Option<u32>): Option<u32> {
    match v case None => Some(0) case Some(a) => Offset(segs, a)
  }

  /** The number of symbols: the second word of the hash table, zero without one. */
  function SymCount(img: Image, hash: Option<u32>): Option<u32> {
    match hash
    case None => Some(0)
    case Some(a) =>
      match Offset(img.segs, a)
      case None => Some(0)
      case Some(off) => Read32(img.data, WrapAdd(off, 4))
  }

  /** What a list of entries says. */
  function DynFrom(img: Image, ts: seq<Tag>): Option<Dyn> {
    var strtab := Located(img.segs, Last(ts, DT_STRTAB));
    var symtab := Located(img.segs, Last(ts, DT_SYMTAB));
    var rel := Located(img.segs, Last(ts, DT_REL));
    var jmprel := Located(img.segs, Last(ts, DT_JMPREL));
    var count := SymCount(img, Last(ts, DT_HASH));
    if strtab.None? || symtab.None? || rel.None? || jmprel.None? || count.None? then None
    else Some(Dyn(strtab.value, symtab.value, count.value, rel.value, LastOr0(ts, DT_RELSZ),
                  jmprel.value, LastOr0(ts, DT_PLTRELSZ), FirstFew(All(ts, DT_NEEDED))))
  }

  /** What the image's dynamic section says. */
  function DynOf(img: Image): Option<Dyn> {
    if img.dynSz == 0 || img.dynSz % 8 != 0 then None
    else
      match Tags(img, 0)
      case None => None
      case Some(ts) => DynFrom(img, ts)
  }

  /** The values gathered while the section is scanned. */
  datatype Seen = Seen(strtab: Option<u32>, symtab: Option<u32>, hash: Option<u32>, rel: Option<u32>, relSz: u32,
                       jmprel: Option<u32>, jmprelSz: u32, needed: seq<u32>)

  ghost predicate Gathered(s: Seen, ts: seq<Tag>) {
    && s.strtab == Last(ts, DT_STRTAB) && s.symtab == Last(ts, DT_SYMTAB) && s.hash == Last(ts, DT_HASH)
    && s.rel == Last(ts, DT_REL) && s.relSz == LastOr0(ts, DT_RELSZ)
    && s.jmprel == Last(ts, DT_JMPREL) && s.jmprelSz == LastOr0(ts, DT_PLTRELSZ)
    && s.needed == FirstFew(All(ts, DT_NEEDED))
  }

  /** One entry, which replaces what an earlier one with its tag said; library names are
      collected up to a limit. */
  function Gather(s: Seen, tag: u32, val: u32): Seen {
    if tag == DT_NEEDED then (if |s.needed| < MAX_NEEDED then s.(needed := s.needed + [val]) else s)
    else if tag == DT_STRTAB then s.(strtab := Some(val))
    else if tag == DT_SYMTAB then s.(symtab := Some(val))
    else if tag == DT_HASH then s.(hash := Some(val))
    else if tag == DT_REL then s.(rel := Some(val))
    else if tag == DT_RELSZ then s.(relSz := val)
    else if tag == DT_JMPREL then s.(jmprel := Some(val))
    else if tag == DT_PLTRELSZ then s.(jmprelSz := val)
    else s
  }

  lemma GatherNext(s: Seen, ts: seq<Tag>, tag: u32, val: u32)
    requires Gathered(s, ts)
    ensures Gathered(Gather(s, tag, val), ts + [Tag(tag, val)])
  {
    var ts' := ts + [Tag(tag, val)];
    assert ts'[..|ts'| - 1] == ts;
    assert forall t: u32 :: Last(ts', t) == if t == tag then Some(val) else Last(ts, t);
    if tag == DT_NEEDED {
      assert All(ts', DT_NEEDED) == All(ts, DT_NEEDED) + [val];
    } else {
      assert All(ts', DT_NEEDED) == All(ts, DT_NEEDED);
    }
  }

  lemma AfterOne(ts: seq<Tag>, t: Tag, rest: Option<seq<Tag>>)
    ensures After(ts + [t], rest) == After(ts, match rest case None => None case Some(us) => Some([t] + us))
  {
    if rest.Some? {
      assert ts + [t] + rest.value == ts + ([t] + rest.value);
    }
  }

  /** The scan of the section as a whole. */
  method ScanDynamic(img: Image) returns (r: Option<Seen>)
    ensures r.None? <==> Tags(img, 0).None?
    ensures r.Some? ==> Gathered(r.value, Tags(img, 0).value)
  {
    var s := Seen(None, None, None, None, 0, None, 0, []);
    ghost var ts: seq<Tag> := [];
    var i: nat := 0;
    AfterNothing(Tags(img, 0));
    while i < img.dynSz / 8
      invariant i <= img.dynSz / 8 && Gathered(s, ts)
      invariant Tags(img, 0) == After(ts, Tags(img, i))
    {
      var off := Wrap32(img.dynOff + i * 8);
      var tag := Read32(img.data, off);
      if tag.None? {
        return None;
      }
      var val := Read32(img.data, WrapAdd(off, 4));
      if val.None? {
        return None;
      }
      if tag.value == DT_NULL {
        assert ts + [] == ts;
        return Some(s);
      }
      GatherNext(s, ts, tag.value, val.value);
      AfterOne(ts, Tag(tag.value, val.value), Tags(img, i + 1));
      s := Gather(s, tag.value, val.value);
      ts := ts + [Tag(tag.value, val.value)];
      i := i + 1;
    }
    assert ts + [] == ts;
    return Some(s);
  }

  method Locate(segs: seq<Seg>, v: Option<u32>) returns (r: Option<u32>)
    ensures r == Located(segs, v)
  {
    if v.None? {
      return Some(0);
    }
    r := VaddrToOffset(segs, v.value);
  }

  method CountSymbols(img: Image, hash: Option<u32>) returns (r: Option<u32>)
    ensures r == SymCount(img, hash)
  {
    if hash.None? {
      return Some(0);
    }
    var off := VaddrToOffset(img.segs, hash.value);
    if off.None? {
      return Some(0);
    }
    return Read32(img.data, WrapAdd(off.value, 4));
  }

  method ParseDynamic(img: Image) returns (r: Option<Dyn>)
    ensures r == DynOf(img)
  {
    if img.dynSz == 0 || img.dynSz % 8 != 0 {
      return None;
    }
    var seen := ScanDynamic(img);
    if seen.None? {
      return None;
    }
    var s := seen.value;
    var strtab := Locate(img.segs, s.strtab);
    if strtab.None? {
      return None;
    }
    var symtab := Locate(img.segs, s.symtab);
    if symtab.None? {
      return None;
    }
    var rel := Locate(img.segs, s.rel);
    if rel.None? {
      return None;
    }
    var jmprel := Locate(img.segs, s.jmprel);
    if jmprel.None? {
      return None;
    }
    var count := CountSymbols(img, s.hash);
    if count.None? {
      return None;
    }
    return Some(Dyn(strtab.value, symtab.value, count.value, rel.value, s.relSz, jmprel.value, s.jmprelSz, s.needed));
  }

  // ---- names ----

  /** The string from byte `start + n` on, where `n` bytes of it have been read. */
  function CString(d: Bytes, start: nat, n: nat): (r: Option<Bytes>)
    requires n <= MAX_NAME
    ensures r.Some? ==> n + |r.value| <= MAX_NAME
    decreases MAX_NAME - n
  {
    if start + n >= |d| then None
    else if d[start + n] == 0 then Some([])
    else if n >= MAX_NAME then None
    else
      match CString(d, start, n + 1)
      case None => None
      case Some(rest) => Some([d[start + n]] + rest)
  }

  method ReadStr(d: Bytes, strtab: u32, name: u32) returns (r: Option<Bytes>)
    ensures r == CString(d, WrapAdd(strtab, name), 0)
  {
    var start := WrapAdd(strtab, name);
    var out: Bytes := [];
    var n: nat := 0;
    AfterNothing(CString(d, start, 0));
    while true
      invariant n <= MAX_NAME
      invariant CString(d, start, 0) == After(out, CString(d, start, n))
      decreases MAX_NAME - n
    {
      if start + n >= |d| {
        return None;
      }
      var b := d[start + n];
      if b == 0 {
        assert out + [] == out;
        return Some(out);
      }
      if n >= MAX_NAME {
        return None;
      }
      if CString(d, start, n + 1).Some? {
        assert out + ([b] + CString(d, start, n + 1).value) == (out + [b]) + CString(d, start, n + 1).value;
      }
      out := out + [b];
      n := n + 1;
    }
  }

  /** A string is read exactly if it ends within 64 bytes and within the file; it is the
      bytes before its end. */
  lemma {:induction false} CStringIs(d: Bytes, start: nat, n: nat, s: Bytes)
    requires n <= MAX_NAME
    ensures CString(d, start, n) == Some(s) <==>
            && n + |s| <= MAX_NAME && start + n + |s| < |d| && d[start + n..start + n + |s|] == s
            && d[start + n + |s|] == 0 && forall i :: 0 <= i < |s| ==> s[i] != 0
    decreases MAX_NAME - n
  {
    if start + n < |d| && d[start + n] != 0 && n < MAX_NAME {
      if s != [] {
        CStringIs(d, start, n + 1, s[1..]);
        if start + n + |s| < |d| {
          assert d[start + n..start + n + |s|] == [d[start + n]] + d[start + n + 1..start + n + |s|];
        }
        assert s == [s[0]] + s[1..];
      }
    } else if start + n < |d| && s != [] && start + n + |s| < |d| {
      assert d[start + n..start + n + |s|][0] == d[start + n];
    }
  }

  // ---- symbols ----

  datatype Sym = Sym(name: u32, value: u32, info: u8, shndx: u16)

  /** Symbol `i` of the table, if the file has all of it. */
  function SymAt(d: Bytes, symtab: u32, i: nat): Option<Sym> {
    var off := Wrap32(symtab + i * SYM_SIZE);
    var name, value := Read32(d, off), Read32(d, WrapAdd(off, 4));
    var info, shndx := Read8(d, WrapAdd(off, 12)), Read16(d, WrapAdd(off, 14));
    if name.None? || value.None? || info.None? || shndx.None? then None
    else Some(Sym(name.value, value.value, info.value, shndx.value))
  }

  function Bind(s: Sym): nat {
    s.info / 16
  }

  /** Symbol `i` is defined here, visible outside and called `name`. */
  predicate Exports(img: Image, dyn: Dyn, i: nat, name: Bytes) {
    match SymAt(img.data, dyn.symtab, i)
    case None => false
    case Some(s) =>
      s.shndx != 0 && Bind(s) != 0 && s.name != 0 && CString(img.data, WrapAdd(dyn.strtab, s.name), 0) == Some(name)
  }

  predicate Readable(img: Image, dyn: Dyn, i: nat) {
    SymAt(img.data, dyn.symtab, i).Some?
  }

  /** Symbol `k` is the first of that name, and the scan comes to it. */
  ghost predicate FirstExport(img: Image, dyn: Dyn, k: nat, name: Bytes) {
    && k < dyn.symCount && Exports(img, dyn, k, name)
    && forall j: nat :: j < k ==> Readable(img, dyn, j) && !Exports(img, dyn, j, name)
  }

  /** The scan over the symbols of a parsed image. */
  method ScanSymbols(img: Image, dyn: Dyn, name: Bytes) returns (k: Option<nat>)
    ensures k.Some? ==> FirstExport(img, dyn, k.value, name)
    ensures k.None? ==> forall j: nat :: !FirstExport(img, dyn, j, name)
  {
    var i: nat := 0;
    while i < dyn.symCount
      invariant i <= dyn.symCount
      invariant forall j: nat :: j < i ==> Readable(img, dyn, j) && !Exports(img, dyn, j, name)
    {
      var sym := SymAt(img.data, dyn.symtab, i);
      if sym.None? {
        assert !Readable(img, dyn, i);
        return None;
      }
      var s := sym.value;
      if s.shndx != 0 && Bind(s) != 0 && s.name != 0 {
        var found := ReadStr(img.data, dyn.strtab, s.name);
        if found == Some(name) {
          return Some(i);
        }
      }
      i := i + 1;
    }
    return None;
  }

  /** `addr` is the address of the first such symbol, or zero if there is none. */
  ghost predicate Finds(img: Image, dyn: Dyn, name: Bytes, addr: u32) {
    && (forall k: nat :: FirstExport(img, dyn, k, name) ==>
          addr == (img.bias + SymAt(img.data, dyn.symtab, k).value.value) % TWO32)
    && ((forall k: nat :: !FirstExport(img, dyn, k, name)) ==> addr == 0)
  }

  lemma OnlyOneFirst(img: Image, dyn: Dyn, j: nat, k: nat, name: Bytes)
    requires FirstExport(img, dyn, j, name) && FirstExport(img, dyn, k, name)
    ensures j == k
  {
  }

  method FindIn(img: Image, dyn: Dyn, name: Bytes) returns (addr: u32)
    ensures Finds(img, dyn, name, addr)
  {
    var i := ScanSymbols(img, dyn, name);
    if i.None? {
      return 0;
    }
    forall k: nat | FirstExport(img, dyn, k, name) ensures k == i.value {
      OnlyOneFirst(img, dyn, i.value, k, name);
    }
    addr := WrapAdd(img.bias, SymAt(img.data, dyn.symtab, i.value).value.value);
  }

  /** The address of the first symbol of that name the image exports; zero if the image
      cannot be parsed, exports no such symbol, or has an unreadable symbol before it. */
  method FindSymbol(img: Image, name: Bytes) returns (addr: u32)
    ensures match DynOf(img)
            case None => addr == 0
            case Some(dyn) => Finds(img, dyn, name, addr)
  {
    var dyn := ParseDynamic(img);
    if dyn.None? {
      return 0;
    }
    addr := FindIn(img, dyn.value, name);
  }
}
