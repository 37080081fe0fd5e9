/** The relocation pass over an address space. */
module DynlinkLoader {
  import opened Words
  import opened LittleEndian
  import opened DynlinkImage
  import opened DynlinkReloc

  class AddressSpace {
    var mem: Mem

    /** Writes a word; refuses, changing nothing, if not all of it is mapped. */
    method WriteWord(addr: u32, value: u32) returns (ok: bool)
      modifies this
      ensures ok == Mapped(old(mem), addr)
      ensures mem == if ok then Write(old(mem), addr, value) else old(mem)
    {
      ok := addr in mem && WrapAdd(addr, 1) in mem && WrapAdd(addr, 2) in mem && WrapAdd(addr, 3) in mem;
      if ok {
        mem := Write(mem, addr, value);
      }
    }

    /** The value of a relocation's symbol, or the code of what is wrong with it. */
    method ResolveSymbol(img: Image, dyn: Dyn, resolve: Resolver, i: nat) returns (sym: u32, rc: int)
      ensures SymbolValue(img, dyn, resolve, i) == if rc == OK then Ok(sym) else Err(rc)
    {
      sym, rc := 0, OK;
      if i == 0 {
        return;
      }
      var entry := SymAt(img.data, dyn.symtab, i);
      if entry.None? {
        return 0, ERR_MALFORMED;
      }
      var s := entry.value;
      if s.shndx != 0 {
        return WrapAdd(img.bias, s.value), OK;
      }
      var name := ReadStr(img.data, dyn.strtab, s.name);
      if name.None? {
        return 0, ERR_MALFORMED;
      }
      var resolved := resolve(name.value);
      if resolved == 0 {
        if Bind(s) != STB_WEAK {
          rc := ERR_UNRESOLVED;
        }
        return;
      }
      sym := resolved;
    }

    /** One relocation. */
    method Relocate(img: Image, dyn: Dyn, resolve: Resolver, offset: u32, info: u32) returns (rc: int)
      modifies this
      ensures Outcome(mem, rc) == Perform(old(mem), ActionOf(img, dyn, resolve, offset, info))
    {
      var kind := info % 256;
      if kind == R_NONE {
        return OK;
      }
      if kind == R_COPY {
        return ERR_COPY;
      }
      var at := VaddrToOffset(img.segs, offset);
      if at.None? {
        return ERR_MALFORMED;
      }
      var addend := Read32(img.data, at.value);
      if addend.None? {
        return ERR_MALFORMED;
      }
      var value: u32;
      if kind == R_RELATIVE {
        value := WrapAdd(img.bias, addend.value);
      } else if UsesSymbol(kind) {
        var sym: u32;
        sym, rc := ResolveSymbol(img, dyn, resolve, info / 256);
        if rc != OK {
          return;
        }
        value := Computed(kind, img.bias, addend.value, offset, sym);
      } else {
        return ERR_TYPE;
      }
      var ok := WriteWord(WrapAdd(img.bias, offset), value);
      rc := if ok then OK else ERR_WRITE_FAILED;
    }

    /** One relocation table, up to the first entry that fails. */
    method ApplyRelTable(img: Image, dyn: Dyn, resolve: Resolver, table: u32, size: u32) returns (rc: int)
      modifies this
      ensures Outcome(mem, rc) == Run(old(mem), TableActions(img, dyn, resolve, table, size))
    {
      if size == 0 {
        return OK;
      }
      if size % REL_SIZE != 0 {
        return ERR_MALFORMED;
      }
      ghost var actions := TableActions(img, dyn, resolve, table, size);
      var i: nat := 0;
      while i < size / REL_SIZE
        invariant i <= size / REL_SIZE == |actions|
        invariant Run(old(mem), actions) == Run(mem, actions[i..])
      {
        assert actions[i..][0] == EntryAction(img, dyn, resolve, table, i) && actions[i..][1..] == actions[i + 1..];
        EntryCode(img, dyn, resolve, table, i);
        var off := Wrap32(table + i * REL_SIZE);
        var offset := Read32(img.data, off);
        if offset.None? {
          return ERR_MALFORMED;
        }
        var info := Read32(img.data, WrapAdd(off, 4));
        if info.None? {
          return ERR_MALFORMED;
        }
        rc := Relocate(img, dyn, resolve, offset.value, info.value);
        if rc != OK {
          return;
        }
        i := i + 1;
      }
      return OK;
    }

    /** All relocations of an image: `.rel.dyn`, then `.rel.plt`. */
    method ApplyRelocations(img: Image, resolve: Resolver) returns (rc: int)
      modifies this
      ensures Outcome(mem, rc) == Run(old(mem), ImageActions(img, resolve))
    {
      var parsed := ParseDynamic(img);
      if parsed.None? {
        return ERR_MALFORMED;
      }
      var dyn := parsed.value;
      RunAppend(mem, TableActions(img, dyn, resolve, dyn.rel, dyn.relSz),
                TableActions(img, dyn, resolve, dyn.jmprel, dyn.jmprelSz));
      rc := ApplyRelTable(img, dyn, resolve, dyn.rel, dyn.relSz);
      if rc != OK {
        return;
      }
      rc := ApplyRelTable(img, dyn, resolve, dyn.jmprel, dyn.jmprelSz);
    }

    /** Relocating an image a second time, with the same resolver, succeeds and leaves memory
        exactly as it was. */
    method RelocateTwice(img: Image, resolve: Resolver) returns (first: int, second: int)
      modifies this
      ensures first == OK ==> second == OK && Outcome(mem, OK) == Run(old(mem), ImageActions(img, resolve))
    {
      first := ApplyRelocations(img, resolve);
      if first == OK {
        RunTwice(old(mem), ImageActions(img, resolve));
      }
      second := ApplyRelocations(img, resolve);
    }
  }
}
