/** The process-wide vDSO entry table: the page `__libc_init_vdso` maps, the
    resolver `__libc_init_vdso_entries` that fills it in place, the change to
    read-only, and the two trampolines `clock_gettime` and `gettimeofday`
    that call through it. */
module Vdso {
  import opened Machine
  import opened Elf
  import opened Scan
  import opened Resolver

  /** `sizeof(vdso_entry)` on a 64-bit target: two pointers. */
  const ENTRY_SIZE: nat := 16
  const PAGE_SIZE: nat := 4096

  /** The entry table behind the global pointer `vdso_entries`. */
  class EntryTable {
    /** The architecture the library is built for (which names the slots hold). */
    const arch: Arch
    /** The addresses of the two system-call fallbacks. */
    const fallback: Fallback
    /** The mapped page, one `vdso_entry` per slot. */
    const entries: array<Entry>
    /** Set once the page has been made read-only; from then on no write
        reaches it. */
    ghost var readOnly: bool

    ghost predicate Valid()
      reads this
    {
      entries.Length == VDSO_END
    }

    /** The `mmap` of a fresh anonymous page: zero-filled and writable. A zero
        `vdso_entry` has a null name, shown here as the empty string. */
    constructor (arch: Arch, fallback: Fallback)
      ensures Valid() && fresh(entries) && !readOnly
      ensures this.arch == arch && this.fallback == fallback
      ensures forall j | 0 <= j < VDSO_END :: entries[j] == Entry("", 0)
    {
      this.arch := arch;
      this.fallback := fallback;
      entries := new Entry[VDSO_END](_ => Entry("", 0));
      readOnly := false;
    }

    /** `__libc_init_vdso_entries`: copy the template into the page, then walk
        the vDSO the auxiliary vector reports at `aux` and overwrite the
        function of every slot whose symbol it exports. */
    method InitEntries(aux: Addr, mem: Memory)
      requires Valid() && !readOnly
      requires Terminates(mem, aux)
      modifies entries
      ensures entries[..] == Resolve(arch, fallback, mem, aux)
    {
      CopyTemplate();

      // Find the symbol and string tables; on any early exit the template stays.
      var found := Locate(mem, aux);
      if found.Found? {
        // Match every symbol against both slots.
        MatchSymbols(mem, found.bias, found.strtab, found.symtab, found.count, Template(arch, fallback));
      }
    }

    /** The `memcpy` of `vdso_entries_template` into the page. */
    method CopyTemplate()
      requires Valid() && !readOnly
      modifies entries
      ensures entries[..] == Template(arch, fallback)
    {
      var t := Template(arch, fallback);
      entries[VDSO_CLOCK_GETTIME] := t[VDSO_CLOCK_GETTIME];
      entries[VDSO_GETTIMEOFDAY] := t[VDSO_GETTIMEOFDAY];
      assert entries[..] == t;
    }

    /** The last loop of the resolver: for every symbol and every slot, a
        slot whose name the symbol has takes the symbol's address. The
        slots start out as `template`. */
    method MatchSymbols(mem: Memory, bias: Addr, strtab: Addr, symtab: Addr, count: nat, ghost template: seq<Entry>)
      requires Valid() && !readOnly
      requires entries[..] == template
      modifies entries
      ensures entries[..] == [
        SlotAfter(template[VDSO_CLOCK_GETTIME], mem, bias, strtab, symtab, count),
        SlotAfter(template[VDSO_GETTIMEOFDAY], mem, bias, strtab, symtab, count)]
    {
      for i := 0 to count
        invariant forall j | 0 <= j < VDSO_END ::
          entries[j] == SlotAfter(template[j], mem, bias, strtab, symtab, i)
      {
        MatchSymbol(mem, bias, strtab, symtab, i, template);
      }
    }

    /** One turn of the outer loop: symbol `i` against every slot. */
    method MatchSymbol(mem: Memory, bias: Addr, strtab: Addr, symtab: Addr, i: nat, ghost template: seq<Entry>)
      requires Valid() && !readOnly && |template| == VDSO_END
      requires forall j | 0 <= j < VDSO_END ::
        entries[j] == SlotAfter(template[j], mem, bias, strtab, symtab, i)
      modifies entries
      ensures forall j | 0 <= j < VDSO_END ::
        entries[j] == SlotAfter(template[j], mem, bias, strtab, symtab, i + 1)
    {
      var sym := mem.symAt(Elem(symtab, i, SYM_SIZE));
      for j := 0 to VDSO_END
        invariant forall m | 0 <= m < j ::
          entries[m] == SlotAfter(template[m], mem, bias, strtab, symtab, i + 1)
        invariant forall m | j <= m < VDSO_END ::
          entries[m] == SlotAfter(template[m], mem, bias, strtab, symtab, i)
      {
        ghost var prev := entries[..];
        SlotAfterNext(template[j], mem, bias, strtab, symtab, i, entries[j]);
        if CStrEq(mem, entries[j].name, Add(strtab, sym.stName)) {
          entries[j] := entries[j].(fn := Add(bias, sym.stValue));
        }
        assert entries[j] == SlotAfter(template[j], mem, bias, strtab, symtab, i + 1);
        assert forall m | 0 <= m < VDSO_END && m != j :: entries[m] == prev[m];
      }
    }

    /** The `mprotect(PROT_READ)` of the page. */
    method Protect()
      requires Valid()
      modifies this
      ensures Valid() && readOnly
    {
      readOnly := true;
    }

    /** `clock_gettime`: call the function in slot `VDSO_CLOCK_GETTIME` with
        the caller's arguments and return its result. `call` stands for
        calling the code at an address. */
    method ClockGettime(clockId: i32, tp: Addr, call: (Addr, i32, Addr) -> i32) returns (r: i32)
      requires Valid() && readOnly
      ensures r == call(entries[VDSO_CLOCK_GETTIME].fn, clockId, tp)
    {
      var fn := entries[VDSO_CLOCK_GETTIME].fn;
      r := call(fn, clockId, tp);
    }

    /** `gettimeofday`: call the function in slot `VDSO_GETTIMEOFDAY` with the
        caller's arguments and return its result. */
    method Gettimeofday(tv: Addr, tz: Addr, call: (Addr, Addr, Addr) -> i32) returns (r: i32)
      requires Valid() && readOnly
      ensures r == call(entries[VDSO_GETTIMEOFDAY].fn, tv, tz)
    {
      var fn := entries[VDSO_GETTIMEOFDAY].fn;
      r := call(fn, tv, tz);
    }
  }

  /** The walk of `__libc_init_vdso_entries` over the vDSO at `aux`, up to
      the symbol loop: each early `return` of the resolver is one of the
      outcomes other than `Found`. */
  method Locate(mem: Memory, aux: Addr) returns (found: Discovery)
    requires Terminates(mem, aux)
    ensures found == Discover(mem, aux)
  {
    // Is there a vDSO?
    if aux == 0 {
      return NoImage;
    }
    var ehdr := mem.ehdrAt(aux);

    // The symbol count, from the section headers.
    var symbolCount := CountSymbols(mem, Add(aux, ehdr.shoff), ehdr.shnum);
    if symbolCount == 0 {
      return NoSymbols;
    }

    // Where is the dynamic section, and by how much is the image moved?
    var vdsoAddr, vdsoDyn := FindDynamic(mem, aux, Add(aux, ehdr.phoff), ehdr.phnum);
    if vdsoAddr == 0 || vdsoDyn == 0 {
      return NoDynamic;
    }

    // The string and symbol tables, from the dynamic section.
    var strtab, symtab := FindTables(mem, vdsoAddr, vdsoDyn);
    if strtab == 0 || symtab == 0 {
      return NoTables;
    }
    return Found(vdsoAddr, strtab, symtab, symbolCount);
  }

  /** The section header loop: `symbol_count` from the last `SHT_DYNSYM`
      header among the `shnum` headers at `shdrs`. */
  method CountSymbols(mem: Memory, shdrs: Addr, shnum: u16) returns (symbolCount: nat)
    ensures symbolCount == SymbolCountAfter(mem, shdrs, shnum)
  {
    symbolCount := 0;
    for i := 0 to shnum
      invariant symbolCount == SymbolCountAfter(mem, shdrs, i)
    {
      var shdr := mem.shdrAt(Elem(shdrs, i, SHDR_SIZE));
      SymbolCountAfterStep(mem, shdrs, i);
      if shdr.shType == SHT_DYNSYM {
        symbolCount := shdr.shSize / SYM_SIZE;
      }
    }
  }

  /** The program header loop: the load bias from the last `PT_LOAD` header
      and the dynamic section's address from the last `PT_DYNAMIC` one. */
  method FindDynamic(mem: Memory, aux: Addr, phdrs: Addr, phnum: u16) returns (vdsoAddr: Addr, vdsoDyn: Addr)
    ensures vdsoAddr == LoadBiasAfter(mem, aux, phdrs, phnum)
    ensures vdsoDyn == DynamicPtrAfter(mem, aux, phdrs, phnum)
  {
    vdsoAddr, vdsoDyn := 0, 0;
    for i := 0 to phnum
      invariant vdsoAddr == LoadBiasAfter(mem, aux, phdrs, i)
      invariant vdsoDyn == DynamicPtrAfter(mem, aux, phdrs, i)
    {
      var phdr := mem.phdrAt(Elem(phdrs, i, PHDR_SIZE));
      ProgramHeaderStep(mem, aux, phdrs, i);
      if phdr.pType == PT_DYNAMIC {
        vdsoDyn := Add(aux, phdr.pOffset);
      } else if phdr.pType == PT_LOAD {
        vdsoAddr := Sub(Add(aux, phdr.pOffset), phdr.pVaddr);
      }
    }
  }

  /** The walk over the dynamic section up to `DT_NULL`: the string and
      symbol tables from the last `DT_STRTAB` and `DT_SYMTAB` entries. */
  method FindTables(mem: Memory, bias: Addr, dyn: Addr) returns (strtab: Addr, symtab: Addr)
    requires DynamicEnd(mem, dyn).Some?
    ensures strtab == TableAddrAfter(mem, dyn, bias, DT_STRTAB, DynamicEnd(mem, dyn).value)
    ensures symtab == TableAddrAfter(mem, dyn, bias, DT_SYMTAB, DynamicEnd(mem, dyn).value)
  {
    ghost var end := DynamicEnd(mem, dyn).value;
    strtab, symtab := 0, 0;
    var d := dyn;
    ghost var k: nat := 0;
    while mem.dynAt(d).dTag != DT_NULL
      invariant k <= end
      invariant d == Elem(dyn, k, DYN_SIZE)
      invariant strtab == TableAddrAfter(mem, dyn, bias, DT_STRTAB, k)
      invariant symtab == TableAddrAfter(mem, dyn, bias, DT_SYMTAB, k)
      decreases end - k
    {
      var entry := mem.dynAt(d);
      assert entry == DynAt(mem, dyn, k);
      assert k != end by {
        assert !IsNullAt(mem, dyn)(k);
      }
      TableAddrAfterStep(mem, dyn, bias, DT_STRTAB, k);
      TableAddrAfterStep(mem, dyn, bias, DT_SYMTAB, k);
      if entry.dTag == DT_STRTAB {
        strtab := Add(bias, entry.dPtr);
      } else if entry.dTag == DT_SYMTAB {
        symtab := Add(bias, entry.dPtr);
      }
      ElemNext(dyn, k, DYN_SIZE);
      d := Add(d, DYN_SIZE);
      k := k + 1;
    }
    assert IsNullAt(mem, dyn)(k);
  }

  /** `__libc_init_vdso`: map the page, resolve into it, make it read-only. */
  method InitVdso(arch: Arch, fallback: Fallback, aux: Addr, mem: Memory) returns (table: EntryTable)
    requires Terminates(mem, aux)
    ensures fresh(table) && fresh(table.entries)
    ensures table.Valid() && table.readOnly
    ensures table.arch == arch && table.fallback == fallback
    ensures table.entries[..] == Resolve(arch, fallback, mem, aux)
  {
    // The table fits in the one page mapped for it.
    assert VDSO_END * ENTRY_SIZE <= PAGE_SIZE;
    table := new EntryTable(arch, fallback);
    table.InitEntries(aux, mem);
    table.Protect();
  }
}
