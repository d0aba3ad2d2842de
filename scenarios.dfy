/** A small synthetic vDSO, and what the resolver makes of it: the slot whose
    symbol it exports takes the image base plus the symbol's value, the
    other slot keeps its fallback, and of two symbols with the same name the
    later one wins. */
module Scenarios {
  import opened Machine
  import opened Elf
  import opened Scan
  import opened Resolver

  /** Where the synthetic image is mapped: a page-aligned address in the
      upper half of the user address space, as the kernel picks for a vDSO. */
  const BASE: Addr := 0x7fff_f7fc_1000

  // Offsets from the image base of the parts of the synthetic image.
  const PHOFF: u64 := 0x40
  const SHOFF: u64 := 0x100
  const DYNOFF: u64 := 0x200
  const STROFF: u64 := 0x300
  const SYMOFF: u64 := 0x400

  /** Byte `k` of `s`, 0 past its end (the string's terminator). */
  function CharAt(s: string, k: int): u8
  {
    if 0 <= k < |s| && s[k] as int < 0x100 then s[k] as int else 0
  }

  /** An image at `BASE` whose one loadable segment maps virtual address 0
      to file offset 0 (so the load bias is `BASE`), with a dynamic section
      naming a string table and a symbol table, and `count` symbols (1 or 2),
      all named `ClockGettimeSymbol(arch)`: the first with value `first`,
      any other with value `second`. */
  function Synthetic(arch: Arch, count: nat, first: u64, second: u64): Memory
    requires 1 <= count <= 2
  {
    var name := ClockGettimeSymbol(arch);
    Memory(
      (a: Addr) => Ehdr(PHOFF, SHOFF, 2, 1),
      (a: Addr) => Shdr(SHT_DYNSYM, if count == 2 then 2 * SYM_SIZE else SYM_SIZE),
      (a: Addr) => if a == BASE + PHOFF then Phdr(PT_LOAD, 0, 0) else Phdr(PT_DYNAMIC, DYNOFF, DYNOFF),
      (a: Addr) =>
        if a == BASE + DYNOFF then Dyn(DT_STRTAB, STROFF)
        else if a == BASE + DYNOFF + DYN_SIZE then Dyn(DT_SYMTAB, SYMOFF)
        else Dyn(DT_NULL, 0),
      (a: Addr) => if a == BASE + SYMOFF then Sym(0, first) else Sym(0, second),
      (a: Addr) => CharAt(name, a - (BASE + STROFF)))
  }

  /** What the resolver reads from an image laid out like `Synthetic`:
      whatever else memory holds, these records sit at these addresses and
      the string table starts with the clock slot's name. */
  ghost predicate Layout(mem: Memory, arch: Arch, count: nat, first: u64, second: u64)
  {
    && FileHeaders(mem, count)
    && DynamicSection(mem)
    && SymbolTable(mem, count, first, second)
    && StoredAt(mem, ClockGettimeSymbol(arch), BASE + STROFF)
  }

  /** The ELF header, the one section header and the two program headers. */
  ghost predicate FileHeaders(mem: Memory, count: nat)
  {
    && mem.ehdrAt(BASE) == Ehdr(PHOFF, SHOFF, 2, 1)
    && mem.shdrAt(BASE + SHOFF) == Shdr(SHT_DYNSYM, if count == 2 then 2 * SYM_SIZE else SYM_SIZE)
    && mem.phdrAt(BASE + PHOFF) == Phdr(PT_LOAD, 0, 0)
    && mem.phdrAt(BASE + PHOFF + PHDR_SIZE) == Phdr(PT_DYNAMIC, DYNOFF, DYNOFF)
  }

  /** `DT_STRTAB`, `DT_SYMTAB`, then `DT_NULL`. */
  ghost predicate DynamicSection(mem: Memory)
  {
    && mem.dynAt(BASE + DYNOFF) == Dyn(DT_STRTAB, STROFF)
    && mem.dynAt(BASE + DYNOFF + DYN_SIZE) == Dyn(DT_SYMTAB, SYMOFF)
    && mem.dynAt(BASE + DYNOFF + 2 * DYN_SIZE).dTag == DT_NULL
  }

  /** `count` symbols, all with `st_name` 0. */
  ghost predicate SymbolTable(mem: Memory, count: nat, first: u64, second: u64)
  {
    && mem.symAt(BASE + SYMOFF) == Sym(0, first)
    && (count == 2 ==> mem.symAt(BASE + SYMOFF + SYM_SIZE) == Sym(0, second))
  }

  /** `Synthetic` has that layout, so images with it exist. */
  lemma SyntheticHasLayout(arch: Arch, count: nat, first: u64, second: u64)
    requires 1 <= count <= 2
    ensures Layout(Synthetic(arch, count, first, second), arch, count, first, second)
  {
    var mem := Synthetic(arch, count, first, second);
    var name := ClockGettimeSymbol(arch);
    var strtab := BASE + STROFF;
    forall k | 0 <= k <= |name| ensures mem.byteAt(Add(strtab, k)) == CharAt(name, k) {
      assert Add(strtab, k) - (BASE + STROFF) == k;
    }
    forall k | 0 <= k < |name| ensures CharAt(name, k) == name[k] as int {
      assert 0x20 < name[k] as int < 0x7f;
    }
  }

  /** The one section header is `SHT_DYNSYM` and sized for `count` symbols. */
  lemma HeadersSymbolCount(mem: Memory, count: nat)
    requires 1 <= count <= 2
    requires FileHeaders(mem, count)
    ensures SymbolCount(mem, BASE) == count
  {
    assert IsLast(1, IsDynsym(mem, ShdrTable(mem, BASE)), 0);
  }

  /** Header 0 is the `PT_LOAD` one, which makes the load bias `BASE` ... */
  lemma HeadersLoadBias(mem: Memory, count: nat)
    requires FileHeaders(mem, count)
    ensures LoadBias(mem, BASE) == BASE
  {
    var isLoad := IsLoad(mem, PhdrTable(mem, BASE));
    assert isLoad(0) && !isLoad(1);
    assert IsLast(2, isLoad, 0);
  }

  /** ... and header 1 the `PT_DYNAMIC` one. */
  lemma HeadersDynamicPtr(mem: Memory, count: nat)
    requires FileHeaders(mem, count)
    ensures DynamicPtr(mem, BASE) == BASE + DYNOFF
  {
    var isDynamic := IsDynamic(mem, PhdrTable(mem, BASE));
    assert isDynamic(1);
    assert IsLast(2, isDynamic, 1);
  }

  /** The dynamic section ends at its third entry ... */
  lemma HeadersDynamicEnd(mem: Memory)
    requires DynamicSection(mem)
    ensures DynamicEnd(mem, BASE + DYNOFF) == Some(2)
  {
    var dyn := BASE + DYNOFF;
    ElemNoWrap(dyn, 0, DYN_SIZE);
    ElemNoWrap(dyn, 1, DYN_SIZE);
    ElemNoWrap(dyn, 2, DYN_SIZE);
    var isNull := IsNullAt(mem, dyn);
    assert isNull(2) && !isNull(0) && !isNull(1);
    assert IsFirst(DYN_CYCLE, isNull, 2);
    FirstBelowIs(DYN_CYCLE, isNull, 2);
  }

  /** ... after a `DT_STRTAB` and a `DT_SYMTAB` entry. */
  lemma HeadersTables(mem: Memory)
    requires DynamicSection(mem)
    ensures TableAddrAfter(mem, BASE + DYNOFF, BASE, DT_STRTAB, 2) == BASE + STROFF
    ensures TableAddrAfter(mem, BASE + DYNOFF, BASE, DT_SYMTAB, 2) == BASE + SYMOFF
  {
    var dyn := BASE + DYNOFF;
    ElemNoWrap(dyn, 0, DYN_SIZE);
    ElemNoWrap(dyn, 1, DYN_SIZE);
    assert IsLast(2, HasTag(mem, dyn, DT_STRTAB), 0);
    assert IsLast(2, HasTag(mem, dyn, DT_SYMTAB), 1);
  }

  /** The walk over such an image reaches the symbol loop with the expected
      tables. */
  lemma HeadersAreFound(mem: Memory, count: nat)
    requires 1 <= count <= 2
    requires FileHeaders(mem, count) && DynamicSection(mem)
    ensures Terminates(mem, BASE)
    ensures Discover(mem, BASE) == Found(BASE, BASE + STROFF, BASE + SYMOFF, count)
  {
    HeadersSymbolCount(mem, count);
    HeadersLoadBias(mem, count);
    HeadersDynamicPtr(mem, count);
    HeadersDynamicEnd(mem);
    HeadersTables(mem);
    DiscoverFound(mem, BASE, count, BASE, BASE + DYNOFF, 2, BASE + STROFF, BASE + SYMOFF);
  }

  /** Every symbol of such an image has `st_name` 0: its name is the string
      at the start of the string table ... */
  lemma StoredNameMatches(mem: Memory, count: nat, first: u64, second: u64, name: string, i: nat)
    requires SymbolTable(mem, count, first, second)
    requires |name| < WORD && '\0' !in name
    requires StoredAt(mem, name, BASE + STROFF)
    requires i < count <= 2
    ensures NameMatches(mem, BASE + STROFF, BASE + SYMOFF, name)(i)
  {
    CStrEqIsStored(mem, name, BASE + STROFF);
    assert Add(BASE + STROFF, SymAt(mem, BASE + SYMOFF, i).stName) == BASE + STROFF;
  }

  /** Two names that differ at a position inside both are not both stored
      at the same place. */
  lemma OtherNameNotStored(mem: Memory, stored: string, other: string, p: Addr, k: nat)
    requires |stored| < WORD && |other| < WORD
    requires StoredAt(mem, stored, p)
    requires k < |stored| && k < |other| && stored[k] != other[k]
    ensures !StoredAt(mem, other, p)
  {
    assert mem.byteAt(Add(p, k)) == stored[k] as int;
  }

  /** Where the clock name is stored, the time-of-day name is not: the two
      part at position 9 on AArch64 and 7 on x86-64. */
  lemma DayNameNotStored(mem: Memory, arch: Arch, p: Addr)
    requires StoredAt(mem, ClockGettimeSymbol(arch), p)
    ensures !CStrEq(mem, GettimeofdaySymbol(arch), p)
  {
    var clock, day := ClockGettimeSymbol(arch), GettimeofdaySymbol(arch);
    var k := if arch.AArch64? then 9 else 7;
    assert k < |clock| && k < |day| && clock[k] != day[k];
    OtherNameNotStored(mem, clock, day, p, k);
    CStrEqIsStored(mem, day, p);
  }

  /** ... and no other: the time-of-day name is not the clock name. */
  lemma DayNameAbsent(mem: Memory, arch: Arch, count: nat, first: u64, second: u64, i: nat)
    requires Layout(mem, arch, count, first, second)
    requires i < count <= 2
    ensures !NameMatches(mem, BASE + STROFF, BASE + SYMOFF, GettimeofdaySymbol(arch))(i)
  {
    DayNameNotStored(mem, arch, BASE + STROFF);
    assert Add(BASE + STROFF, SymAt(mem, BASE + SYMOFF, i).stName) == BASE + STROFF;
  }

  /** One exported clock symbol of value `value` in an image at `BASE` whose
      loadable segment maps virtual address 0 to offset 0: the clock slot
      resolves to `BASE + value` ... */
  lemma OneSymbolResolvesClockSlot(mem: Memory, arch: Arch, fallback: Fallback, value: u64)
    requires Layout(mem, arch, 1, value, value)
    ensures Terminates(mem, BASE)
    ensures Resolve(arch, fallback, mem, BASE)[VDSO_CLOCK_GETTIME]
         == Entry(ClockGettimeSymbol(arch), Add(BASE, value))
  {
    HeadersAreFound(mem, 1);
    var d := Discover(mem, BASE);
    var t := Template(arch, fallback);
    assert t[VDSO_CLOCK_GETTIME].name == ClockGettimeSymbol(arch);
    assert NameMatches(mem, d.strtab, d.symtab, t[VDSO_CLOCK_GETTIME].name)(0) by {
      StoredNameMatches(mem, 1, value, value, ClockGettimeSymbol(arch), 0);
    }
    assert SymAt(mem, d.symtab, 0).stValue == value by {
      ElemNoWrap(BASE + SYMOFF, 0, SYM_SIZE);
    }
    LastSymbolMatched(arch, fallback, mem, BASE, VDSO_CLOCK_GETTIME);
  }

  /** ... and the other slot keeps its fallback. */
  lemma OneSymbolKeepsDaySlot(mem: Memory, arch: Arch, fallback: Fallback, value: u64)
    requires Layout(mem, arch, 1, value, value)
    ensures Terminates(mem, BASE)
    ensures Resolve(arch, fallback, mem, BASE)[VDSO_GETTIMEOFDAY]
         == Template(arch, fallback)[VDSO_GETTIMEOFDAY]
  {
    HeadersAreFound(mem, 1);
    DayNameAbsent(mem, arch, 1, value, value, 0);
    OnlySymbolUnmatched(arch, fallback, mem, BASE, VDSO_GETTIMEOFDAY);
  }

  /** Two clock symbols of the same name: the one later in the symbol table
      wins. */
  lemma LaterDuplicateWins(mem: Memory, arch: Arch, fallback: Fallback, first: u64, second: u64)
    requires Layout(mem, arch, 2, first, second)
    ensures Terminates(mem, BASE)
    ensures Resolve(arch, fallback, mem, BASE)[VDSO_CLOCK_GETTIME].fn == Add(BASE, second)
  {
    HeadersAreFound(mem, 2);
    var d := Discover(mem, BASE);
    var t := Template(arch, fallback);
    assert t[VDSO_CLOCK_GETTIME].name == ClockGettimeSymbol(arch);
    assert NameMatches(mem, d.strtab, d.symtab, t[VDSO_CLOCK_GETTIME].name)(1) by {
      StoredNameMatches(mem, 2, first, second, ClockGettimeSymbol(arch), 1);
    }
    assert SymAt(mem, d.symtab, 1).stValue == second by {
      ElemNoWrap(BASE + SYMOFF, 1, SYM_SIZE);
    }
    LastSymbolMatched(arch, fallback, mem, BASE, VDSO_CLOCK_GETTIME);
  }

  /** The image is trusted: a symbol value that wraps the bias round to 0
      leaves a null function in the slot, although the fallback it replaced
      was not null. */
  lemma ResolvedSlotCanBeNull(mem: Memory, arch: Arch, fallback: Fallback)
    requires Layout(mem, arch, 1, WORD - BASE, WORD - BASE)
    ensures Terminates(mem, BASE)
    ensures Resolve(arch, fallback, mem, BASE)[VDSO_CLOCK_GETTIME].fn == 0
    ensures Template(arch, fallback)[VDSO_CLOCK_GETTIME].fn != 0
  {
    OneSymbolResolvesClockSlot(mem, arch, fallback, WORD - BASE);
  }
}
