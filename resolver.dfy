/** What `__libc_init_vdso_entries` computes, as functions of the address
    the auxiliary vector reports for the vDSO (`AT_SYSINFO_EHDR`) and of the
    memory found there: the two-slot entry table, its template, the four
    "last one wins" scans over the vDSO image and the early exits between
    them. The imperative resolver in module Vdso is proved equal to
    `Resolve`. */
module Resolver {
  import opened Machine
  import opened Elf
  import opened Scan

  // The slot enumeration; VDSO_END is the number of slots.
  const VDSO_CLOCK_GETTIME: nat := 0
  const VDSO_GETTIMEOFDAY: nat := 1
  const VDSO_END: nat := 2

  /** The 64-bit architectures on which the resolver is compiled in; they
      export the two time functions under different names. */
  datatype Arch = AArch64 | X86_64

  /** A symbol name: visible (graphic) ASCII, no space, so no NUL inside it. */
  predicate IsSymbolName(name: string)
  {
    forall k | 0 <= k < |name| :: 0x20 < name[k] as int < 0x7f
  }

  function ClockGettimeSymbol(arch: Arch): (name: string)
    ensures IsSymbolName(name) && '\0' !in name
  {
    match arch
    case AArch64 => "__kernel_clock_gettime"
    case X86_64 => "__vdso_clock_gettime"
  }

  function GettimeofdaySymbol(arch: Arch): (name: string)
    ensures IsSymbolName(name) && '\0' !in name
    ensures name != ClockGettimeSymbol(arch)
  {
    match arch
    case AArch64 => "__kernel_gettimeofday"
    case X86_64 => "__vdso_gettimeofday"
  }

  /** The address of a function that exists in the program: never null. */
  type FnAddr = a: Addr | a != 0 witness 1

  /** The addresses of the system-call wrappers `__clock_gettime` and
      `__gettimeofday`, which serve when the vDSO does not. */
  datatype Fallback = Fallback(clockGettime: FnAddr, gettimeofday: FnAddr)

  /** `struct vdso_entry`: the symbol to look for and the function to call. */
  datatype Entry = Entry(name: string, fn: Addr)

  /** `vdso_entries_template`: each slot names its vDSO symbol and holds its
      fallback. */
  function Template(arch: Arch, fallback: Fallback): (t: seq<Entry>)
    ensures |t| == VDSO_END
    ensures t[VDSO_CLOCK_GETTIME].fn != 0 && t[VDSO_GETTIMEOFDAY].fn != 0
    ensures '\0' !in t[VDSO_CLOCK_GETTIME].name && '\0' !in t[VDSO_GETTIMEOFDAY].name
    ensures t[VDSO_CLOCK_GETTIME].name != t[VDSO_GETTIMEOFDAY].name
  {
    [Entry(ClockGettimeSymbol(arch), fallback.clockGettime),
     Entry(GettimeofdaySymbol(arch), fallback.gettimeofday)]
  }

  // ---------------------------------------------------------------- headers

  function Header(mem: Memory, aux: Addr): Ehdr
  {
    mem.ehdrAt(aux)
  }

  /** Where the section header table starts (`vdso_shdr`). */
  function ShdrTable(mem: Memory, aux: Addr): Addr
  {
    Add(aux, Header(mem, aux).shoff)
  }

  /** Where the program header table starts (`vdso_phdr`). */
  function PhdrTable(mem: Memory, aux: Addr): Addr
  {
    Add(aux, Header(mem, aux).phoff)
  }

  function ShdrAt(mem: Memory, shdrs: Addr, i: nat): Shdr
  {
    mem.shdrAt(Elem(shdrs, i, SHDR_SIZE))
  }

  function PhdrAt(mem: Memory, phdrs: Addr, i: nat): Phdr
  {
    mem.phdrAt(Elem(phdrs, i, PHDR_SIZE))
  }

  // ----------------------------------------------------- symbol count scan

  function IsDynsym(mem: Memory, shdrs: Addr): nat -> bool
  {
    (i: nat) => ShdrAt(mem, shdrs, i).shType == SHT_DYNSYM
  }

  /** `symbol_count` once the section header loop has examined headers
      `0 .. n - 1`: the byte size over `sizeof(Elf64_Sym)` of the last
      `SHT_DYNSYM` header, 0 when there is none. */
  function SymbolCountAfter(mem: Memory, shdrs: Addr, n: nat): (count: nat)
    ensures NoneBelow(n, IsDynsym(mem, shdrs)) ==> count == 0
    ensures forall i | IsLast(n, IsDynsym(mem, shdrs), i) ::
      count == ShdrAt(mem, shdrs, i).shSize / SYM_SIZE
  {
    match LastBelow(n, IsDynsym(mem, shdrs))
    case None => 0
    case Some(i) => ShdrAt(mem, shdrs, i).shSize / SYM_SIZE
  }

  /** One more section header examined. */
  lemma SymbolCountAfterStep(mem: Memory, shdrs: Addr, n: nat)
    ensures SymbolCountAfter(mem, shdrs, n + 1) ==
      if IsDynsym(mem, shdrs)(n) then ShdrAt(mem, shdrs, n).shSize / SYM_SIZE
      else SymbolCountAfter(mem, shdrs, n)
  {
    LastBelowStep(n, IsDynsym(mem, shdrs));
  }

  /** `symbol_count` after the whole loop over `e_shnum` headers. */
  function SymbolCount(mem: Memory, aux: Addr): nat
  {
    SymbolCountAfter(mem, ShdrTable(mem, aux), Header(mem, aux).shnum)
  }

  // ------------------------------------------------- program header scan

  function IsLoad(mem: Memory, phdrs: Addr): nat -> bool
  {
    (i: nat) => PhdrAt(mem, phdrs, i).pType == PT_LOAD
  }

  function IsDynamic(mem: Memory, phdrs: Addr): nat -> bool
  {
    (i: nat) => PhdrAt(mem, phdrs, i).pType == PT_DYNAMIC
  }

  /** `vdso_addr` (the load bias) once the program header loop has examined
      headers `0 .. n - 1`: computed from the last `PT_LOAD` header, 0 when
      there is none. */
  function LoadBiasAfter(mem: Memory, aux: Addr, phdrs: Addr, n: nat): (bias: Addr)
    ensures NoneBelow(n, IsLoad(mem, phdrs)) ==> bias == 0
    ensures forall i | IsLast(n, IsLoad(mem, phdrs), i) ::
      bias == Sub(Add(aux, PhdrAt(mem, phdrs, i).pOffset), PhdrAt(mem, phdrs, i).pVaddr)
  {
    match LastBelow(n, IsLoad(mem, phdrs))
    case None => 0
    case Some(i) => Sub(Add(aux, PhdrAt(mem, phdrs, i).pOffset), PhdrAt(mem, phdrs, i).pVaddr)
  }

  /** `vdso_dyn` once the program header loop has examined headers
      `0 .. n - 1`: the image base plus the file offset of the last
      `PT_DYNAMIC` header, null when there is none. */
  function DynamicPtrAfter(mem: Memory, aux: Addr, phdrs: Addr, n: nat): (dyn: Addr)
    ensures NoneBelow(n, IsDynamic(mem, phdrs)) ==> dyn == 0
    ensures forall i | IsLast(n, IsDynamic(mem, phdrs), i) ::
      dyn == Add(aux, PhdrAt(mem, phdrs, i).pOffset)
  {
    match LastBelow(n, IsDynamic(mem, phdrs))
    case None => 0
    case Some(i) => Add(aux, PhdrAt(mem, phdrs, i).pOffset)
  }

  /** One more program header examined. */
  lemma ProgramHeaderStep(mem: Memory, aux: Addr, phdrs: Addr, n: nat)
    ensures LoadBiasAfter(mem, aux, phdrs, n + 1) ==
      if IsLoad(mem, phdrs)(n)
      then Sub(Add(aux, PhdrAt(mem, phdrs, n).pOffset), PhdrAt(mem, phdrs, n).pVaddr)
      else LoadBiasAfter(mem, aux, phdrs, n)
    ensures DynamicPtrAfter(mem, aux, phdrs, n + 1) ==
      if IsDynamic(mem, phdrs)(n) then Add(aux, PhdrAt(mem, phdrs, n).pOffset)
      else DynamicPtrAfter(mem, aux, phdrs, n)
  {
    LastBelowStep(n, IsLoad(mem, phdrs));
    LastBelowStep(n, IsDynamic(mem, phdrs));
  }

  function LoadBias(mem: Memory, aux: Addr): Addr
  {
    LoadBiasAfter(mem, aux, PhdrTable(mem, aux), Header(mem, aux).phnum)
  }

  function DynamicPtr(mem: Memory, aux: Addr): Addr
  {
    DynamicPtrAfter(mem, aux, PhdrTable(mem, aux), Header(mem, aux).phnum)
  }

  // ------------------------------------------------------- dynamic section

  /** The number of `Elf64_Dyn` entries after which `++d` has gone once
      around the address space (2^60). */
  const DYN_CYCLE: nat := WORD / DYN_SIZE

  function DynAt(mem: Memory, dyn: Addr, k: nat): Dyn
  {
    mem.dynAt(Elem(dyn, k, DYN_SIZE))
  }

  function IsNullAt(mem: Memory, dyn: Addr): nat -> bool
  {
    (k: nat) => DynAt(mem, dyn, k).dTag == DT_NULL
  }

  function HasTag(mem: Memory, dyn: Addr, tag: i64): nat -> bool
  {
    (k: nat) => DynAt(mem, dyn, k).dTag == tag
  }

  /** The index of the `DT_NULL` entry that ends the walk over the dynamic
      section, if one comes before the pointer wraps around. */
  function DynamicEnd(mem: Memory, dyn: Addr): (end: Option<nat>)
    ensures end.Some? ==> IsFirst(DYN_CYCLE, IsNullAt(mem, dyn), end.value)
    ensures end.None? ==> NoneBelow(DYN_CYCLE, IsNullAt(mem, dyn))
  {
    FirstBelow(DYN_CYCLE, IsNullAt(mem, dyn))
  }

  /** `strtab` or `symtab` (by `tag`) once the dynamic walk has examined
      entries `0 .. n - 1`: the load bias plus `d_ptr` of the last entry with
      that tag, null when there is none. */
  function TableAddrAfter(mem: Memory, dyn: Addr, bias: Addr, tag: i64, n: nat): (p: Addr)
    ensures NoneBelow(n, HasTag(mem, dyn, tag)) ==> p == 0
    ensures forall k | IsLast(n, HasTag(mem, dyn, tag), k) ::
      p == Add(bias, DynAt(mem, dyn, k).dPtr)
  {
    match LastBelow(n, HasTag(mem, dyn, tag))
    case None => 0
    case Some(k) => Add(bias, DynAt(mem, dyn, k).dPtr)
  }

  /** One more dynamic entry examined. */
  lemma TableAddrAfterStep(mem: Memory, dyn: Addr, bias: Addr, tag: i64, n: nat)
    ensures TableAddrAfter(mem, dyn, bias, tag, n + 1) ==
      if HasTag(mem, dyn, tag)(n) then Add(bias, DynAt(mem, dyn, n).dPtr)
      else TableAddrAfter(mem, dyn, bias, tag, n)
  {
    LastBelowStep(n, HasTag(mem, dyn, tag));
  }

  // ----------------------------------------------------------- discovery

  /** How far the walk over the vDSO gets: one of the early exits, or the
      four values the symbol scan runs with. */
  datatype Discovery =
    | NoImage                       // AT_SYSINFO_EHDR is 0
    | NoSymbols                     // symbol_count is 0
    | NoDynamic                     // vdso_addr is 0 or vdso_dyn is null
    | Unterminated                  // no DT_NULL: the dynamic walk never ends
    | NoTables                      // strtab or symtab is null
    | Found(bias: Addr, strtab: Addr, symtab: Addr, count: nat)

  function Discover(mem: Memory, aux: Addr): Discovery
  {
    if aux == 0 then NoImage
    else
      var count := SymbolCount(mem, aux);
      if count == 0 then NoSymbols
      else
        var bias := LoadBias(mem, aux);
        var dyn := DynamicPtr(mem, aux);
        if bias == 0 || dyn == 0 then NoDynamic
        else match DynamicEnd(mem, dyn)
          case None => Unterminated
          case Some(end) =>
            var strtab := TableAddrAfter(mem, dyn, bias, DT_STRTAB, end);
            var symtab := TableAddrAfter(mem, dyn, bias, DT_SYMTAB, end);
            if strtab == 0 || symtab == 0 then NoTables
            else Found(bias, strtab, symtab, count)
  }

  /** The walk reaches the symbol scan when every stage finds what it needs. */
  lemma DiscoverFound(mem: Memory, aux: Addr, count: nat, bias: Addr, dyn: Addr, end: nat, strtab: Addr, symtab: Addr)
    requires aux != 0
    requires SymbolCount(mem, aux) == count && count != 0
    requires LoadBias(mem, aux) == bias && bias != 0
    requires DynamicPtr(mem, aux) == dyn && dyn != 0
    requires DynamicEnd(mem, dyn) == Some(end)
    requires TableAddrAfter(mem, dyn, bias, DT_STRTAB, end) == strtab && strtab != 0
    requires TableAddrAfter(mem, dyn, bias, DT_SYMTAB, end) == symtab && symtab != 0
    ensures Terminates(mem, aux)
    ensures Discover(mem, aux) == Found(bias, strtab, symtab, count)
  {
  }

  /** The resolver returns: the image does not send the dynamic walk round
      the address space forever. */
  predicate Terminates(mem: Memory, aux: Addr)
  {
    !Discover(mem, aux).Unterminated?
  }

  // --------------------------------------------------------- symbol scan

  function SymAt(mem: Memory, symtab: Addr, i: nat): Sym
  {
    mem.symAt(Elem(symtab, i, SYM_SIZE))
  }

  /** Symbol `i`'s name, read from the string table, is `name`. */
  function NameMatches(mem: Memory, strtab: Addr, symtab: Addr, name: string): nat -> bool
  {
    (i: nat) => CStrEq(mem, name, Add(strtab, SymAt(mem, symtab, i).stName))
  }

  /** A slot once the symbol scan has examined symbols `0 .. n - 1`: its
      name never changes; its function is the load bias plus the value of
      the last symbol with that name, and stays as it was when none has it. */
  function SlotAfter(e: Entry, mem: Memory, bias: Addr, strtab: Addr, symtab: Addr, n: nat): (r: Entry)
    ensures r.name == e.name
    ensures NoneBelow(n, NameMatches(mem, strtab, symtab, e.name)) ==> r == e
    ensures forall i | IsLast(n, NameMatches(mem, strtab, symtab, e.name), i) ::
      r.fn == Add(bias, SymAt(mem, symtab, i).stValue)
  {
    match LastBelow(n, NameMatches(mem, strtab, symtab, e.name))
    case None => e
    case Some(i) => e.(fn := Add(bias, SymAt(mem, symtab, i).stValue))
  }

  /** One more symbol examined: a slot whose name it has takes its address,
      any other slot stays as it was. */
  lemma SlotAfterStep(e: Entry, mem: Memory, bias: Addr, strtab: Addr, symtab: Addr, n: nat)
    ensures SlotAfter(e, mem, bias, strtab, symtab, n + 1) ==
      if NameMatches(mem, strtab, symtab, e.name)(n)
      then SlotAfter(e, mem, bias, strtab, symtab, n).(fn := Add(bias, SymAt(mem, symtab, n).stValue))
      else SlotAfter(e, mem, bias, strtab, symtab, n)
  {
    LastBelowStep(n, NameMatches(mem, strtab, symtab, e.name));
  }

  /** The same step seen from the slot as it stands: `strcmp` of its name
      against symbol `n`'s name decides whether its function is replaced. */
  lemma SlotAfterNext(e: Entry, mem: Memory, bias: Addr, strtab: Addr, symtab: Addr, n: nat, cur: Entry)
    requires cur == SlotAfter(e, mem, bias, strtab, symtab, n)
    ensures SlotAfter(e, mem, bias, strtab, symtab, n + 1) ==
      if CStrEq(mem, cur.name, Add(strtab, SymAt(mem, symtab, n).stName))
      then cur.(fn := Add(bias, SymAt(mem, symtab, n).stValue))
      else cur
  {
    SlotAfterStep(e, mem, bias, strtab, symtab, n);
  }

  /** The entry table `__libc_init_vdso_entries` leaves behind. */
  function Resolve(arch: Arch, fallback: Fallback, mem: Memory, aux: Addr): (table: seq<Entry>)
    requires Terminates(mem, aux)
  {
    var t := Template(arch, fallback);
    match Discover(mem, aux)
    case Found(bias, strtab, symtab, count) =>
      [SlotAfter(t[VDSO_CLOCK_GETTIME], mem, bias, strtab, symtab, count),
       SlotAfter(t[VDSO_GETTIMEOFDAY], mem, bias, strtab, symtab, count)]
    case _ => t
  }

  // ------------------------------------------------------------ properties

  /** Without a `DT_NULL` among the first 2^60 entries there is none at all,
      because the entry pointer comes back round to the same entries. The
      walk over the dynamic section then does not return: in a process it
      runs off the mapped image, and here, where all memory is readable, it
      loops forever. That is why `Resolve` requires `Terminates`. */
  lemma DynamicWalkNeverEnds(mem: Memory, dyn: Addr)
    requires DynamicEnd(mem, dyn).None?
    ensures forall k: nat :: !IsNullAt(mem, dyn)(k)
  {
    forall k: nat ensures !IsNullAt(mem, dyn)(k) {
      ElemWraps(dyn, k, DYN_SIZE);
      assert !IsNullAt(mem, dyn)(k % DYN_CYCLE);
    }
  }

  /** The resolver keeps the shape of the table: two slots, each with the
      name the template gives it. Only functions are ever written. */
  lemma ResolveKeepsNames(arch: Arch, fallback: Fallback, mem: Memory, aux: Addr)
    requires Terminates(mem, aux)
    ensures |Resolve(arch, fallback, mem, aux)| == VDSO_END
    ensures forall j | 0 <= j < VDSO_END ::
      Resolve(arch, fallback, mem, aux)[j].name == Template(arch, fallback)[j].name
  {
  }

  /** Every early exit (no vDSO, no symbols, no load bias or dynamic
      section, no string or symbol table) leaves the template in place. */
  lemma EarlyExitKeepsTemplate(arch: Arch, fallback: Fallback, mem: Memory, aux: Addr)
    requires Terminates(mem, aux)
    requires
      || aux == 0
      || SymbolCount(mem, aux) == 0
      || LoadBias(mem, aux) == 0
      || DynamicPtr(mem, aux) == 0
      || (var dyn := DynamicPtr(mem, aux);
          DynamicEnd(mem, dyn).Some? &&
          (|| TableAddrAfter(mem, dyn, LoadBias(mem, aux), DT_STRTAB, DynamicEnd(mem, dyn).value) == 0
           || TableAddrAfter(mem, dyn, LoadBias(mem, aux), DT_SYMTAB, DynamicEnd(mem, dyn).value) == 0))
    ensures Resolve(arch, fallback, mem, aux) == Template(arch, fallback)
  {
  }

  /** Slot `j` ends up with the load bias plus the value of the highest
      symbol below the symbol count whose name is the slot's: a later
      symbol of the same name overrides an earlier one. */
  lemma ResolvedSlotIsLastMatch(arch: Arch, fallback: Fallback, mem: Memory, aux: Addr, j: nat, i: nat)
    requires Terminates(mem, aux) && Discover(mem, aux).Found?
    requires j < VDSO_END
    requires
      var d := Discover(mem, aux);
      IsLast(d.count, NameMatches(mem, d.strtab, d.symtab, Template(arch, fallback)[j].name), i)
    ensures
      var d := Discover(mem, aux);
      Resolve(arch, fallback, mem, aux)[j] ==
        Entry(Template(arch, fallback)[j].name, Add(d.bias, SymAt(mem, d.symtab, i).stValue))
  {
  }

  /** A slot whose symbol the vDSO does not export keeps its fallback. */
  lemma UnmatchedSlotKeepsFallback(arch: Arch, fallback: Fallback, mem: Memory, aux: Addr, j: nat)
    requires Terminates(mem, aux) && Discover(mem, aux).Found?
    requires j < VDSO_END
    requires
      var d := Discover(mem, aux);
      NoneBelow(d.count, NameMatches(mem, d.strtab, d.symtab, Template(arch, fallback)[j].name))
    ensures Resolve(arch, fallback, mem, aux)[j] == Template(arch, fallback)[j]
  {
  }

  /** A slot whose name the last symbol of the table has takes that
      symbol's address, whatever came before. */
  lemma LastSymbolMatched(arch: Arch, fallback: Fallback, mem: Memory, aux: Addr, j: nat)
    requires Terminates(mem, aux) && Discover(mem, aux).Found? && Discover(mem, aux).count > 0
    requires j < VDSO_END
    requires
      var d := Discover(mem, aux);
      NameMatches(mem, d.strtab, d.symtab, Template(arch, fallback)[j].name)(d.count - 1)
    ensures
      var d := Discover(mem, aux);
      Resolve(arch, fallback, mem, aux)[j] ==
        Entry(Template(arch, fallback)[j].name, Add(d.bias, SymAt(mem, d.symtab, d.count - 1).stValue))
  {
    var d := Discover(mem, aux);
    ResolvedSlotIsLastMatch(arch, fallback, mem, aux, j, d.count - 1);
  }

  /** With a single symbol, a slot whose name the symbol lacks keeps its
      fallback. */
  lemma OnlySymbolUnmatched(arch: Arch, fallback: Fallback, mem: Memory, aux: Addr, j: nat)
    requires Terminates(mem, aux) && Discover(mem, aux).Found? && Discover(mem, aux).count == 1
    requires j < VDSO_END
    requires
      var d := Discover(mem, aux);
      !NameMatches(mem, d.strtab, d.symtab, Template(arch, fallback)[j].name)(0)
    ensures Resolve(arch, fallback, mem, aux)[j] == Template(arch, fallback)[j]
  {
    var d := Discover(mem, aux);
    var p := NameMatches(mem, d.strtab, d.symtab, Template(arch, fallback)[j].name);
    assert NoneBelow(d.count, p) by {
      forall i | 0 <= i < d.count ensures !p(i) {
        assert i == 0;
      }
    }
    UnmatchedSlotKeepsFallback(arch, fallback, mem, aux, j);
  }

  /** Conversely, a slot that differs from the template was written by a
      symbol of its name below the symbol count. */
  lemma ChangedSlotWasMatched(arch: Arch, fallback: Fallback, mem: Memory, aux: Addr, j: nat)
    requires Terminates(mem, aux)
    requires j < VDSO_END
    requires Resolve(arch, fallback, mem, aux)[j] != Template(arch, fallback)[j]
    ensures Discover(mem, aux).Found?
    ensures
      var d := Discover(mem, aux);
      exists i | 0 <= i < d.count ::
        NameMatches(mem, d.strtab, d.symtab, Template(arch, fallback)[j].name)(i)
  {
  }
}
