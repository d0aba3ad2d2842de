# The bionic vDSO symbol resolver, in Dafny

On aarch64 and x86_64, bionic's `clock_gettime` and `gettimeofday` do not
call into the kernel directly. They jump through a two-slot table of
`vdso_entry` records, `{ name, fn }`. At start-up `__libc_init_vdso` maps
one anonymous page for the table and `__libc_init_vdso_entries` fills it.
It first copies `vdso_entries_template`, where each slot names its vDSO
symbol and holds the system-call wrapper as fallback. It then looks up the
vDSO image that the auxiliary vector reports (`AT_SYSINFO_EHDR`):

- the symbol count, from the last `SHT_DYNSYM` section header;
- the load bias, from the last `PT_LOAD` program header;
- the dynamic section, from the last `PT_DYNAMIC` program header;
- the string and symbol tables, from the last `DT_STRTAB` and `DT_SYMTAB`
  entries before `DT_NULL`.

Any of these missing ends the function early and the template stays. The
final step compares every symbol's name with every slot's name using
`strcmp`. A slot whose name matches takes the load bias plus the symbol's
value. After that the page is made read-only.

The model has these modules:

- `Machine`: the 64-bit integers and the wrap-around `uintptr_t` arithmetic
  that every address is computed with.
- `Elf`: the ELF64 records the resolver reads. Process memory is modelled
  as a typed view per pointer type, and `strcmp` against a string in
  memory is given with its characterisation.
- `Scan`: the two loop shapes the resolver uses. "Overwrite on every hit"
  is `LastBelow`; "stop at the first hit" is `FirstBelow`, the dynamic
  walk. Each has an independent characterisation.
- `Resolver`: the resolver as functions. `Discover` is the header walk with
  its early exits, `SlotAfter` is one slot after the symbol loop, and
  `Resolve` is the table that results. It also holds the properties of
  these functions.
- `Vdso`: the imperative resolver. `EntryTable` is a class over the mapped
  page (an `array<Entry>`) with the loops of the source. Its `InitEntries`
  is proved to leave exactly `Resolve(...)` in the page. `InitVdso` maps,
  resolves and protects the page, and the two trampolines are methods of
  the class.
- `Scenarios`: a concrete image, and what the resolver makes of it.

## Model

| member | source | states |
|---|---|---|
| Machine.Add | libc/bionic/vdso.cpp:105 | `uintptr_t` addition is exact below 2^64 and wraps once above it |
| Machine.Sub | libc/bionic/vdso.cpp:105 | `uintptr_t` subtraction is exact when it does not go below 0 and wraps once when it does |
| Machine.Elem | libc/bionic/vdso.cpp:89 | `&p[i]` on a C array of `size`-byte records: `p + i * size` mod 2^64; the same indexing serves `vdso_phdr[i]` (line 102), `++d` (line 115) and `symtab[i]` (line 129); `ElemNext` and `ElemWraps` state its properties |
| Machine.ElemNext | libc/bionic/vdso.cpp:115 | `++d` moves a `Dyn*` from element `k` to element `k + 1`, wrap-around included |
| Machine.ElemWraps | libc/bionic/vdso.cpp:115 | after 2^64 / size increments the pointer meets the same elements again |
| Scan.LastBelow | libc/bionic/vdso.cpp:88-92 | an overwrite-on-hit loop ends with no value exactly when no index hits; otherwise it ends with the highest hit |
| Scan.FirstBelow | libc/bionic/vdso.cpp:115 | a loop that stops at the first hit finds nothing exactly when no index hits; otherwise it stops at the lowest hit |
| Scan.FirstBelowIs | libc/bionic/vdso.cpp:115 | the lowest hit is the one the stopping loop reports |
| Scan.LastBelowIs | libc/bionic/vdso.cpp:101-107 | the highest hit is the one the overwriting loop keeps |
| Scan.LastBelowStep | libc/bionic/vdso.cpp:88-92 | one more iteration: a hit there becomes the answer, otherwise the answer stands |
| Elf.CStrEq | libc/bionic/vdso.cpp:129 | `strcmp(name, p) == 0`: compares byte by byte until the name's first NUL or its end, and then requires a NUL at `p`; `Elf.CStrEqIsStored` characterises it |
| Elf.CStrEqIsStored | libc/bionic/vdso.cpp:129 | for a name without NUL, `strcmp(name, p) == 0` exactly when the bytes at `p` spell the name and a NUL follows |
| Resolver.ClockGettimeSymbol | libc/bionic/vdso.cpp:25-31 | the clock symbol's name for each architecture is visible (graphic) ASCII and has no NUL |
| Resolver.GettimeofdaySymbol | libc/bionic/vdso.cpp:25-31 | the time-of-day symbol's name has no NUL and differs from the clock name |
| Resolver.Template | libc/bionic/vdso.cpp:55-58 | the template has `VDSO_END` slots; each holds a non-null fallback; the two names differ and have no NUL |
| Resolver.SymbolCountAfter | libc/bionic/vdso.cpp:86-92 | `symbol_count` is 0 when there is no `SHT_DYNSYM` header, otherwise the last such header's size divided by 24 |
| Resolver.SymbolCountAfterStep | libc/bionic/vdso.cpp:88-92 | one more section header: a `SHT_DYNSYM` header resets the count, any other leaves it |
| Resolver.SymbolCount | libc/bionic/vdso.cpp:86-92 | `symbol_count` after the loop over all `e_shnum` section headers starting at `aux + e_shoff`, that is `SymbolCountAfter` of the whole table |
| Resolver.LoadBiasAfter | libc/bionic/vdso.cpp:98-107 | `vdso_addr` is 0 without a `PT_LOAD` header, otherwise base + `p_offset` − `p_vaddr` of the last one, mod 2^64 |
| Resolver.DynamicPtrAfter | libc/bionic/vdso.cpp:99-107 | `vdso_dyn` is null without a `PT_DYNAMIC` header, otherwise base + `p_offset` of the last one |
| Resolver.ProgramHeaderStep | libc/bionic/vdso.cpp:101-107 | one more program header updates the bias on `PT_LOAD` and the dynamic pointer on `PT_DYNAMIC`, and nothing else |
| Resolver.LoadBias | libc/bionic/vdso.cpp:98-107 | `vdso_addr` after the loop over all `e_phnum` program headers starting at `aux + e_phoff`, that is `LoadBiasAfter` of the whole table |
| Resolver.DynamicPtr | libc/bionic/vdso.cpp:99-107 | `vdso_dyn` after the same loop, that is `DynamicPtrAfter` of the whole table |
| Resolver.DynamicEnd | libc/bionic/vdso.cpp:115 | the walk ends at the first `DT_NULL` entry; there is none within one turn of the address space exactly when it has no end |
| Resolver.TableAddrAfter | libc/bionic/vdso.cpp:113-121 | `strtab`/`symtab` is null without an entry of its tag, otherwise the bias plus `d_ptr` of the last such entry |
| Resolver.TableAddrAfterStep | libc/bionic/vdso.cpp:116-120 | one more dynamic entry sets the table of its tag and leaves the other |
| Resolver.Discover | libc/bionic/vdso.cpp:79-124 | the walk up to the symbol loop: `NoImage` when `aux` is 0; `NoSymbols` when `SymbolCount` is 0; `NoDynamic` when `LoadBias` or `DynamicPtr` is 0; `Unterminated` when `DynamicEnd` finds no `DT_NULL`; `NoTables` when either table address at that end is 0; otherwise `Found` with the bias, both tables and the count. `Resolver.DiscoverFound` states the `Found` case as a lemma |
| Resolver.DiscoverFound | libc/bionic/vdso.cpp:81-124 | when every stage finds what it needs (non-zero), the resolver reaches the symbol loop with those values |
| Resolver.SlotAfter | libc/bionic/vdso.cpp:127-133 | a slot keeps its name; with no matching symbol it is unchanged; otherwise it holds the bias plus the value of the last matching symbol |
| Resolver.SlotAfterStep | libc/bionic/vdso.cpp:128-131 | one more symbol: a slot whose name it has takes its address, any other slot stays |
| Resolver.SlotAfterNext | libc/bionic/vdso.cpp:129-130 | the same step, decided by `strcmp` on the slot's current name |
| Resolver.NameMatches | libc/bionic/vdso.cpp:129 | symbol `i` matches a name when `strcmp(name, strtab + symtab[i].st_name) == 0` |
| Resolver.Resolve | libc/bionic/vdso.cpp:74-134 | the table the resolver leaves: the template on every early exit, and otherwise each template slot as `SlotAfter` over all `count` symbols. Its properties are `ResolveKeepsNames`, `EarlyExitKeepsTemplate`, `ResolvedSlotIsLastMatch`, `UnmatchedSlotKeepsFallback` and `ChangedSlotWasMatched` |
| Resolver.DynamicWalkNeverEnds | libc/bionic/vdso.cpp:115 | without a `DT_NULL` in the first 2^60 entries there is none at all, so the walk never ends |
| Resolver.ResolveKeepsNames | libc/bionic/vdso.cpp:127-133 | the resolved table has two slots, each with the template's name |
| Resolver.EarlyExitKeepsTemplate | libc/bionic/vdso.cpp:76-124 | no vDSO, no symbols, no bias or dynamic section, or no string or symbol table leaves the template in place |
| Resolver.ResolvedSlotIsLastMatch | libc/bionic/vdso.cpp:127-133 | a slot holds the bias plus the value of the highest symbol below the count that has its name |
| Resolver.UnmatchedSlotKeepsFallback | libc/bionic/vdso.cpp:76-133 | a slot whose name no symbol has keeps its fallback |
| Resolver.LastSymbolMatched | libc/bionic/vdso.cpp:127-133 | if the last symbol has a slot's name, the slot takes that symbol's address, whatever came before |
| Resolver.OnlySymbolUnmatched | libc/bionic/vdso.cpp:127-133 | with a single symbol that lacks a slot's name, the slot keeps its fallback |
| Resolver.ChangedSlotWasMatched | libc/bionic/vdso.cpp:127-133 | a slot that differs from the template was written by a symbol of its name, and only when the walk found the tables |
| Vdso.EntryTable.constructor | libc/bionic/vdso.cpp:138-139 | the freshly mapped page is zero-filled and writable |
| Vdso.EntryTable.InitEntries | libc/bionic/vdso.cpp:74-134 | the page ends up holding exactly `Resolve` of the image |
| Vdso.EntryTable.CopyTemplate | libc/bionic/vdso.cpp:76 | after the `memcpy` the page holds the template |
| Vdso.EntryTable.MatchSymbols | libc/bionic/vdso.cpp:127-133 | the nested loop leaves each slot as `SlotAfter` its template entry over all symbols |
| Vdso.EntryTable.MatchSymbol | libc/bionic/vdso.cpp:128-132 | one outer iteration advances every slot by one symbol |
| Vdso.EntryTable.Protect | libc/bionic/vdso.cpp:144 | after `mprotect` the page is read-only |
| Vdso.EntryTable.ClockGettime | libc/bionic/vdso.cpp:62-66 | `clock_gettime` returns what the function in the clock slot returns for the caller's arguments |
| Vdso.EntryTable.Gettimeofday | libc/bionic/vdso.cpp:68-72 | `gettimeofday` returns what the function in the time-of-day slot returns for the caller's arguments |
| Vdso.Locate | libc/bionic/vdso.cpp:79-124 | the walk with its early returns computes `Discover` |
| Vdso.CountSymbols | libc/bionic/vdso.cpp:86-92 | the section header loop computes `SymbolCountAfter` over `e_shnum` headers |
| Vdso.FindDynamic | libc/bionic/vdso.cpp:98-107 | the program header loop computes the load bias and the dynamic pointer |
| Vdso.FindTables | libc/bionic/vdso.cpp:113-121 | the dynamic walk stops at the first `DT_NULL` with the last `DT_STRTAB` and `DT_SYMTAB` addresses |
| Vdso.InitVdso | libc/bionic/vdso.cpp:136-148 | a fresh page that is read-only and holds `Resolve` of the image |
| Scenarios.SyntheticHasLayout | libc/bionic/vdso.cpp:74-134 | a concrete image with the scenario layout exists |
| Scenarios.HeadersSymbolCount | libc/bionic/vdso.cpp:86-92 | one `SHT_DYNSYM` header sized for `count` symbols gives `symbol_count == count` |
| Scenarios.HeadersLoadBias | libc/bionic/vdso.cpp:101-107 | a `PT_LOAD` mapping virtual address 0 to offset 0 makes the bias the image base |
| Scenarios.HeadersDynamicPtr | libc/bionic/vdso.cpp:101-107 | the `PT_DYNAMIC` header places the dynamic section at base + its offset |
| Scenarios.HeadersDynamicEnd | libc/bionic/vdso.cpp:115 | the walk stops at the third entry, the `DT_NULL` |
| Scenarios.HeadersTables | libc/bionic/vdso.cpp:113-121 | the tables are found at base + their `d_ptr` |
| Scenarios.HeadersAreFound | libc/bionic/vdso.cpp:79-124 | such an image reaches the symbol loop with the expected tables |
| Scenarios.StoredNameMatches | libc/bionic/vdso.cpp:129 | a symbol whose name is stored at the start of the string table matches that name |
| Scenarios.OtherNameNotStored | libc/bionic/vdso.cpp:129 | a name that differs in some position is not stored where another name is |
| Scenarios.DayNameNotStored | libc/bionic/vdso.cpp:129 | where the clock name is stored, `strcmp` with the time-of-day name fails |
| Scenarios.DayNameAbsent | libc/bionic/vdso.cpp:129 | in the scenario no symbol has the time-of-day name |
| Scenarios.OneSymbolResolvesClockSlot | libc/bionic/vdso.cpp:127-133 | one exported clock symbol of value `v`: the clock slot holds base + `v` |
| Scenarios.OneSymbolKeepsDaySlot | libc/bionic/vdso.cpp:76-133 | in the same image the time-of-day slot keeps its fallback |
| Scenarios.LaterDuplicateWins | libc/bionic/vdso.cpp:127-133 | of two symbols with the clock name, the later one wins |
| Scenarios.ResolvedSlotCanBeNull | libc/bionic/vdso.cpp:130 | a symbol value that wraps the bias to 0 leaves a null function in a slot whose fallback was not null |

## Left out

- `mmap`, `mprotect` and their failure paths, which end in `__libc_fatal` (lines 138-146), are left out: memory allocation and process exit are outside the model. The constructor stands for a successful `mmap`, and `Protect` for a successful `mprotect`.
- The `prctl(PR_SET_VMA_ANON_NAME)` call that names the page (line 147) is not modelled: it changes no state the resolver reads.
- `getauxval(AT_SYSINFO_EHDR)` becomes the parameter `aux`, and the vDSO's memory becomes the parameter `mem`.
- Vdso.EntryTable.ClockGettime and Vdso.EntryTable.Gettimeofday: the function that is called is a parameter `call`. What the kernel's vDSO code or the system-call wrappers do, `errno` included, is not part of this model.
- Every architecture other than aarch64 and x86_64 compiles only an empty `__libc_init_vdso` (lines 150-153). That branch is left out. The model covers the two 64-bit architectures, whose ELF64 record layouts it uses.
- Elf.Memory: each pointer type reads memory through its own view. The model does not tie the views to one another's bytes, so it does not capture a record that overlaps another one.
- Vdso.EntryTable.InitEntries requires `Terminates`. The walk at line 115 never reads the size of the dynamic section: without a `DT_NULL` in the section it reads on past the end and stops at the first 16-byte entry from `vdso_dyn` onward whose tag is `DT_NULL`. The requires excludes only images where no such entry exists at all, so the walk wraps round the address space after 2^60 entries and the source does not return. In a process it eventually reaches unmapped memory and faults. In the model, where all memory is readable, it loops forever (Resolver.DynamicWalkNeverEnds).
- Vdso.EntryTable.constructor: the zero-filled page holds null names, shown as the empty string.
- The template's fallbacks are the addresses of `__clock_gettime` and `__gettimeofday`. They are parameters that are known to be non-null, not real symbols.
- The synthetic image of `Scenarios` lies at one fixed base address (`Scenarios.BASE`). The general theorems in `Resolver` hold for every base.
- The concurrency around the global pointer `vdso_entries` is left out. The resolver runs once, before any other thread exists.

Some points where one might expect other behaviour; the model follows the code:

- One might expect the first `PT_LOAD` header to give the load bias. The code takes the last one, because the loop overwrites `vdso_addr` on every hit.
- One might expect only a missing header or entry to count as absent. The code tests the computed values, so a bias, dynamic pointer, string table or symbol table that happens to be 0 also makes it return early.
- One might expect every slot to hold a non-null function after start-up. A resolved slot can hold null (Scenarios.ResolvedSlotCanBeNull): the code trusts the image, and `bias + st_value` can wrap to 0.
- One might expect the dynamic walk to stop when the section ends. It stops only at a `DT_NULL` entry, which may lie past the end of the section, as described above.
