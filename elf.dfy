/** The parts of an ELF64 image the resolver reads, as laid out by the
    System V ABI (chapter 4 "Object Files", chapter 5 "Program Loading and
    Dynamic Linking"), and the process memory it reads them from. */
module Elf {
  import opened Machine

  // Section header type, program header types and dynamic tags (gABI).
  const SHT_DYNSYM: u32 := 11
  const PT_LOAD: u32 := 1
  const PT_DYNAMIC: u32 := 2
  const DT_NULL: i64 := 0
  const DT_STRTAB: i64 := 5
  const DT_SYMTAB: i64 := 6

  // Sizes in bytes of the ELF64 records (`sizeof(ElfW(...))` on a 64-bit target).
  const SHDR_SIZE: u64 := 64
  const PHDR_SIZE: u64 := 56
  const DYN_SIZE: u64 := 16
  const SYM_SIZE: u64 := 24

  /** The fields of `Elf64_Ehdr` the resolver reads. */
  datatype Ehdr = Ehdr(phoff: u64, shoff: u64, phnum: u16, shnum: u16)

  /** The fields of `Elf64_Shdr` the resolver reads. */
  datatype Shdr = Shdr(shType: u32, shSize: u64)

  /** The fields of `Elf64_Phdr` the resolver reads. */
  datatype Phdr = Phdr(pType: u32, pOffset: u64, pVaddr: u64)

  /** `Elf64_Dyn`: a tag and the `d_un.d_ptr` member of its union. */
  datatype Dyn = Dyn(dTag: i64, dPtr: u64)

  /** The fields of `Elf64_Sym` the resolver reads. */
  datatype Sym = Sym(stName: u32, stValue: u64)

  /** Process memory as seen through each pointer type the resolver casts an
      address to: the record of that type stored at the address, and the
      byte (`char`) stored there. Every address is readable. */
  datatype Memory = Memory(
    ehdrAt: Addr -> Ehdr,
    shdrAt: Addr -> Shdr,
    phdrAt: Addr -> Phdr,
    dynAt: Addr -> Dyn,
    symAt: Addr -> Sym,
    byteAt: Addr -> u8)

  /** `strcmp(name, p) == 0`: the C string `name` (which ends at its first
      NUL or at its end) equals the NUL-terminated string stored at `p`. */
  predicate CStrEq(mem: Memory, name: string, p: Addr)
    decreases |name|
  {
    if name == [] || name[0] == '\0' then mem.byteAt(p) == 0
    else mem.byteAt(p) == name[0] as int && CStrEq(mem, name[1..], Add(p, 1))
  }

  /** The bytes at `p .. p + |name| - 1` spell `name` and a NUL follows. */
  ghost predicate StoredAt(mem: Memory, name: string, p: Addr)
    requires |name| < WORD
  {
    && (forall k | 0 <= k < |name| :: mem.byteAt(Add(p, k)) == name[k] as int)
    && mem.byteAt(Add(p, |name|)) == 0
  }

  /** For a name without an embedded NUL, `strcmp` reports equality exactly
      when the name is stored at `p`, terminator included. */
  lemma {:induction false} CStrEqIsStored(mem: Memory, name: string, p: Addr)
    requires |name| < WORD
    requires '\0' !in name
    ensures CStrEq(mem, name, p) <==> StoredAt(mem, name, p)
  {
    if name != [] {
      var rest := name[1..];
      assert '\0' !in rest by {
        forall k | 0 <= k < |rest| ensures rest[k] != '\0' {
          assert rest[k] == name[k + 1];
        }
      }
      CStrEqIsStored(mem, rest, Add(p, 1));
      forall k | 0 <= k <= |rest|
        ensures Add(Add(p, 1), k) == Add(p, k + 1)
      {
        AddShift(p, k);
      }
      assert Add(p, 0) == p;
      if CStrEq(mem, name, p) {
        forall k | 0 <= k < |name| ensures mem.byteAt(Add(p, k)) == name[k] as int {
          if k > 0 {
            assert name[k] == rest[k - 1];
          }
        }
      } else if mem.byteAt(p) == name[0] as int {
        assert !StoredAt(mem, rest, Add(p, 1));
        if forall k | 0 <= k < |rest| :: mem.byteAt(Add(Add(p, 1), k)) == rest[k] as int {
          assert mem.byteAt(Add(p, |name|)) != 0;
        } else {
          var k :| 0 <= k < |rest| && mem.byteAt(Add(Add(p, 1), k)) != rest[k] as int;
          assert mem.byteAt(Add(p, k + 1)) != name[k + 1] as int;
        }
      }
    }
  }
}
