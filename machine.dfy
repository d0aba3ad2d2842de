/** Fixed-width machine integers of a 64-bit target and the wrap-around
    arithmetic of `uintptr_t`, in which every address of the resolver is
    computed. */
module Machine {

  /** 2^64: one full turn of the address space. */
  const WORD: int := 0x1_0000_0000_0000_0000

  type u8 = x: int | 0 <= x < 0x100
  type u16 = x: int | 0 <= x < 0x1_0000
  type u32 = x: int | 0 <= x < 0x1_0000_0000
  type u64 = x: int | 0 <= x < 0x1_0000_0000_0000_0000
  type i32 = x: int | -0x8000_0000 <= x < 0x8000_0000
  type i64 = x: int | -0x8000_0000_0000_0000 <= x < 0x8000_0000_0000_0000

  /** A pointer-sized unsigned integer (`uintptr_t`, `ElfW(Addr)`); 0 is the
      null pointer. */
  type Addr = u64

  /** `a + b` on `uintptr_t`: exact unless it passes 2^64, then wrapped once. */
  function Add(a: Addr, b: u64): (r: Addr)
    ensures a + b < WORD ==> r == a + b
    ensures a + b >= WORD ==> r == a + b - WORD
  {
    (a + b) % WORD
  }

  /** `a - b` on `uintptr_t`: exact unless it goes below 0, then wrapped once. */
  function Sub(a: Addr, b: u64): (r: Addr)
    ensures a >= b ==> r == a - b
    ensures a < b ==> r == a - b + WORD
  {
    (a - b) % WORD
  }

  /** The address of element `i` of a C array of `size`-byte elements that
      starts at `base` (`&base[i]`). */
  function Elem(base: Addr, i: nat, size: nat): Addr
  {
    (base + i * size) % WORD
  }

  /** Wrapping a sum once more changes nothing: the step every pointer
      increment below relies on. */
  lemma ModSum(x: int, y: int)
    ensures (x % WORD + y) % WORD == (x + y) % WORD
  {
    var q := x / WORD;
    assert x == q * WORD + x % WORD;
    assert x + y == q * WORD + (x % WORD + y);
    ShiftByWords(q, x % WORD + y);
  }

  lemma ShiftByWords(q: int, z: int)
    ensures (q * WORD + z) % WORD == z % WORD
  {
    var r := z % WORD;
    var d := z / WORD;
    assert z == d * WORD + r;
    assert q * WORD + z == (q + d) * WORD + r;
  }

  /** `++p` on a pointer to `size`-byte elements moves from element `i` to
      element `i + 1`. */
  lemma ElemNext(base: Addr, i: nat, size: u64)
    ensures Elem(base, i + 1, size) == Add(Elem(base, i, size), size)
  {
    ModSum(base + i * size, size);
    assert base + (i + 1) * size == base + i * size + size;
  }

  /** `p + (k + 1)` is `(p + 1) + k`. */
  lemma AddShift(p: Addr, k: u64)
    requires k + 1 < WORD
    ensures Add(Add(p, 1), k) == Add(p, k + 1)
  {
    ModSum(p + 1, k);
  }

  /** An element that lies below 2^64 is addressed without wrap-around. */
  lemma ElemNoWrap(base: Addr, i: nat, size: nat)
    requires base + i * size < WORD
    ensures Elem(base, i, size) == base + i * size
  {
  }

  /** Element `i` of an array of `size`-byte elements is also element
      `i % (2^64 / size)`: once `++p` has gone round the address space it
      meets the same elements again. */
  lemma ElemWraps(base: Addr, i: nat, size: nat)
    requires 0 < size && WORD % size == 0
    ensures Elem(base, i, size) == Elem(base, i % (WORD / size), size)
  {
    var n := WORD / size;
    var q, r := i / n, i % n;
    assert n * size == WORD;
    assert i * size == q * WORD + r * size by {
      assert i == q * n + r;
      assert i * size == q * (n * size) + r * size;
    }
    ShiftByWords(q, base + r * size);
  }
}
