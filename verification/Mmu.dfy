/**
  x86 32-bit paging as inc/mmu.h and inc/memlayout.h present it: page-table words, pages of
  words, and the split of a linear address into directory index, table index and offset.
 */
module Mmu {
  datatype Option<+T> = None | Some(value: T)

  const NPDENTRIES := 1024
  const NPTENTRIES := 1024
  const PGSIZE := 4096

  // Directory indices of the landmarks of the address space.
  const PDX_UTOP := 955
  const PDX_UENVS := 955
  const PDX_UPAGES := 956
  const PDX_UVPT := 957
  const PDX_ULIM := 958
  const PDX_KSTACK := 959
  const PDX_KERNBASE := 960

  // Index, within table PDX_KSTACK, of the first mapped page of the kernel stack.
  const PTX_KSTACK := 1016
  const KSTKPAGES := 8

  /** uintptr_t and physaddr_t */
  type Addr = n: int | 0 <= n < 0x1_0000_0000

  /** int, long and envid_t */
  type Int32 = n: int | -0x8000_0000 <= n < 0x8000_0000

  const MAXFRAMES := 0x10_0000
  type FrameNo = n: int | 0 <= n < MAXFRAMES

  type Bits9 = n: int | 0 <= n < 512

  /** The low 12 bits of an entry: PTE_P, PTE_W, PTE_U and the nine bits above them. */
  datatype Flags = Flags(p: bool, w: bool, u: bool, avl: Bits9)

  /** A 32-bit word, read as a 20-bit frame number and 12 flag bits. */
  datatype Word = Word(frame: FrameNo, flags: Flags)

  const NOFLAGS := Flags(false, false, false, 0)
  const PTE_U := Flags(false, false, true, 0)
  const PTE_W := Flags(false, true, false, 0)
  const PTE_PU := Flags(true, false, true, 0)
  const PTE_PWU := Flags(true, true, true, 0)
  const ZERO := Word(0, NOFLAGS)

  /** `perm | PTE_P` */
  function Present(perm: Flags): Flags {
    perm.(p := true)
  }

  /** `(have & want) == want` */
  predicate Contains(have: Bits9, want: Bits9) {
    (have as bv9) & (want as bv9) == want as bv9
  }

  predicate Grants(have: Flags, want: Flags) {
    (want.p ==> have.p) && (want.w ==> have.w) && (want.u ==> have.u) && Contains(have.avl, want.avl)
  }

  lemma ContainsNone(have: Bits9)
    ensures Contains(have, 0)
  {
    assert (have as bv9) & 0 == 0;
  }

  lemma NoneContains(want: Bits9)
    ensures Contains(0, want) <==> want == 0
  {
    assert 0 & (want as bv9) == 0;
    if want as bv9 == 0 {
      assert (want as bv9) as int == want;
    }
  }

  /** The 1024 words of one physical page. */
  type Page = s: seq<Word> | |s| == NPTENTRIES witness seq(NPTENTRIES, _ => ZERO)

  function ZeroPage(): (page: Page)
    ensures forall i :: 0 <= i < NPTENTRIES ==> page[i] == ZERO
  {
    seq(NPTENTRIES, i => ZERO)
  }
}
