/**
  Addresses: how the MMU resolves them through a directory, the self-map at UVPT, check_va2pa, and
  user_mem_check against the rights the MMU enforces.
 */
module AddressSpace {
  import opened Errors
  import opened Mmu
  import opened Vm
  import opened VmInvariant
  import opened PageTables

  const PTSIZE := 0x40_0000
  const UVPT := PDX_UVPT * PTSIZE
  const ULIM := PDX_ULIM * PTSIZE
  const UTOP := PDX_UTOP * PTSIZE
  const USTACKTOP := UTOP - 2 * PGSIZE

  /** The map of inc/memlayout.h, in numbers. */
  lemma Landmarks()
    ensures UTOP == 0xEEC0_0000 && USTACKTOP == 0xEEBF_E000 && UVPT == 0xEF40_0000 && ULIM == 0xEF80_0000
    ensures PDX_UENVS * PTSIZE == 0xEEC0_0000 && PDX_UPAGES * PTSIZE == 0xEF00_0000
    ensures PDX_KERNBASE * PTSIZE == 0xF000_0000
    ensures PDX_KSTACK * PTSIZE + PTX_KSTACK * PGSIZE == 0xF000_0000 - 8 * PGSIZE && PGSIZE == 0x1000
  {
  }

  function Pdx(va: Addr): nat { va / PTSIZE }
  function Ptx(va: Addr): nat { va / PGSIZE % NPTENTRIES }
  function Pgnum(va: Addr): nat { va / PGSIZE }
  function Pgoff(va: Addr): nat { va % PGSIZE }

  /** The physical address that va denotes under directory d, if its slot and entry are present. */
  function Translate(vm: Tables, d: nat, va: Addr): Option<nat> {
    var w := Leaf(vm, d, Pdx(va), Ptx(va));
    if w.flags.p then Some(w.frame * PGSIZE + Pgoff(va)) else None
  }

  // ---- the recursive self-map ---------------------------------------------------------------

  /** kern_pgdir maps itself in its UVPT slot, and so does every environment's directory. */
  lemma RootMapsItself(vm: Tables, d: nat)
    requires Shape(vm) && IsRoot(vm, d)
    ensures d < MAXFRAMES && Get(vm, d, PDX_UVPT) == Word(d, PTE_PU)
    ensures forall i :: KernSlot(i) ==> Get(vm, d, i) == Get(vm, vm.kdir, i)
  {
  }

  /** uvpt[PGNUM(va)] is the entry of va: its address translates to where that entry is stored. */
  lemma UvptHoldsEntries(vm: Tables, d: nat, va: Addr)
    requires Shape(vm) && IsRoot(vm, d) && Walk(vm, d, Pdx(va)).Some?
    ensures Translate(vm, d, UVPT + 4 * Pgnum(va)) == Some(Walk(vm, d, Pdx(va)).value * PGSIZE + 4 * Ptx(va))
  {
    var a: Addr := UVPT + 4 * Pgnum(va);
    SelfMapIndex(va);
    RootMapsItself(vm, d);
  }

  lemma SelfMapIndex(va: Addr)
    ensures var a := UVPT + 4 * Pgnum(va);
      0 <= a < 0x1_0000_0000 && Pdx(a) == PDX_UVPT && Ptx(a) == Pdx(va) && Pgoff(a) == 4 * Ptx(va)
  {
    var n := Pgnum(va);
    assert n == Pdx(va) * NPTENTRIES + Ptx(va);
  }

  /** uvpd[i] is directory slot i. */
  lemma UvpdHoldsSlots(vm: Tables, d: nat, i: nat)
    requires Shape(vm) && IsRoot(vm, d) && i < NPDENTRIES
    ensures Translate(vm, d, UVPT + UVPT / PGSIZE * 4 + 4 * i) == Some(d * PGSIZE + 4 * i)
  {
    assert UVPT / PGSIZE * 4 == PDX_UVPT * PGSIZE;
    var a: Addr := UVPT + UVPT / PGSIZE * 4 + 4 * i;
    assert Pdx(a) == PDX_UVPT && Ptx(a) == PDX_UVPT && Pgoff(a) == 4 * i;
    RootMapsItself(vm, d);
  }

  /** Through the self-map users may read the tables that there are, and write none. */
  lemma SelfMapIsReadOnly(vm: Tables, d: nat, i: nat)
    requires Shape(vm) && IsRoot(vm, d) && i < NPDENTRIES
    ensures UserAccess(vm, d, PDX_UVPT, i, false) <==> Walk(vm, d, i).Some?
    ensures !UserAccess(vm, d, PDX_UVPT, i, true)
  {
    RootMapsItself(vm, d);
    if KernSlot(i) {
      assert Get(vm, d, i) == Get(vm, vm.kdir, i);
    } else if d != vm.kdir {
      var e :| e in vm.dirs && vm.dirs[e] == d;
    }
  }

  // ---- rights -------------------------------------------------------------------------------

  /** What the MMU lets user mode do with page (i, j): the directory and table rights combined. */
  predicate UserAccess(vm: Tables, d: nat, i: nat, j: nat, write: bool) {
    var pde := Get(vm, d, i).flags;
    var pte := Leaf(vm, d, i, j).flags;
    pde.p && pte.p && pde.u && pte.u && (write ==> pde.w && pte.w)
  }

  /** user_mem_check's test of one page: below ULIM, with a table, whose entry has all bits of perm. */
  predicate PageAllows(vm: Tables, d: nat, n: nat, perm: Flags) {
    var i, j := n / NPTENTRIES, n % NPTENTRIES;
    i < PDX_ULIM && Walk(vm, d, i).Some? && Grants(Leaf(vm, d, i, j).flags, perm)
  }

  lemma UserPageCases(vm: Tables, e: nat, n: nat)
    requires Shape(vm) && e in vm.dirs && n < PDX_UTOP * NPTENTRIES
    ensures var d, i, j := vm.dirs[e], n / NPTENTRIES, n % NPTENTRIES;
      && (Get(vm, d, i) == ZERO || Get(vm, d, i).flags == PTE_PWU)
      && (Leaf(vm, d, i, j) == ZERO || Leaf(vm, d, i, j).flags.p)
  {
    var d, i, j := vm.dirs[e], n / NPTENTRIES, n % NPTENTRIES;
    if Walk(vm, d, i).Some? {
      assert Get(vm, Walk(vm, d, i).value, j) == Leaf(vm, d, i, j);
    }
  }

  /** For user pages and a perm with PTE_U, the test is the MMU's, and that any bits of perm the MMU ignores are set. */
  lemma TestIsTheMmus(vm: Tables, e: nat, n: nat, perm: Flags)
    requires Shape(vm) && e in vm.dirs && n < PDX_UTOP * NPTENTRIES && perm.u
    ensures var d, i, j := vm.dirs[e], n / NPTENTRIES, n % NPTENTRIES;
      && (PageAllows(vm, d, n, perm)
          <==> UserAccess(vm, d, i, j, perm.w) && Contains(Leaf(vm, d, i, j).flags.avl, perm.avl))
      && (perm.avl == 0 ==> (PageAllows(vm, d, n, perm) <==> UserAccess(vm, d, i, j, perm.w)))
  {
    UserPageCases(vm, e, n);
    ContainsNone(Leaf(vm, vm.dirs[e], n / NPTENTRIES, n % NPTENTRIES).flags.avl);
    hide Contains;
  }

  /** The entry of page number n. */
  function EntryOf(vm: Tables, d: nat, n: nat): Word {
    Leaf(vm, d, n / NPTENTRIES, n % NPTENTRIES)
  }

  /** Page number n is below ULIM and has a table. */
  predicate HasEntry(vm: Tables, d: nat, n: nat) {
    n / NPTENTRIES < PDX_ULIM && Walk(vm, d, n / NPTENTRIES).Some?
  }

  /**
    The comment on user_mem_check promises a test of `perm | PTE_P`; the code tests perm alone.  The two
    differ exactly on an entry that has all bits of perm but is not present.
   */
  lemma PresentIsNotTested(vm: Tables, d: nat, n: nat, perm: Flags)
    ensures (PageAllows(vm, d, n, Present(perm)) <==> PageAllows(vm, d, n, perm))
      <==> !(HasEntry(vm, d, n) && Grants(EntryOf(vm, d, n).flags, perm) && !EntryOf(vm, d, n).flags.p)
  {
    hide Contains;
    hide Leaf;
  }

  /** A page whose entry, if it has one, has no flags at all or is present. */
  predicate EmptyOrPresent(vm: Tables, d: nat, n: nat) {
    HasEntry(vm, d, n) ==> EntryOf(vm, d, n).flags == NOFLAGS || EntryOf(vm, d, n).flags.p
  }

  /** For such a page the difference is exactly a perm of 0 and an entry that is not present. */
  lemma OnlyForNoFlags(vm: Tables, d: nat, n: nat, perm: Flags)
    requires EmptyOrPresent(vm, d, n)
    ensures (PageAllows(vm, d, n, Present(perm)) <==> PageAllows(vm, d, n, perm))
      <==> !(HasEntry(vm, d, n) && perm == NOFLAGS && !EntryOf(vm, d, n).flags.p)
    ensures PageAllows(vm, d, n, NOFLAGS) <==> HasEntry(vm, d, n)
    ensures PageAllows(vm, d, n, Present(perm)) ==> PageAllows(vm, d, n, perm) && EntryOf(vm, d, n).flags.p
  {
    NoneContains(perm.avl);
    ContainsNone(EntryOf(vm, d, n).flags.avl);
    hide Contains;
    hide Leaf;
  }

  /** User pages and pages of the self-map are such pages. */
  lemma UserEmptyOrPresent(vm: Tables, e: nat, n: nat)
    requires Shape(vm) && e in vm.dirs && (n / NPTENTRIES < PDX_UTOP || n / NPTENTRIES == PDX_UVPT)
    ensures EmptyOrPresent(vm, vm.dirs[e], n)
  {
    var d, i, j := vm.dirs[e], n / NPTENTRIES, n % NPTENTRIES;
    if i == PDX_UVPT {
      if KernSlot(j) {
        assert Get(vm, d, j) == Get(vm, vm.kdir, j);
      }
    } else {
      UserPageCases(vm, e, n);
    }
  }

  // ---- user_mem_check -----------------------------------------------------------------------

  function RoundDown(a: Addr): Addr { a - a % PGSIZE }
  function RoundUp(a: Addr): Addr { RoundDown((a + PGSIZE - 1) % 0x1_0000_0000) }

  /** The number of the page after the last one of the range, not wrapped. */
  function PageEnd(va: Addr, len: Addr): nat { (va + len + PGSIZE - 1) / PGSIZE }

  const ALLPAGES := 0x10_0000

  /** In 32-bit arithmetic the page count is that of the range modulo the number of all pages. */
  lemma PageCount(va: Addr, len: Addr)
    ensures Pgnum(va) <= PageEnd(va, len)
    ensures (RoundUp((va + len) % 0x1_0000_0000) - RoundDown(va)) % 0x1_0000_0000 ==
      (PageEnd(va, len) - Pgnum(va)) % ALLPAGES * PGSIZE
  {
    hide RoundDown;
    var x := va + len + PGSIZE - 1;
    WrappedSum(va + len, PGSIZE - 1);
    RoundedDown(x);
    RoundedDown(va);
    CountModulo(x / PGSIZE - va / PGSIZE, x / 0x1_0000_0000);
    assert va / 0x1_0000_0000 == 0 && va % 0x1_0000_0000 == va;
  }

  lemma WrappedSum(a: nat, b: nat)
    ensures (a % 0x1_0000_0000 + b) % 0x1_0000_0000 == (a + b) % 0x1_0000_0000
  {
    var q := a / 0x1_0000_0000;
    assert a + b == q * 0x1_0000_0000 + (a % 0x1_0000_0000 + b);
  }

  lemma RoundedDown(x: nat)
    ensures RoundDown(x % 0x1_0000_0000) == x / PGSIZE * PGSIZE - x / 0x1_0000_0000 * 0x1_0000_0000
  {
    var q, r := x / 0x1_0000_0000, x % 0x1_0000_0000;
    assert x == q * 0x1_0000_0000 + r;
    assert x / PGSIZE == q * ALLPAGES + r / PGSIZE;
  }

  lemma CountModulo(n: int, turns: int)
    ensures (n * PGSIZE - turns * 0x1_0000_0000) % 0x1_0000_0000 == n % ALLPAGES * PGSIZE
  {
    var q := n / ALLPAGES;
    assert n == q * ALLPAGES + n % ALLPAGES;
    assert n * PGSIZE - turns * 0x1_0000_0000 == (q - turns) * 0x1_0000_0000 + n % ALLPAGES * PGSIZE;
    var small := n % ALLPAGES * PGSIZE;
    assert 0 <= small < 0x1_0000_0000;
  }

  /** What user_mem_check promises of a range: every page that it touches passes the test. */
  ghost predicate RangeAllowed(vm: Tables, d: nat, va: Addr, len: Addr, perm: Flags) {
    forall n: nat :: Pgnum(va) <= n < PageEnd(va, len) ==> PageAllows(vm, d, n, perm)
  }

  /** Some page of the range is not mapped, though all have entries. */
  ghost predicate SomeAbsent(vm: Tables, d: nat, va: Addr, len: Addr) {
    && (forall n: nat :: Pgnum(va) <= n < PageEnd(va, len) ==> HasEntry(vm, d, n))
    && (exists n: nat :: Pgnum(va) <= n < PageEnd(va, len) && !EntryOf(vm, d, n).flags.p)
  }

  /** For a whole range of such pages, leaving out PTE_P matters exactly for a perm of 0 when some page is absent. */
  lemma RangePresent(vm: Tables, d: nat, va: Addr, len: Addr, perm: Flags)
    requires forall n: nat :: Pgnum(va) <= n < PageEnd(va, len) ==> EmptyOrPresent(vm, d, n)
    ensures (RangeAllowed(vm, d, va, len, Present(perm)) <==> RangeAllowed(vm, d, va, len, perm))
      <==> !(perm == NOFLAGS && SomeAbsent(vm, d, va, len))
  {
    forall n: nat | Pgnum(va) <= n < PageEnd(va, len)
      ensures perm != NOFLAGS ==> (PageAllows(vm, d, n, Present(perm)) <==> PageAllows(vm, d, n, perm))
      ensures PageAllows(vm, d, n, NOFLAGS) <==> HasEntry(vm, d, n)
      ensures PageAllows(vm, d, n, Present(NOFLAGS)) <==> HasEntry(vm, d, n) && EntryOf(vm, d, n).flags.p
    {
      OnlyForNoFlags(vm, d, n, perm);
      OnlyForNoFlags(vm, d, n, NOFLAGS);
    }
    hide PageAllows;
    hide HasEntry;
    hide EntryOf;
    hide PageEnd;
  }

  /** The range has as many pages as there are, so that the count is 0, or one more and the one page tested passes. */
  predicate Overlooked(vm: Tables, d: nat, va: Addr, len: Addr, perm: Flags) {
    var n := PageEnd(va, len) - Pgnum(va);
    n == ALLPAGES || (n == ALLPAGES + 1 && PageAllows(vm, d, Pgnum(va), perm))
  }

  /** Page n of the range in the loop: as long as all before it pass, its address is below 2^32. */
  lemma NthPage(vm: Tables, d: nat, va: Addr, i: nat, perm: Flags)
    requires i > 0 ==> PageAllows(vm, d, Pgnum(va) + i - 1, perm)
    ensures var a := va + i * PGSIZE;
      a < 0x1_0000_0000 && Pgnum(a) == Pgnum(va) + i
      && Pdx(a) == Pgnum(a) / NPTENTRIES && Ptx(a) == Pgnum(a) % NPTENTRIES
      && (a < ULIM <==> Pdx(a) < PDX_ULIM)
  {
    hide Grants;
    hide Leaf;
    assert (va + i * PGSIZE) / PGSIZE == va / PGSIZE + i;
  }

  lemma RangeDecided(vm: Tables, d: nat, va: Addr, len: Addr, perm: Flags, tested: nat)
    requires tested == (PageEnd(va, len) - Pgnum(va)) % ALLPAGES
    requires forall n: nat :: Pgnum(va) <= n < Pgnum(va) + tested ==> PageAllows(vm, d, n, perm)
    ensures RangeAllowed(vm, d, va, len, perm) <==> !Overlooked(vm, d, va, len, perm)
  {
    var n := PageEnd(va, len) - Pgnum(va);
    assert 0 <= n <= ALLPAGES + 1;
    assert !PageAllows(vm, d, ALLPAGES - 1, perm);
    hide PageAllows;
    if n == ALLPAGES + 1 {
      assert PageAllows(vm, d, Pgnum(va), perm);
    }
    if n >= ALLPAGES {
      assert Pgnum(va) <= ALLPAGES - 1 < PageEnd(va, len);
    }
  }

  /**
    user_mem_check.  r is 0 or -E_FAULT; addr is user_mem_check_addr when it is set.  The answer is
    right exactly when the range is not overlooked.  An address it reports is va plus whole pages and
    lies in the first page that fails, and is the first erroneous address, as the comment promises,
    exactly when va is the start of a page or va's own page fails.
   */
  method UserMemCheck(vm: Tables, d: nat, va: Addr, len: Addr, perm: Flags) returns (r: int, addr: Addr)
    ensures r == 0 || r == -E_FAULT
    ensures (r == 0 <==> RangeAllowed(vm, d, va, len, perm)) <==> !Overlooked(vm, d, va, len, perm)
    ensures r != 0 ==>
      && Pgnum(va) <= Pgnum(addr) < PageEnd(va, len)
      && !PageAllows(vm, d, Pgnum(addr), perm)
      && (forall n: nat :: Pgnum(va) <= n < Pgnum(addr) ==> PageAllows(vm, d, n, perm))
      && addr == va + (Pgnum(addr) - Pgnum(va)) * PGSIZE
      && (len > 0 ==> (FirstErroneous(vm, d, va, len, perm, addr)
                       <==> va % PGSIZE == 0 || !PageAllows(vm, d, Pgnum(va), perm)))
  {
    addr := 0;
    var rawRange := (RoundUp((va + len) % 0x1_0000_0000) - RoundDown(va)) % 0x1_0000_0000;
    var numOfPages := rawRange / PGSIZE;
    PageCount(va, len);
    hide PageEnd;
    hide RoundUp;
    hide PageAllows;
    hide RangeAllowed;
    hide Overlooked;
    hide FirstErroneous;
    var i := 0;
    while i < numOfPages
      invariant 0 <= i <= numOfPages == (PageEnd(va, len) - Pgnum(va)) % ALLPAGES
      invariant forall n: nat :: Pgnum(va) <= n < Pgnum(va) + i ==> PageAllows(vm, d, n, perm)
    {
      NthPage(vm, d, va, i, perm);
      var currentVa: Addr := va + i * PGSIZE;
      PageTest(vm, d, currentVa, perm);
      if currentVa >= ULIM {
        Reported(vm, d, va, len, perm, currentVa);
        return -E_FAULT, currentVa;
      }
      var table := Walk(vm, d, Pdx(currentVa));
      if table == None {
        Reported(vm, d, va, len, perm, currentVa);
        return -E_FAULT, currentVa;
      }
      if !Grants(Get(vm, table.value, Ptx(currentVa)).flags, perm) {
        Reported(vm, d, va, len, perm, currentVa);
        return -E_FAULT, currentVa;
      }
      i := i + 1;
    }
    RangeDecided(vm, d, va, len, perm, numOfPages);
    return 0, addr;
  }

  /** The three tests of a turn of the loop are PageAllows. */
  lemma PageTest(vm: Tables, d: nat, va: Addr, perm: Flags)
    ensures PageAllows(vm, d, Pgnum(va), perm) <==>
      va < ULIM && Walk(vm, d, Pdx(va)).Some? && Grants(Get(vm, Walk(vm, d, Pdx(va)).value, Ptx(va)).flags, perm)
  {
    hide Grants;
    assert Pdx(va) == Pgnum(va) / NPTENTRIES && Ptx(va) == Pgnum(va) % NPTENTRIES;
  }

  /** a is the lowest address of the range that fails the test. */
  ghost predicate FirstErroneous(vm: Tables, d: nat, va: Addr, len: Addr, perm: Flags, a: Addr) {
    && va <= a < va + len && !PageAllows(vm, d, Pgnum(a), perm)
    && forall b: Addr :: va <= b < a ==> PageAllows(vm, d, Pgnum(b), perm)
  }

  /** At the first page that fails. */
  lemma Reported(vm: Tables, d: nat, va: Addr, len: Addr, perm: Flags, addr: Addr)
    requires Pgnum(va) <= Pgnum(addr) < Pgnum(va) + (PageEnd(va, len) - Pgnum(va)) % ALLPAGES
    requires addr == va + (Pgnum(addr) - Pgnum(va)) * PGSIZE
    requires !PageAllows(vm, d, Pgnum(addr), perm)
    requires forall n: nat :: Pgnum(va) <= n < Pgnum(addr) ==> PageAllows(vm, d, n, perm)
    ensures Pgnum(addr) < PageEnd(va, len) && !RangeAllowed(vm, d, va, len, perm) && !Overlooked(vm, d, va, len, perm)
    ensures len > 0 ==> (FirstErroneous(vm, d, va, len, perm, addr)
                         <==> va % PGSIZE == 0 || !PageAllows(vm, d, Pgnum(va), perm))
  {
    hide PageAllows;
    assert 0 <= PageEnd(va, len) - Pgnum(va) <= ALLPAGES + 1;
    if len > 0 {
      ReportedAddress(vm, d, va, len, perm, addr);
    }
  }

  lemma ReportedAddress(vm: Tables, d: nat, va: Addr, len: Addr, perm: Flags, addr: Addr)
    requires len > 0
    requires Pgnum(va) <= Pgnum(addr) < PageEnd(va, len) && addr == va + (Pgnum(addr) - Pgnum(va)) * PGSIZE
    requires !PageAllows(vm, d, Pgnum(addr), perm)
    requires forall n: nat :: Pgnum(va) <= n < Pgnum(addr) ==> PageAllows(vm, d, n, perm)
    ensures FirstErroneous(vm, d, va, len, perm, addr) <==> va % PGSIZE == 0 || !PageAllows(vm, d, Pgnum(va), perm)
  {
    hide PageAllows;
    var start: Addr := Pgnum(addr) * PGSIZE;
    assert start < va + len && Pgnum(start) == Pgnum(addr) && addr - start == va % PGSIZE;
    if addr != va && va % PGSIZE != 0 {
      assert va <= start < addr;
    }
  }

  /** A range whose rounded end is the end of memory has no page tested and is allowed, whatever is mapped. */
  lemma OverlookedExample(vm: Tables, d: nat, perm: Flags)
    ensures Overlooked(vm, d, 0, 0xFFFF_FFFF, perm) && !RangeAllowed(vm, d, 0, 0xFFFF_FFFF, perm)
  {
    assert PageEnd(0, 0xFFFF_FFFF) == ALLPAGES;
    assert !PageAllows(vm, d, ALLPAGES - 1, perm);
  }

  /** For a nonempty range those pages are exactly the pages that hold one of its bytes, counted past 2^32 too. */
  lemma PagesTouched(va: Addr, len: Addr, n: nat)
    requires len > 0
    ensures Pgnum(va) <= n < PageEnd(va, len) <==> exists a: nat :: va <= a < va + len && a / PGSIZE == n
  {
    if Pgnum(va) <= n < PageEnd(va, len) {
      var a: nat := if n == va / PGSIZE then va else n * PGSIZE;
      assert va <= a < va + len && a / PGSIZE == n;
    }
  }

  // ---- check_va2pa --------------------------------------------------------------------------

  const NOWHERE := 0xFFFF_FFFF

  function CheckVa2pa(vm: Tables, d: nat, va: Addr): nat {
    if !Get(vm, d, Pdx(va)).flags.p then NOWHERE
    else
      var entry := Get(vm, Get(vm, d, Pdx(va)).frame, Ptx(va));
      if !entry.flags.p then NOWHERE else entry.frame * PGSIZE
  }

  /** check_va2pa agrees with the MMU, up to the page offset, for every directory and address. */
  lemma CheckVa2paIsTheMmus(vm: Tables, d: nat, va: Addr)
    ensures var pa := CheckVa2pa(vm, d, va);
      && (pa != NOWHERE <==> Translate(vm, d, va).Some?)
      && (pa != NOWHERE ==> pa % PGSIZE == 0 && Translate(vm, d, va) == Some(pa + Pgoff(va)))
  {
  }

  /** Below UTOP it reads the flat map. */
  lemma CheckVa2paReadsMap(vm: Tables, e: nat, va: Addr)
    requires e in vm.dirs && va < UTOP
    ensures var v := VPage(Pdx(va), Ptx(va));
      CheckVa2pa(vm, vm.dirs[e], va) == if v in Mapping(vm, e) then Mapping(vm, e)[v].frame * PGSIZE else NOWHERE
  {
    assert VPage(Pdx(va), Ptx(va)) in UserPages();
  }
}
