/**
  Where the code falls short of its comments, runs of the kernel that lead to an input for which it
  does, each from any state that has enough free pages.
 */
module Limits {
  import opened Mmu
  import opened Vm
  import opened VmInvariant
  import opened VmSteps
  import opened PageTables
  import opened FlatMap
  import opened Teardown
  import opened Boot
  import opened Runs
  import opened AddressSpace
  import opened UserMemory
  import Loader

  lemma {:induction false} RunThen(s: State, a: seq<Op>, b: seq<Op>)
    requires LegalRun(s, a) && LegalRun(Run(s, a), b)
    ensures LegalRun(s, a + b) && Run(s, a + b) == Run(Run(s, a), b)
    decreases |a|
  {
    if a == [] {
      assert a + b == b;
    } else {
      assert (a + b)[0] == a[0] && (a + b)[1..] == a[1..] + b;
      RunThen(Apply(s, a[0]), a[1..], b);
    }
  }

  lemma OneStep(s: State, op: Op)
    requires Legal(s, op)
    ensures LegalRun(s, [op]) && Run(s, [op]) == Apply(s, op)
  {
    assert [op][1..] == [];
  }

  // ---- pp_ref -------------------------------------------------------------------------------

  /** Page p mapped at the user pages number k to n - 1 of environment e. */
  ghost function FillOps(e: nat, p: FrameNo, k: nat, n: nat): seq<Op>
    decreases n - k
  {
    if k >= n then [] else [Insert(e, p, PageOf(k).i, PageOf(k).j, PTE_PU)] + FillOps(e, p, k + 1, n)
  }

  function TablesFor(k: nat): nat {
    (k + NPTENTRIES - 1) / NPTENTRIES
  }

  /** Environment e maps its first k user pages, and no others, to page p, which has no other reference. */
  ghost predicate Filled(s: State, e: nat, p: FrameNo, k: nat) {
    && Inv(s) && e in s.vm.dirs && p < |s.refs| && p as nat !in s.free && s.refs[p] == k
    && (forall i: nat :: i < PDX_UTOP ==> (Walk(s.vm, s.vm.dirs[e], i).Some? <==> i < TablesFor(k)))
    && (forall i: nat, j: nat :: i < PDX_UTOP && j < NPTENTRIES ==>
          Leaf(s.vm, s.vm.dirs[e], i, j) == if i * NPTENTRIES + j < k then Word(p, Present(PTE_PU)) else ZERO)
  }

  lemma FillStep(s: State, e: nat, p: FrameNo, k: nat)
    requires Filled(s, e, p, k) && k < MAXREF && |s.free| + TablesFor(k) >= TablesFor(k + 1)
    ensures var op := Insert(e, p, PageOf(k).i, PageOf(k).j, PTE_PU); var s' := Apply(s, op);
      Legal(s, op) && Filled(s', e, p, k + 1) && |s'.free| + TablesFor(k + 1) == |s.free| + TablesFor(k)
  {
    hide InvWith;
    hide PageInsert;
    var v, d := PageOf(k), s.vm.dirs[e];
    NextTable(k);
    hide TablesFor;
    hide PageOf;
    RootFacts(s, multiset{}, e);
    PageInsertKeeps(s, multiset{}, e, p, v.i, v.j, PTE_PU);
    Loader.InsertSlots(s, e, p, v.i, v.j, PTE_PU);
    Loader.InsertFresh(s, d, p, v.i, v.j, PTE_PU, p);
    var s' := PageInsert(s, d, p, v.i, v.j, PTE_PU).0;
    assert forall i: nat :: i < PDX_UTOP && i != v.i ==> (Walk(s'.vm, d, i).Some? <==> Walk(s.vm, d, i).Some?);
  }

  /** Page number k lies in the last of the tables for k + 1 pages. */
  lemma NextTable(k: nat)
    ensures var v := PageOf(k);
      && v.j < NPTENTRIES && v.i * NPTENTRIES + v.j == k
      && TablesFor(k + 1) == v.i + 1 && TablesFor(k) == if v.j == 0 then v.i else v.i + 1
    ensures k < MAXREF ==> PageOf(k).i < PDX_UTOP
    ensures forall i: nat, j: nat :: j < NPTENTRIES && i * NPTENTRIES + j == k ==> VPage(i, j) == PageOf(k)
  {
  }

  lemma MoreTables(k: nat, n: nat)
    requires k <= n
    ensures TablesFor(k) <= TablesFor(n)
  {
  }

  lemma {:induction false} FillRun(s: State, e: nat, p: FrameNo, k: nat, n: nat)
    requires Filled(s, e, p, k) && k <= n <= MAXREF && |s.free| + TablesFor(k) >= TablesFor(n)
    ensures LegalRun(s, FillOps(e, p, k, n)) && Filled(Run(s, FillOps(e, p, k, n)), e, p, n)
    decreases n - k
  {
    hide Filled;
    hide TablesFor;
    if k < n {
      MoreTables(k + 1, n);
      FillStep(s, e, p, k);
      FillRun(Apply(s, Insert(e, p, PageOf(k).i, PageOf(k).j, PTE_PU)), e, p, k + 1, n);
      assert FillOps(e, p, k, n)[1..] == FillOps(e, p, k + 1, n);
    }
  }

  // ---- a new environment --------------------------------------------------------------------

  /** Setting up an environment takes the head of the free list, and leaves its user half without tables. */
  lemma NewSpace(s: State, e: nat)
    requires Inv(s) && e < NENV && e !in s.vm.dirs && s.free != []
    ensures var (s', ok) := EnvSetupVm(s, e);
      && ok && Inv(s') && e in s'.vm.dirs && s'.free == s.free[1..] && |s'.refs| == |s.refs|
      && Mapping(s'.vm, e) == map[] && forall i: nat :: i < PDX_UTOP ==> Get(s'.vm, s'.vm.dirs[e], i) == ZERO
  {
    hide Mapping;
    hide SameView;
    hide InvWith;
    EnvSetupKeeps(s, e);
    ZeroPageAlloc(s, multiset{});
    var s1 := PageAlloc(s, true).0;
    ShapeOfState(s1);
    KernelBelowUtop(s1.vm);
    hide Shape;
    hide Fresh;
    AddDirWords(s1.vm, e, s.free[0]);
    hide AddDir;
  }

  lemma KernelBelowUtop(vm: Tables)
    requires Shape(vm)
    ensures Located(vm) && Forest(vm) && vm.kdir < |vm.mem| <= MAXFRAMES
    ensures forall i: nat :: i < PDX_UTOP ==> Get(vm, vm.kdir, i) == ZERO
  {
  }

  /** Then page_alloc takes the next page for the environment's entries to map. */
  lemma NewPage(s: State, e: nat)
    requires Inv(s) && e in s.vm.dirs && s.free != []
    requires forall i: nat :: i < PDX_UTOP ==> Get(s.vm, s.vm.dirs[e], i) == ZERO
    ensures var (s', page) := PageAlloc(s, false);
      page == Some(s.free[0]) && s.free[0] < MAXFRAMES && Filled(s', e, s.free[0], 0) && s'.free == s.free[1..]
  {
    AllocKeeps(s, multiset{}, false);
    assert s.free[0] in s.free && s.free[0] !in s.free[1..];
    assert s.vm.kdir < |s.vm.mem| <= MAXFRAMES;
  }

  /** The two steps before the page is mapped. */
  lemma Prelude(s: State, e: nat)
    requires Inv(s) && e < NENV && e !in s.vm.dirs && |s.free| >= 2
    ensures var p := s.free[1]; var ops := [SetupVm(e), Alloc(false)];
      p < MAXFRAMES && LegalRun(s, ops) && Filled(Run(s, ops), e, p, 0) && Run(s, ops).free == s.free[2..]
  {
    hide InvWith;
    hide Mapping;
    hide Filled;
    NewSpace(s, e);
    hide EnvSetupVm;
    var s1 := EnvSetupVm(s, e).0;
    NewPage(s1, e);
    hide PageAlloc;
    OneStep(s1, Alloc(false));
    assert [SetupVm(e), Alloc(false)][1..] == [Alloc(false)];
  }

  /** From there, a legal run maps n pages, if there are enough tables for them. */
  lemma FilledByRun(s: State, e: nat, n: nat)
    requires Inv(s) && e < NENV && e !in s.vm.dirs && n <= MAXREF && |s.free| >= 2 + TablesFor(n)
    ensures s.free[1] < MAXFRAMES && exists ops :: LegalRun(s, ops) && Filled(Run(s, ops), e, s.free[1], n)
  {
    hide InvWith;
    hide LegalRun;
    hide Run;
    hide Filled;
    hide FillOps;
    var p, ops := s.free[1], [SetupVm(e), Alloc(false)];
    Prelude(s, e);
    FillRun(Run(s, ops), e, p, 0, n);
    RunThen(s, ops, FillOps(e, p, 0, n));
    assert LegalRun(s, ops + FillOps(e, p, 0, n));
  }

  /** The books are right and the counter of p is full; page_insert of p at page v succeeds, and they are wrong. */
  ghost predicate Overflows(s: State, e: nat, p: nat, v: VPage) {
    && Inv(s) && e in s.vm.dirs && p < MAXFRAMES && p < |s.refs| && s.refs[p] == MAXREF
    && var (s', ok) := PageInsert(s, s.vm.dirs[e], p, v.i, v.j, PTE_PU);
      ok && p < |s'.refs| && s'.refs[p] == 0 && !Inv(s')
  }

  /** One mapping too many. */
  lemma OneTooMany(s: State, e: nat, p: FrameNo)
    requires Filled(s, e, p, MAXREF)
    ensures Overflows(s, e, p, PageOf(MAXREF))
  {
    hide InvWith;
    var d := s.vm.dirs[e];
    assert PageOf(MAXREF) == VPage(63, 1023) && TablesFor(MAXREF) == 64;
    assert Walk(s.vm, d, 63).Some? && Leaf(s.vm, d, 63, 1023) == ZERO;
    RootFacts(s, multiset{}, e);
    TableInMemory(s, e, 63);
    WrapWords(s, d, Walk(s.vm, d, 63).value, p, 63, 1023, PTE_PU);
    hide Install;
    InstallWraps(s, e, p, 63, 1023, PTE_PU);
  }

  /**
    65536 mappings of one page.  With 66 free pages (a directory, the page, and 64 tables) a legal run
    takes its counter to 65535, and then page_insert still succeeds and leaves a count of 0.
   */
  lemma CounterWraps(s: State, e: nat)
    requires Inv(s) && e < NENV && e !in s.vm.dirs && |s.free| >= 66
    ensures exists ops :: LegalRun(s, ops) && Overflows(Run(s, ops), e, s.free[1], PageOf(MAXREF))
  {
    hide InvWith;
    hide LegalRun;
    hide Run;
    hide PageInsert;
    hide Filled;
    hide Overflows;
    FilledByRun(s, e, MAXREF);
    var ops :| LegalRun(s, ops) && Filled(Run(s, ops), e, s.free[1], MAXREF);
    OneTooMany(Run(s, ops), e, s.free[1]);
  }

  // ---- region_alloc -------------------------------------------------------------------------

  ghost function AllocOps(n: nat): seq<Op> {
    if n == 0 then [] else [Alloc(false)] + AllocOps(n - 1)
  }

  /** The free list can be made as short as one likes. */
  lemma {:induction false} AllocRun(s: State, n: nat)
    requires Inv(s) && n <= |s.free|
    ensures LegalRun(s, AllocOps(n))
    ensures var s' := Run(s, AllocOps(n)); Inv(s') && s'.free == s.free[n..] && s'.vm == s.vm
    decreases n
  {
    hide Inv;
    if n > 0 {
      StepKeeps(s, Alloc(false));
      AllocRun(Apply(s, Alloc(false)), n - 1);
      assert AllocOps(n)[1..] == AllocOps(n - 1);
    }
  }

  /**
    The one case without a panic.  With two free pages left, a new environment takes one of them; then
    region_alloc of any single user page returns, and the page is not mapped.
   */
  lemma RegionReturns(s: State, e: nat, n: nat)
    requires Inv(s) && e < NENV && e !in s.vm.dirs && |s.free| >= 2 && n < PDX_UTOP * NPTENTRIES
    ensures var ops := AllocOps(|s.free| - 2) + [SetupVm(e)];
      && LegalRun(s, ops)
      && var s' := Run(s, ops);
        && e in s'.vm.dirs
        && var r := Loader.RegionAlloc(s', s'.vm.dirs[e], n, n + 1);
          r.Some? && e in r.value.vm.dirs && PageOf(n) !in Mapping(r.value.vm, e)
  {
    hide InvWith;
    hide LegalRun;
    hide Run;
    AllocRun(s, |s.free| - 2);
    var s1 := Run(s, AllocOps(|s.free| - 2));
    OneStep(s1, SetupVm(e));
    RunThen(s, AllocOps(|s.free| - 2), [SetupVm(e)]);
    NewSpace(s1, e);
    hide EnvSetupVm;
    hide Mapping;
    RegionFails(EnvSetupVm(s1, e).0, e, n);
  }

  lemma RegionFails(s: State, e: nat, n: nat)
    requires Inv(s) && e in s.vm.dirs && Mapping(s.vm, e) == map[] && |s.free| == 1
    requires n < PDX_UTOP * NPTENTRIES && Walk(s.vm, s.vm.dirs[e], PageOf(n).i).None?
    ensures var r := Loader.RegionAlloc(s, s.vm.dirs[e], n, n + 1);
      r.Some? && e in r.value.vm.dirs && PageOf(n) !in Mapping(r.value.vm, e)
  {
  }

  // ---- user_mem_check -----------------------------------------------------------------------

  /** A table without entries: for each of its pages a perm of 0 is granted, and with PTE_P it is not. */
  lemma AbsentPageGranted(s: State, e: nat, n: nat)
    requires Inv(s) && e < NENV && e !in s.vm.dirs && |s.free| >= 2 && n < PDX_UTOP * NPTENTRIES
    ensures var ops := [SetupVm(e), WalkTo(e, n / NPTENTRIES)];
      && LegalRun(s, ops)
      && var s' := Run(s, ops);
        && e in s'.vm.dirs
        && PageAllows(s'.vm, s'.vm.dirs[e], n, NOFLAGS) && !PageAllows(s'.vm, s'.vm.dirs[e], n, Present(NOFLAGS))
  {
    hide InvWith;
    hide Mapping;
    var i := n / NPTENTRIES;
    NewSpace(s, e);
    hide EnvSetupVm;
    var s1 := EnvSetupVm(s, e).0;
    var d := s1.vm.dirs[e];
    WalkCreateKeeps(s1, multiset{}, e, i);
    assert Leaf(s1.vm, d, i, n % NPTENTRIES) == ZERO;
    hide WalkCreate;
    OneStep(s1, WalkTo(e, i));
    assert [SetupVm(e), WalkTo(e, i)][1..] == [WalkTo(e, i)];
    ContainsNone(0);
  }

  /** The windows that mem_init maps stay in place over every run. */
  lemma WindowsStay(s: State, ops: seq<Op>, pagesFrame: nat, envsFrame: nat, stackFrame: nat)
    requires Inv(s) && KernelWindows(s.vm, pagesFrame, envsFrame, stackFrame)
    requires LegalRun(s, ops) && forall op :: op in ops ==> !op.MapKernel?
    ensures KernelWindows(Run(s, ops).vm, pagesFrame, envsFrame, stackFrame)
  {
    hide Inv;
    RunKeepsKernel(s, ops);
  }

  /** With them, every page below ULIM has an entry that is empty or present. */
  lemma WindowEntries(vm: Tables, e: nat, n: nat, pagesFrame: nat, envsFrame: nat, stackFrame: nat)
    requires Shape(vm) && e in vm.dirs && KernelWindows(vm, pagesFrame, envsFrame, stackFrame)
    ensures EmptyOrPresent(vm, vm.dirs[e], n)
  {
    var i := n / NPTENTRIES;
    if i < PDX_ULIM {
      if KernSlot(i) {
        assert Get(vm, vm.dirs[e], i) == Get(vm, vm.kdir, i);
        assert Leaf(vm, vm.kdir, i, n % NPTENTRIES).flags.p;
      } else {
        UserEmptyOrPresent(vm, e, n);
      }
    }
  }

  /**
    In every state after mem_init, for every environment and page: leaving out PTE_P matters exactly
    for a perm of 0 and a page below ULIM that has a table and is not mapped; and for every range
    exactly for a perm of 0 when all pages are below ULIM and have tables and some are not mapped.
   */
  lemma PresentMatters(s: State, ops: seq<Op>, e: nat, n: nat, va: Addr, len: Addr, perm: Flags,
                       pagesFrame: nat, envsFrame: nat, stackFrame: nat)
    requires Inv(s) && KernelWindows(s.vm, pagesFrame, envsFrame, stackFrame)
    requires LegalRun(s, ops) && (forall op :: op in ops ==> !op.MapKernel?) && e in Run(s, ops).vm.dirs
    ensures var vm := Run(s, ops).vm; var d := vm.dirs[e];
      && ((PageAllows(vm, d, n, Present(perm)) <==> PageAllows(vm, d, n, perm))
          <==> !(HasEntry(vm, d, n) && perm == NOFLAGS && !EntryOf(vm, d, n).flags.p))
      && ((RangeAllowed(vm, d, va, len, Present(perm)) <==> RangeAllowed(vm, d, va, len, perm))
          <==> !(perm == NOFLAGS && SomeAbsent(vm, d, va, len)))
  {
    hide InvWith;
    hide KernelWindows;
    hide PageAllows;
    hide RangeAllowed;
    hide SomeAbsent;
    hide EmptyOrPresent;
    RunKeeps(s, ops);
    WindowsStay(s, ops, pagesFrame, envsFrame, stackFrame);
    var vm := Run(s, ops).vm;
    ShapeOfState(Run(s, ops));
    forall m: nat ensures EmptyOrPresent(vm, vm.dirs[e], m) {
      WindowEntries(vm, e, m, pagesFrame, envsFrame, stackFrame);
    }
    OnlyForNoFlags(vm, vm.dirs[e], n, perm);
    RangePresent(vm, vm.dirs[e], va, len, perm);
  }

  // ---- the rights of the directory slot -----------------------------------------------------

  /** The test looks at the entry alone.  This is the page of the self-map that shows a table, asked for writing. */
  predicate SelfMapWrite(vm: Tables, d: nat, n: nat, perm: Flags) {
    && n / NPTENTRIES == PDX_UVPT && n % NPTENTRIES != PDX_UVPT && Walk(vm, d, n % NPTENTRIES).Some?
    && perm.w && perm.avl == 0
  }

  /** With the windows in place the test is the MMU's for every page there is, except exactly for those. */
  lemma TestIsTheMmusBut(vm: Tables, e: nat, n: nat, perm: Flags, pagesFrame: nat, envsFrame: nat, stackFrame: nat)
    requires Shape(vm) && e in vm.dirs && KernelWindows(vm, pagesFrame, envsFrame, stackFrame)
    requires n < 0x10_0000 && perm.u
    ensures var d, i, j := vm.dirs[e], n / NPTENTRIES, n % NPTENTRIES;
      (PageAllows(vm, d, n, perm) <==>
        UserAccess(vm, d, i, j, perm.w) && Contains(Leaf(vm, d, i, j).flags.avl, perm.avl))
      <==> !SelfMapWrite(vm, d, n, perm)
  {
    var d, i, j := vm.dirs[e], n / NPTENTRIES, n % NPTENTRIES;
    if i < PDX_UTOP {
      TestIsTheMmus(vm, e, n, perm);
    } else if i == PDX_UVPT {
      SelfMapTest(vm, e, n, perm);
    } else {
      assert Get(vm, d, i) == Get(vm, vm.kdir, i);
      WindowRights(vm, n, pagesFrame, envsFrame, stackFrame);
      hide Contains;
    }
  }

  /** Above UTOP but for the self-map: readable below ULIM, and not for users above. */
  lemma WindowRights(vm: Tables, n: nat, pagesFrame: nat, envsFrame: nat, stackFrame: nat)
    requires Shape(vm) && KernelWindows(vm, pagesFrame, envsFrame, stackFrame)
    requires KernSlot(n / NPTENTRIES)
    ensures var i, j := n / NPTENTRIES, n % NPTENTRIES; var w, pde := Leaf(vm, vm.kdir, i, j), Get(vm, vm.kdir, i);
      && (pde == ZERO || pde.flags == PTE_PWU) && (w.flags == NOFLAGS || w.flags.p)
      && (i < PDX_ULIM ==> !w.flags.w) && (i >= PDX_ULIM ==> !w.flags.u)
  {
  }

  lemma SelfMapTest(vm: Tables, e: nat, n: nat, perm: Flags)
    requires Shape(vm) && e in vm.dirs && n / NPTENTRIES == PDX_UVPT && perm.u
    ensures var d, i, j := vm.dirs[e], n / NPTENTRIES, n % NPTENTRIES;
      (PageAllows(vm, d, n, perm) <==>
        UserAccess(vm, d, i, j, perm.w) && Contains(Leaf(vm, d, i, j).flags.avl, perm.avl))
      <==> !SelfMapWrite(vm, d, n, perm)
  {
    var d, j := vm.dirs[e], n % NPTENTRIES;
    RootMapsItself(vm, d);
    if KernSlot(j) {
      assert Get(vm, d, j) == Get(vm, vm.kdir, j);
    }
    assert Leaf(vm, d, PDX_UVPT, j) == Get(vm, d, j);
    assert j != PDX_UVPT ==> Get(vm, d, j) == ZERO || Get(vm, d, j).flags == PTE_PWU;
    NoneContains(perm.avl);
    hide Contains;
  }

  /** There always is such a page: the one that shows the table of the UPAGES window. */
  lemma SelfMapWriteGranted(s: State, ops: seq<Op>, e: nat, pagesFrame: nat, envsFrame: nat, stackFrame: nat)
    requires Inv(s) && KernelWindows(s.vm, pagesFrame, envsFrame, stackFrame)
    requires LegalRun(s, ops) && (forall op :: op in ops ==> !op.MapKernel?) && e in Run(s, ops).vm.dirs
    ensures var vm := Run(s, ops).vm; var d, perm := vm.dirs[e], Flags(true, true, true, 0);
      && PageAllows(vm, d, 0xE_F7BC, perm)
      && !UserAccess(vm, d, Pdx(0xEF7B_C000), Ptx(0xEF7B_C000), true)
  {
    hide InvWith;
    RunKeeps(s, ops);
    WindowsStay(s, ops, pagesFrame, envsFrame, stackFrame);
    ShapeOfState(Run(s, ops));
    var vm := Run(s, ops).vm;
    hide Run;
    hide LegalRun;
    RootMapsItself(vm, vm.dirs[e]);
    assert Leaf(vm, vm.kdir, PDX_UPAGES, 0).flags.p;
    assert Get(vm, vm.dirs[e], PDX_UPAGES) == Get(vm, vm.kdir, PDX_UPAGES);
    ContainsNone(0);
    hide Contains;
  }

  // ---- user_mem_check_addr ------------------------------------------------------------------

  /**
    For PGSIZE bytes from address 1, page 0 passes and page 1 fails; 1 + PGSIZE is reported, and PGSIZE is
    the first erroneous address.
   */
  ghost predicate Misreported(vm: Tables, d: nat) {
    && PageAllows(vm, d, 0, PTE_U) && !PageAllows(vm, d, 1, PTE_U)
    && FirstErroneous(vm, d, 1, PGSIZE, PTE_U, PGSIZE) && !FirstErroneous(vm, d, 1, PGSIZE, PTE_U, PGSIZE + 1)
  }

  /** Three free pages (a directory, a page and a table) are enough for it. */
  lemma SecondPageMisreported(s: State, e: nat)
    requires Inv(s) && e < NENV && e !in s.vm.dirs && |s.free| >= 3
    ensures exists ops ::
      LegalRun(s, ops) && e in Run(s, ops).vm.dirs && Misreported(Run(s, ops).vm, Run(s, ops).vm.dirs[e])
  {
    hide InvWith;
    hide LegalRun;
    hide Run;
    hide Filled;
    hide Misreported;
    assert TablesFor(1) == 1;
    FilledByRun(s, e, 1);
    var ops :| LegalRun(s, ops) && Filled(Run(s, ops), e, s.free[1], 1);
    OnePageMapped(Run(s, ops), e, s.free[1]);
  }

  lemma OnePageMapped(s: State, e: nat, p: FrameNo)
    requires Filled(s, e, p, 1)
    ensures e in s.vm.dirs && Misreported(s.vm, s.vm.dirs[e])
  {
    hide InvWith;
    ContainsNone(0);
    hide Contains;
    var d := s.vm.dirs[e];
    assert Leaf(s.vm, d, 0, 0) == Word(p, Present(PTE_PU)) && Leaf(s.vm, d, 0, 1) == ZERO;
    assert PageAllows(s.vm, d, 0, PTE_U) && !PageAllows(s.vm, d, 1, PTE_U);
    hide PageAllows;
    forall b: Addr | b < PGSIZE ensures PageAllows(s.vm, d, Pgnum(b), PTE_U) {
    }
  }
}
