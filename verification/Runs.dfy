/**
  Whole runs of the memory system after page_init: any sequence of operations, each called as its
  comment in the source demands.
 */
module Runs {
  import opened Mmu
  import opened Vm
  import opened VmInvariant
  import opened VmSteps
  import opened PageTables
  import opened Teardown
  import opened Boot
  import FreeListSplit

  datatype Op =
    | Alloc(zero: bool)
    | Free(q: nat)
    | MapKernel(vp: nat, n: nat, pf: FrameNo, perm: Flags)
    | SetupVm(e: nat)
    | WalkTo(e: nat, i: nat)
    | Insert(e: nat, p: FrameNo, i: nat, j: nat, perm: Flags)
    | Remove(e: nat, i: nat, j: nat)
    | Teardown(e: nat)
    | DataStore(f: nat, page: Page)
    | LowPagesFirst

  /**
    What the callers of each operation owe: page_free is given a page that was handed out and not
    inserted since; a page that is inserted is not on the free list and its 16-bit counter has room;
    the kernel's half is mapped before the first environment, and with enough pages for its tables.
    Stores between the operations, by programs or the kernel, go to pages that are no directories or tables.
    check_page_free_list, which moves low pages to the front, panics on an empty list.
   */
  ghost predicate Legal(s: State, op: Op) {
    match op
    case Alloc(_) => true
    case Free(q) => q in s.handed
    case MapKernel(vp, n, pf, perm) =>
      s.vm.dirs == map[] && vp < VPAGES && KernRange(vp, n) && Need(s.vm, vp, n) <= |s.free|
    case SetupVm(e) => e < NENV && e !in s.vm.dirs
    case WalkTo(e, i) => e in s.vm.dirs && i < PDX_UTOP
    case Insert(e, p, i, j, perm) =>
      && e in s.vm.dirs && i < PDX_UTOP && j < NPTENTRIES
      && p < |s.refs| && p as nat !in s.free && s.refs[p] < MAXREF
    case Remove(e, i, j) => e in s.vm.dirs && i < PDX_UTOP && j < NPTENTRIES
    case Teardown(e) => e in s.vm.dirs
    case DataStore(f, _) => Plain(s.vm, f)
    case LowPagesFirst => s.free != []
  }

  ghost function Apply(s: State, op: Op): State
    requires Legal(s, op)
  {
    match op
    case Alloc(zero) => PageAlloc(s, zero).0
    case Free(q) => PageFree(s, q)
    case MapKernel(vp, n, pf, perm) => (match BootMap(s, vp, n, pf, perm) case Some(s') => s' case None => s)
    case SetupVm(e) => EnvSetupVm(s, e).0
    case WalkTo(e, i) => WalkCreate(s, s.vm.dirs[e], i).0
    case Insert(e, p, i, j, perm) => PageInsert(s, s.vm.dirs[e], p, i, j, perm).0
    case Remove(e, i, j) => PageRemove(s, s.vm.dirs[e], i, j)
    case Teardown(e) => EnvFree(s, e)
    case DataStore(f, page) => s.(vm := SetPage(s.vm, f, page))
    case LowPagesFirst => s.(free := FreeListSplit.Partition(s.free))
  }

  /** Another order of the free list, with the same pages. */
  lemma PartitionKeeps(s: State)
    requires Inv(s)
    ensures Inv(s.(free := FreeListSplit.Partition(s.free)))
  {
    hide Shape;
    hide Count;
    FreeListSplit.SidesNoDup(s.free);
    assert forall p :: p in FreeListSplit.Partition(s.free) <==> p in s.free;
  }

  lemma StepKeeps(s: State, op: Op)
    requires Inv(s) && Legal(s, op)
    ensures Inv(Apply(s, op))
  {
    hide InvWith;
    match op
    case Alloc(zero) => AllocKeeps(s, multiset{}, zero);
    case Free(q) => FreeKeeps(s, multiset{}, q);
    case MapKernel(vp, n, pf, perm) => BootMapExact(s, vp, n, pf, perm);
    case SetupVm(e) => EnvSetupKeeps(s, e);
    case WalkTo(e, i) => WalkCreateKeeps(s, multiset{}, e, i);
    case Insert(e, p, i, j, perm) => PageInsertKeeps(s, multiset{}, e, p, i, j, perm);
    case Remove(e, i, j) => PageRemoveKeeps(s, multiset{}, e, i, j);
    case Teardown(e) => EnvFreeKeeps(s, e);
    case DataStore(f, page) => DataWriteKeeps(s, multiset{}, f, page);
    case LowPagesFirst => PartitionKeeps(s);
  }

  lemma StepBase(s: State, op: Op)
    requires Inv(s) && Legal(s, op)
    ensures Apply(s, op).base == s.base
  {
    hide InvWith;
    if op.MapKernel? {
      BootMapExact(s, op.vp, op.n, op.pf, op.perm);
    }
  }

  // ---- runs ---------------------------------------------------------------------------------

  ghost predicate LegalRun(s: State, ops: seq<Op>)
    decreases |ops|
  {
    ops == [] || (Legal(s, ops[0]) && LegalRun(Apply(s, ops[0]), ops[1..]))
  }

  ghost function Run(s: State, ops: seq<Op>): State
    requires LegalRun(s, ops)
    decreases |ops|
  {
    if ops == [] then s else Run(Apply(s, ops[0]), ops[1..])
  }

  lemma {:induction false} RunKeeps(s: State, ops: seq<Op>)
    requires Inv(s) && LegalRun(s, ops)
    ensures Inv(Run(s, ops)) && Run(s, ops).base == s.base
    decreases |ops|
  {
    hide Inv;
    if ops != [] {
      StepKeeps(s, ops[0]);
      StepBase(s, ops[0]);
      RunKeeps(Apply(s, ops[0]), ops[1..]);
    }
  }

  /**
    In every state that page_init and any legal run lead to: each counter is the page's boot
    reference plus the number of sites that refer to it; the free list has no duplicates and holds
    exactly the allocatable pages that nobody refers to and that are not handed out; and the
    directories and tables form a forest whose part above UTOP is the kernel's.
   */
  lemma EveryReachableState(mem: seq<Page>, kdir: nat, npagesBasemem: nat, firstFree: nat, ops: seq<Op>)
    requires BareKernDir(mem, kdir) && Reserved(kdir, npagesBasemem, firstFree)
    requires LegalRun(PageInit(mem, kdir, npagesBasemem, firstFree), ops)
    ensures var s := Run(PageInit(mem, kdir, npagesBasemem, firstFree), ops);
      && |s.refs| == |mem|
      && (forall p: nat :: p < |mem| ==>
            s.refs[p] == Count(s.vm, p) + if Reserved(p, npagesBasemem, firstFree) then 1 else 0)
      && NoDup(s.free)
      && (forall p: nat :: p < |mem| ==>
            (p in s.free <==> !Reserved(p, npagesBasemem, firstFree) && Count(s.vm, p) == 0 && p !in s.handed))
      && Located(s.vm) && Forest(s.vm) && KernelShared(s.vm)
  {
    PageInitInv(mem, kdir, npagesBasemem, firstFree);
    var s0 := PageInit(mem, kdir, npagesBasemem, firstFree);
    RunKeeps(s0, ops);
    hide Forest;
    hide Located;
    hide KernelShared;
    hide UserEntries;
    hide Count;
    hide Run;
  }

  /** Over every run page 0, the I/O hole, and what boot_alloc has given out are never free and never handed out. */
  lemma BootPagesStay(mem: seq<Page>, kdir: nat, npagesBasemem: nat, firstFree: nat, ops: seq<Op>, p: nat)
    requires BareKernDir(mem, kdir) && Reserved(kdir, npagesBasemem, firstFree)
    requires LegalRun(PageInit(mem, kdir, npagesBasemem, firstFree), ops)
    requires npagesBasemem * 4096 <= 0xA_0000 && 0x10_0000 <= firstFree
    requires p < |mem| && (p == 0 || 0xA_0000 <= 4096 * p < firstFree)
    ensures var s := Run(PageInit(mem, kdir, npagesBasemem, firstFree), ops);
      p !in s.free && p !in s.handed && p < |s.refs| && s.refs[p] >= 1
  {
    PageInitInv(mem, kdir, npagesBasemem, firstFree);
    PageInitExact(mem, kdir, npagesBasemem, firstFree, p);
    var s0 := PageInit(mem, kdir, npagesBasemem, firstFree);
    RunKeeps(s0, ops);
    InUseForGood(Run(s0, ops), p);
  }

  lemma InUseForGood(s: State, p: nat)
    requires Inv(s) && p < |s.base| && s.base[p] > 0
    ensures p !in s.free && p !in s.handed && p < |s.refs| && s.refs[p] >= 1
  {
  }

  /** Nothing leaks: with no environment left and nothing handed out, only boot pages and kernel tables are in use. */
  lemma NoLeak(s: State, p: nat)
    requires Inv(s) && s.vm.dirs == map[] && s.handed == {} && p < |s.refs|
    ensures p in s.free <==> s.base[p] == 0 && forall i :: KernSlot(i) ==> Walk(s.vm, s.vm.kdir, i) != Some(p)
  {
    if s.base[p] == 0 && s.refs[p] == 0 {
      FreshPage(s, multiset{}, p);
      forall i | KernSlot(i) ensures Walk(s.vm, s.vm.kdir, i) != Some(p) {
        assert Target(s.vm, KernPde(i)) != Some(p);
      }
    } else if s.base[p] == 0 {
      assert RefsAmong(Universe(), s.vm, p) != {};
      var x :| x in RefsAmong(Universe(), s.vm, p);
      assert x.KernPde?;
    }
  }

  // ---- isolation ----------------------------------------------------------------------------

  /** The environment whose address space an operation is about. */
  function OpEnv(op: Op): Option<nat> {
    match op
    case Alloc(_) => None
    case Free(_) => None
    case MapKernel(_, _, _, _) => None
    case SetupVm(e) => Some(e)
    case WalkTo(e, _) => Some(e)
    case Insert(e, _, _, _, _) => Some(e)
    case Remove(e, _, _) => Some(e)
    case Teardown(e) => Some(e)
    case DataStore(_, _) => None
    case LowPagesFirst => None
  }

  /** Once the kernel's half is mapped, an operation leaves every address space alone but the one it is about. */
  lemma StepView(s: State, op: Op, r: nat)
    requires Inv(s) && Legal(s, op) && !op.MapKernel? && IsRoot(s.vm, r)
    requires OpEnv(op).Some? && OpEnv(op).value in s.vm.dirs ==> s.vm.dirs[OpEnv(op).value] != r
    ensures SameView(s.vm, Apply(s, op).vm, r) && Apply(s, op).vm.kdir == s.vm.kdir
  {
    hide InvWith;
    hide SameView;
    hide PageAlloc;
    hide PageInsert;
    hide PageRemove;
    hide WalkCreate;
    hide EnvFree;
    hide EnvSetupVm;
    hide Shape;
    hide Plain;
    ShapeOfState(s);
    SameMemView(s.vm, r);
    match op
    case Alloc(zero) => AllocView(s, zero, r);
    case Free(q) =>
    case SetupVm(e) => EnvSetupKeeps(s, e);
    case WalkTo(e, i) => WalkView(s, e, i, r);
    case Insert(e, p, i, j, perm) => InsertView(s, e, p, i, j, perm, r);
    case Remove(e, i, j) => RemoveView(s, e, i, j, r);
    case Teardown(e) => EnvFreeKeeps(s, e);
    case DataStore(f, page) => PlainView(s.vm, f, page, r);
    case LowPagesFirst =>
  }

  lemma AllocView(s: State, zero: bool, r: nat)
    requires Inv(s) && IsRoot(s.vm, r)
    ensures var vm' := PageAlloc(s, zero).0.vm; SameView(s.vm, vm', r) && vm'.kdir == s.vm.kdir
  {
    hide InvWith;
    hide SameView;
    SameMemView(s.vm, r);
    if zero {
      ZeroPageAlloc(s, multiset{});
    }
  }

  lemma WalkView(s: State, e: nat, i: nat, r: nat)
    requires Inv(s) && e in s.vm.dirs && i < PDX_UTOP && IsRoot(s.vm, r) && s.vm.dirs[e] != r
    ensures var vm' := WalkCreate(s, s.vm.dirs[e], i).0.vm; SameView(s.vm, vm', r) && vm'.kdir == s.vm.kdir
  {
    hide InvWith;
    hide NoEdit;
    hide WalkCreate;
    WalkCreateKeeps(s, multiset{}, e, i);
    NoEditView(s.vm, WalkCreate(s, s.vm.dirs[e], i).0.vm, s.vm.dirs[e], r);
  }

  lemma InsertView(s: State, e: nat, p: FrameNo, i: nat, j: nat, perm: Flags, r: nat)
    requires Inv(s) && e in s.vm.dirs && i < PDX_UTOP && j < NPTENTRIES && IsRoot(s.vm, r) && s.vm.dirs[e] != r
    requires p < |s.refs| && p as nat !in s.free && s.refs[p] < MAXREF
    ensures var vm' := PageInsert(s, s.vm.dirs[e], p, i, j, perm).0.vm;
      SameView(s.vm, vm', r) && vm'.kdir == s.vm.kdir
  {
    hide InvWith;
    hide Edit;
    hide SameView;
    hide PageInsert;
    SameMemView(s.vm, r);
    var (s', ok) := PageInsert(s, s.vm.dirs[e], p, i, j, perm);
    PageInsertKeeps(s, multiset{}, e, p, i, j, perm);
    if ok {
      EditView(s.vm, s'.vm, s.vm.dirs[e], i, j, Word(p, Present(perm)), r);
    }
  }

  lemma RemoveView(s: State, e: nat, i: nat, j: nat, r: nat)
    requires Inv(s) && e in s.vm.dirs && i < PDX_UTOP && j < NPTENTRIES && IsRoot(s.vm, r) && s.vm.dirs[e] != r
    ensures var vm' := PageRemove(s, s.vm.dirs[e], i, j).vm; SameView(s.vm, vm', r) && vm'.kdir == s.vm.kdir
  {
    hide InvWith;
    hide Edit;
    hide PageRemove;
    PageRemoveKeeps(s, multiset{}, e, i, j);
    EditView(s.vm, PageRemove(s, s.vm.dirs[e], i, j).vm, s.vm.dirs[e], i, j, ZERO, r);
  }

  lemma ShapeOfState(s: State)
    requires Inv(s)
    ensures Shape(s.vm)
  {
  }

  lemma NoEditView(vm: Tables, vm': Tables, d: nat, r: nat)
    requires NoEdit(vm, vm', d) && IsRoot(vm, r) && r != d
    ensures SameView(vm, vm', r) && vm'.kdir == vm.kdir
  {
  }

  lemma EditView(vm: Tables, vm': Tables, d: nat, i: nat, j: nat, w: Word, r: nat)
    requires Edit(vm, vm', d, i, j, w) && IsRoot(vm, r) && r != d
    ensures SameView(vm, vm', r) && vm'.kdir == vm.kdir
  {
  }

  /** An operation about one environment leaves every other one, and its translations, alone. */
  lemma StepIsolates(s: State, op: Op, e: nat)
    requires Inv(s) && Legal(s, op)
    requires e in s.vm.dirs && OpEnv(op) != Some(e)
    ensures var s' := Apply(s, op);
      e in s'.vm.dirs && s'.vm.dirs[e] == s.vm.dirs[e] && SameView(s.vm, s'.vm, s.vm.dirs[e])
  {
    RootFacts(s, multiset{}, e);
    hide InvWith;
    hide SameView;
    assert IsRoot(s.vm, s.vm.dirs[e]);
    StepView(s, op, s.vm.dirs[e]);
    StepDirs(s, op, e);
  }

  lemma StepDirs(s: State, op: Op, e: nat)
    requires Inv(s) && Legal(s, op) && e in s.vm.dirs && OpEnv(op) != Some(e)
    ensures e in Apply(s, op).vm.dirs && Apply(s, op).vm.dirs[e] == s.vm.dirs[e]
  {
    hide InvWith;
    hide SameView;
    hide OthersSame;
    hide PageInsert;
    hide PageRemove;
    hide WalkCreate;
    hide EnvFree;
    hide EnvSetupVm;
    match op
    case SetupVm(e') => EnvSetupKeeps(s, e');
    case WalkTo(e', i) => WalkCreateKeeps(s, multiset{}, e', i);
    case Insert(e', p, i, j, perm) => PageInsertKeeps(s, multiset{}, e', p, i, j, perm);
    case Remove(e', i, j) => PageRemoveKeeps(s, multiset{}, e', i, j);
    case Teardown(e') => EnvFreeKeeps(s, e');
    case _ =>
  }

  lemma SameMemView(vm: Tables, r: nat)
    ensures SameView(vm, vm, r)
  {
  }

  /** Over any run that leaves environment e alone, e's whole address space stays as it was. */
  lemma {:induction false} RunIsolates(s: State, ops: seq<Op>, e: nat)
    requires Inv(s) && LegalRun(s, ops) && e in s.vm.dirs
    requires forall op :: op in ops ==> OpEnv(op) != Some(e)
    ensures var s' := Run(s, ops);
      e in s'.vm.dirs && s'.vm.dirs[e] == s.vm.dirs[e] && SameView(s.vm, s'.vm, s.vm.dirs[e])
    decreases |ops|
  {
    hide Inv;
    if ops != [] {
      StepIsolates(s, ops[0], e);
      StepKeeps(s, ops[0]);
      RunIsolates(Apply(s, ops[0]), ops[1..], e);
    }
  }

  /** And over any run after the kernel's half has been mapped, that half stays as it was. */
  lemma {:induction false} RunKeepsKernel(s: State, ops: seq<Op>)
    requires Inv(s) && LegalRun(s, ops) && forall op :: op in ops ==> !op.MapKernel?
    ensures var s' := Run(s, ops); s'.vm.kdir == s.vm.kdir && SameView(s.vm, s'.vm, s.vm.kdir)
    decreases |ops|
  {
    hide Inv;
    hide SameView;
    if ops != [] {
      StepKeeps(s, ops[0]);
      KernelNotAnEnv(s, ops[0]);
      StepView(s, ops[0], s.vm.kdir);
      RunKeepsKernel(Apply(s, ops[0]), ops[1..]);
      ViewThenView(s.vm, Apply(s, ops[0]).vm, Run(s, ops).vm, s.vm.kdir);
    } else {
      SameMemView(s.vm, s.vm.kdir);
    }
  }

  lemma KernelNotAnEnv(s: State, op: Op)
    requires Inv(s)
    ensures IsRoot(s.vm, s.vm.kdir)
    ensures OpEnv(op).Some? && OpEnv(op).value in s.vm.dirs ==> s.vm.dirs[OpEnv(op).value] != s.vm.kdir
  {
    if OpEnv(op).Some? && OpEnv(op).value in s.vm.dirs {
      RootFacts(s, multiset{}, OpEnv(op).value);
    }
  }
}
