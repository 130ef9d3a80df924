/**
  The translation cache of one CPU, under lab4's kernel: page_insert and page_remove with the
  conditional tlb_invalidate, and the places where lab4/kern/env.c and sched.c change curenv and cr3.
  The hardware may fill or evict entries at any moment, also in the middle of a kernel operation.
 */
module Tlb {
  import opened Mmu
  import opened Vm
  import opened VmInvariant
  import opened VmSteps
  import opened PageTables
  import opened Teardown
  import AddressSpace

  /** What the TLB keeps of a page: its frame and the combined rights of the two entries. */
  datatype Translation = Translation(frame: nat, w: bool, u: bool)

  /** A walk of directory r for page number n. */
  function FreshWalk(vm: Tables, r: nat, n: nat): Option<Translation> {
    var pde, pte := Get(vm, r, n / NPTENTRIES), Leaf(vm, r, n / NPTENTRIES, n % NPTENTRIES);
    if pde.flags.p && pte.flags.p then
      Some(Translation(pte.frame, pde.flags.w && pte.flags.w, pde.flags.u && pte.flags.u))
    else None
  }

  /** The cache keeps what the MMU would find: the frame, and what user mode may do. */
  lemma FreshWalkIsTheMmus(vm: Tables, r: nat, va: Addr)
    ensures var t := FreshWalk(vm, r, AddressSpace.Pgnum(va)); var i, j := AddressSpace.Pdx(va), AddressSpace.Ptx(va);
      && (t.Some? <==> AddressSpace.Translate(vm, r, va).Some?)
      && (t.Some? ==>
            && AddressSpace.Translate(vm, r, va) == Some(t.value.frame * PGSIZE + va % PGSIZE)
            && (AddressSpace.UserAccess(vm, r, i, j, false) <==> t.value.u)
            && (AddressSpace.UserAccess(vm, r, i, j, true) <==> t.value.u && t.value.w))
  {
  }

  /**
    What the kernel is in the middle of.
    Flushing   entry (i, j) of environment e has been cleared; tlb_invalidate comes next, and then,
               in page_insert, the store of the page it holds
    Storing    page_insert is about to store the entry
   */
  datatype Doing =
    | Idle
    | Flushing(e: nat, i: nat, j: nat, insert: Option<(FrameNo, Flags)>)
    | Storing(e: nat, i: nat, j: nat, p: FrameNo, perm: Flags)

  /** mem: memory and its books; loading, freeing: load_icode or env_free is running for that environment. */
  datatype Cpu = Cpu(
    mem: State, cr3: nat, curenv: Option<nat>, loading: Option<nat>, freeing: Option<nat>,
    doing: Doing, tlb: map<nat, Translation>)

  datatype Step =
    | Fill(n: nat) | Evict(n: nat)
    | Alloc(zero: bool) | Free(q: nat) | SetupVm(e: nat) | WalkTo(e: nat, i: nat) | DataStore(f: nat, page: Page)
    | InsertBegin(e: nat, p: FrameNo, i: nat, j: nat, perm: Flags) | RemoveBegin(e: nat, i: nat, j: nat)
    | Invalidate | StoreEntry
    | EnvRun(e: nat) | SchedHalt | LoadBegin(e: nat) | LoadEnd
    | FreeBegin(e: nat) | ClearSlot(i: nat) | FreeDir

  /** lcr3 empties the TLB. */
  function Lcr3(c: Cpu, r: nat): Cpu {
    c.(cr3 := r, tlb := map[])
  }

  /** tlb_invalidate(pgdir, page n): only when curenv is NULL or owns pgdir. */
  function TlbInvalidate(c: Cpu, pgdir: nat, n: nat): Cpu {
    if c.curenv == None || (c.curenv.value in c.mem.vm.dirs && c.mem.vm.dirs[c.curenv.value] == pgdir)
    then c.(tlb := c.tlb - {n}) else c
  }

  // ---- steps --------------------------------------------------------------------------------

  ghost predicate UserEntry(s: State, e: nat, i: nat, j: nat) {
    e in s.vm.dirs && i < PDX_UTOP && j < NPTENTRIES
  }

  /** No operation is under way. */
  ghost predicate Ready(c: Cpu) {
    c.doing.Idle? && c.freeing == None
  }

  /**
    Hardware steps at any time; between the parts of an operation only its own next part; load_icode only
    allocates, inserts and stores; env_free only removes entries of its environment, clears slots whose
    table has become empty, and frees the directory when all are clear.
   */
  ghost predicate Enabled(c: Cpu, step: Step) {
    var s := c.mem;
    match step
    case Fill(n) => FreshWalk(s.vm, c.cr3, n).Some?
    case Evict(_) => true
    case Invalidate => c.doing.Flushing?
    case StoreEntry => c.doing.Storing?
    case Alloc(_) => Ready(c)
    case Free(q) => Ready(c) && q in s.handed
    case SetupVm(e) => Ready(c) && e < NENV && e !in s.vm.dirs
    case WalkTo(e, i) => Ready(c) && e in s.vm.dirs && i < PDX_UTOP
    case DataStore(f, _) => Ready(c) && Plain(s.vm, f)
    case InsertBegin(e, p, i, j, _) =>
      Ready(c) && UserEntry(s, e, i, j) && p < |s.refs| && p as nat !in s.free && s.refs[p] < MAXREF
    case RemoveBegin(e, i, j) => c.doing.Idle? && UserEntry(s, e, i, j) && (c.freeing == None || c.freeing == Some(e))
    case EnvRun(e) => Ready(c) && c.loading == None && e in s.vm.dirs
    case SchedHalt => Ready(c) && c.loading == None
    case LoadBegin(e) => Ready(c) && c.loading == None && c.curenv == None && e in s.vm.dirs
    case LoadEnd => Ready(c) && c.loading != None
    case FreeBegin(e) => Ready(c) && c.loading == None && e in s.vm.dirs
    case ClearSlot(i) =>
      && c.doing.Idle? && c.freeing != None && UserEntry(s, c.freeing.value, i, 0)
      && Walk(s.vm, s.vm.dirs[c.freeing.value], i).Some? && EmptyTable(s.vm, Get(s.vm, s.vm.dirs[c.freeing.value], i))
    case FreeDir =>
      && c.doing.Idle? && c.freeing != None && c.freeing.value in s.vm.dirs
      && forall i: nat :: i < PDX_UTOP ==> Get(s.vm, s.vm.dirs[c.freeing.value], i) == ZERO
  }

  /** page_insert up to its first TLB or entry write: the walk, the increment, and page_remove's stores. */
  ghost function BeginInsert(c: Cpu, e: nat, p: FrameNo, i: nat, j: nat, perm: Flags): Cpu
    requires e in c.mem.vm.dirs
  {
    var d := c.mem.vm.dirs[e];
    var (s1, pte) := WalkCreate(c.mem, d, i);
    match pte
    case None => c.(mem := s1)
    case Some(t) =>
      var s2 := Incref(s1, p);
      if Get(s2.vm, t, j).flags.p then c.(mem := PageRemove(s2, d, i, j), doing := Flushing(e, i, j, Some((p, perm))))
      else c.(mem := s2, doing := Storing(e, i, j, p, perm))
  }

  ghost function Next(c: Cpu, step: Step): Cpu
    requires Enabled(c, step)
  {
    var s := c.mem;
    match step
    case Fill(n) => c.(tlb := c.tlb[n := FreshWalk(s.vm, c.cr3, n).value])
    case Evict(n) => c.(tlb := c.tlb - {n})
    case Alloc(zero) => c.(mem := PageAlloc(s, zero).0)
    case Free(q) => c.(mem := PageFree(s, q))
    case SetupVm(e) => c.(mem := EnvSetupVm(s, e).0)
    case WalkTo(e, i) => c.(mem := WalkCreate(s, s.vm.dirs[e], i).0)
    case DataStore(f, page) => c.(mem := s.(vm := SetPage(s.vm, f, page)))
    case InsertBegin(e, p, i, j, perm) => BeginInsert(c, e, p, i, j, perm)
    case RemoveBegin(e, i, j) =>
      if Leaf(s.vm, s.vm.dirs[e], i, j).flags.p then
        c.(mem := PageRemove(s, s.vm.dirs[e], i, j), doing := Flushing(e, i, j, None))
      else c
    case Invalidate =>
      var f := c.doing;
      var c1 := if f.e in s.vm.dirs then TlbInvalidate(c, s.vm.dirs[f.e], f.i * NPTENTRIES + f.j) else c;
      c1.(doing := match f.insert case None => Idle case Some((p, perm)) => Storing(f.e, f.i, f.j, p, perm))
    case StoreEntry =>
      var f := c.doing;
      var vm' := if f.e in s.vm.dirs && Walk(s.vm, s.vm.dirs[f.e], f.i).Some?
        then Put(s.vm, Walk(s.vm, s.vm.dirs[f.e], f.i).value, f.j, Word(f.p, Present(f.perm))) else s.vm;
      c.(mem := s.(vm := vm'), doing := Idle)
    case EnvRun(e) => Lcr3(c.(curenv := Some(e)), s.vm.dirs[e])
    case SchedHalt => Lcr3(c.(curenv := None), s.vm.kdir)
    case LoadBegin(e) => Lcr3(c.(loading := Some(e)), s.vm.dirs[e])
    case LoadEnd => Lcr3(c.(loading := None), s.vm.kdir)
    case FreeBegin(e) => (if c.curenv == Some(e) then Lcr3(c, s.vm.kdir) else c).(freeing := Some(e))
    case ClearSlot(i) =>
      var d := s.vm.dirs[c.freeing.value];
      c.(mem := PageDecref(s.(vm := Put(s.vm, d, i, ZERO)), Walk(s.vm, d, i).value))
    case FreeDir =>
      var e := c.freeing.value;
      c.(mem := PageDecref(s.(vm := s.vm.(dirs := s.vm.dirs - {e})), s.vm.dirs[e]), freeing := None,
         curenv := if c.curenv == Some(e) then None else c.curenv)
  }

  // ---- the invariant ------------------------------------------------------------------------

  /** The reference that a running page_insert holds. */
  ghost function Held(doing: Doing): multiset<nat> {
    match doing
    case Idle => multiset{}
    case Flushing(_, _, _, insert) => if insert.Some? then multiset{insert.value.0 as nat} else multiset{}
    case Storing(_, _, _, p, _) => multiset{p as nat}
  }

  /**
    cr3 is kern_pgdir, or the directory of curenv, or, in load_icode and without a curenv, that of the
    environment loaded; in env_free it is not that of the environment freed.
   */
  ghost predicate RootLoaded(c: Cpu) {
    var dirs := c.mem.vm.dirs;
    && (c.curenv != None ==> c.curenv.value in dirs)
    && (c.loading != None ==> c.curenv == None && c.loading.value in dirs && c.cr3 == dirs[c.loading.value])
    && (c.loading == None ==> c.cr3 == c.mem.vm.kdir || (c.curenv != None && c.cr3 == dirs[c.curenv.value]))
    && (c.freeing != None ==> c.loading == None && c.freeing.value in dirs && c.cr3 != dirs[c.freeing.value])
  }

  /** The page whose cached entry may be stale: the one being flushed, if its directory is loaded. */
  ghost predicate MayBeStale(c: Cpu, n: nat) {
    && c.doing.Flushing? && c.doing.e in c.mem.vm.dirs && c.mem.vm.dirs[c.doing.e] == c.cr3
    && n == c.doing.i * NPTENTRIES + c.doing.j
  }

  /** Every cached translation is what a fresh walk of the loaded directory finds. */
  ghost predicate Coherent(c: Cpu) {
    forall n :: n in c.tlb && !MayBeStale(c, n) ==> FreshWalk(c.mem.vm, c.cr3, n) == Some(c.tlb[n])
  }

  /** The entry that is being replaced is empty, and its table is in place. */
  ghost predicate EntryEmpty(c: Cpu) {
    c.doing.Idle? || (
      && UserEntry(c.mem, c.doing.e, c.doing.i, c.doing.j)
      && (c.doing.Storing? || c.doing.insert != None ==> Walk(c.mem.vm, c.mem.vm.dirs[c.doing.e], c.doing.i).Some?)
      && Leaf(c.mem.vm, c.mem.vm.dirs[c.doing.e], c.doing.i, c.doing.j) == ZERO
      && (forall p :: p in Held(c.doing) ==> p < |c.mem.refs|))
  }

  ghost predicate CpuInv(c: Cpu) {
    InvWith(c.mem, Held(c.doing)) && RootLoaded(c) && EntryEmpty(c) && Coherent(c)
  }

  // ---- what changes of memory do to fresh walks ---------------------------------------------

  /** Walks of r that succeed go on to do so with the same result, except perhaps for page x. */
  ghost predicate WalksKept(vm: Tables, vm': Tables, r: nat, x: int) {
    forall n: nat :: n != x && FreshWalk(vm, r, n).Some? ==> FreshWalk(vm', r, n) == FreshWalk(vm, r, n)
  }

  lemma ViewKept(vm: Tables, vm': Tables, r: nat)
    requires SameView(vm, vm', r)
    ensures WalksKept(vm, vm', r, -1)
  {
  }

  lemma PageIndex(n: nat, i: nat, j: nat)
    requires j < NPTENTRIES
    ensures n == i * NPTENTRIES + j <==> n / NPTENTRIES == i && n % NPTENTRIES == j
  {
  }

  /** Changing one entry of a directory leaves its other walks, those through the self-map included. */
  lemma EditKept(vm: Tables, vm': Tables, e: nat, i: nat, j: nat, w: Word)
    requires Shape(vm) && Shape(vm') && e in vm.dirs && i < PDX_UTOP && j < NPTENTRIES
    requires Edit(vm, vm', vm.dirs[e], i, j, w) && SameSlots(vm, vm', vm.dirs[e])
    ensures WalksKept(vm, vm', vm.dirs[e], i * NPTENTRIES + j)
  {
    var d := vm.dirs[e];
    forall n: nat | n != i * NPTENTRIES + j && FreshWalk(vm, d, n).Some?
      ensures FreshWalk(vm', d, n) == FreshWalk(vm, d, n)
    {
      PageIndex(n, i, j);
      SelfMapWalk(vm, e, n % NPTENTRIES);
      SelfMapWalk(vm', e, n % NPTENTRIES);
      assert Get(vm', d, n / NPTENTRIES) == Get(vm, d, n / NPTENTRIES);
      assert Get(vm, d, n / NPTENTRIES).flags.p;
    }
  }

  lemma SelfMapWalk(vm: Tables, e: nat, j: nat)
    requires Shape(vm) && e in vm.dirs
    ensures Leaf(vm, vm.dirs[e], PDX_UVPT, j) == Get(vm, vm.dirs[e], j)
  {
  }

  lemma WalkCreateSlots(s: State, pend: multiset<nat>, e: nat, i: nat)
    requires InvWith(s, pend) && e in s.vm.dirs && i < PDX_UTOP
    ensures var d := s.vm.dirs[e]; var s' := WalkCreate(s, d, i).0;
      forall k: nat :: Get(s.vm, d, k).flags.p ==> Get(s'.vm, d, k) == Get(s.vm, d, k)
  {
    Referenced(s, pend, Root(e));
  }

  /** pgdir_walk adds tables; it takes no translation away. */
  lemma WalkKept(s: State, pend: multiset<nat>, e: nat, i: nat)
    requires InvWith(s, pend) && e in s.vm.dirs && i < PDX_UTOP
    ensures WalksKept(s.vm, WalkCreate(s, s.vm.dirs[e], i).0.vm, s.vm.dirs[e], -1)
  {
    hide InvWith;
    hide WalkCreate;
    hide Shape;
    hide OthersSame;
    var d := s.vm.dirs[e];
    var vm' := WalkCreate(s, d, i).0.vm;
    WalkCreateKeeps(s, pend, e, i);
    WalkCreateSlots(s, pend, e, i);
    ShapeWith(s, pend);
    ShapeWith(WalkCreate(s, d, i).0, pend);
    forall n: nat | FreshWalk(s.vm, d, n).Some? ensures FreshWalk(vm', d, n) == FreshWalk(s.vm, d, n) {
      SelfMapWalk(s.vm, e, n % NPTENTRIES);
      SelfMapWalk(vm', e, n % NPTENTRIES);
      assert Get(vm', d, n / NPTENTRIES) == Get(s.vm, d, n / NPTENTRIES);
      assert n / NPTENTRIES < NPDENTRIES;
    }
  }

  // ---- every step keeps the invariant -------------------------------------------------------

  lemma RootIsLoaded(c: Cpu)
    requires Inv0(c) && RootLoaded(c)
    ensures IsRoot(c.mem.vm, c.cr3)
  {
  }

  ghost predicate Inv0(c: Cpu) {
    InvWith(c.mem, Held(c.doing))
  }

  /** What an operation on environment e's tables means for the directory that is loaded. */
  lemma LoadedKept(vm: Tables, vm': Tables, e: nat, r: nat, x: int)
    requires e in vm.dirs && IsRoot(vm, r) && OthersSame(vm, vm', vm.dirs[e]) && WalksKept(vm, vm', vm.dirs[e], x)
    ensures WalksKept(vm, vm', r, if r == vm.dirs[e] then x else -1)
  {
    if r != vm.dirs[e] {
      assert SameView(vm, vm', r);
      ViewKept(vm, vm', r);
    }
  }

  lemma StillCoherent(c: Cpu, c': Cpu, x: int)
    requires Coherent(c) && c'.cr3 == c.cr3 && c'.tlb == c.tlb && WalksKept(c.mem.vm, c'.mem.vm, c.cr3, x)
    requires forall n :: MayBeStale(c, n) || n == x ==> MayBeStale(c', n)
    ensures Coherent(c')
  {
    forall n | n in c'.tlb && !MayBeStale(c', n) ensures FreshWalk(c'.mem.vm, c'.cr3, n) == Some(c'.tlb[n]) {
      assert !MayBeStale(c, n) && n != x;
    }
  }

  /** Operations that leave every translation, and the directories there were. */
  lemma QuietKeeps(c: Cpu, s': State)
    requires CpuInv(c) && c.doing.Idle? && Inv(s') && s'.vm.kdir == c.mem.vm.kdir
    requires forall e :: e in c.mem.vm.dirs ==> e in s'.vm.dirs && s'.vm.dirs[e] == c.mem.vm.dirs[e]
    requires WalksKept(c.mem.vm, s'.vm, c.cr3, -1)
    ensures CpuInv(c.(mem := s'))
  {
    hide InvWith;
    hide FreshWalk;
    hide WalksKept;
    StillCoherent(c, c.(mem := s'), -1);
  }

  lemma ViewsQuiet(c: Cpu, s': State)
    requires CpuInv(c) && c.doing.Idle? && Inv(s') && s'.vm.kdir == c.mem.vm.kdir
    requires forall e :: e in c.mem.vm.dirs ==> e in s'.vm.dirs && s'.vm.dirs[e] == c.mem.vm.dirs[e]
    requires forall r :: IsRoot(c.mem.vm, r) ==> SameView(c.mem.vm, s'.vm, r)
    ensures CpuInv(c.(mem := s'))
  {
    hide InvWith;
    hide SameView;
    hide Coherent;
    hide WalksKept;
    RootIsLoaded(c);
    ViewKept(c.mem.vm, s'.vm, c.cr3);
    QuietKeeps(c, s');
  }

  lemma NothingCached(c: Cpu)
    requires InvWith(c.mem, Held(c.doing)) && RootLoaded(c) && EntryEmpty(c) && c.tlb == map[]
    ensures CpuInv(c)
  {
  }

  lemma WalkToKeeps(c: Cpu, e: nat, i: nat)
    requires CpuInv(c) && Enabled(c, WalkTo(e, i))
    ensures CpuInv(Next(c, WalkTo(e, i)))
  {
    hide InvWith;
    hide SameView;
    hide Coherent;
    hide WalksKept;
    hide FreshWalk;
    hide WalkCreate;
    var s := c.mem;
    WalkCreateKeeps(s, multiset{}, e, i);
    WalkKept(s, multiset{}, e, i);
    RootIsLoaded(c);
    LoadedKept(s.vm, WalkCreate(s, s.vm.dirs[e], i).0.vm, e, c.cr3, -1);
    QuietKeeps(c, WalkCreate(s, s.vm.dirs[e], i).0);
  }

  lemma AllocStepKeeps(c: Cpu, zero: bool)
    requires CpuInv(c) && Enabled(c, Alloc(zero))
    ensures CpuInv(Next(c, Alloc(zero)))
  {
    var s := c.mem;
    AllocKeeps(s, multiset{}, zero);
    if zero {
      ZeroPageAlloc(s, multiset{});
    }
    hide InvWith;
    hide Coherent;
    assert zero || PageAlloc(s, zero).0.vm == s.vm;
    ViewsQuiet(c, PageAlloc(s, zero).0);
  }

  lemma FreeStepKeeps(c: Cpu, q: nat)
    requires CpuInv(c) && Enabled(c, Free(q))
    ensures CpuInv(Next(c, Free(q)))
  {
    FreeKeeps(c.mem, multiset{}, q);
    hide InvWith;
    hide Coherent;
    ViewsQuiet(c, PageFree(c.mem, q));
  }

  lemma SetupKeeps(c: Cpu, e: nat)
    requires CpuInv(c) && Enabled(c, SetupVm(e))
    ensures CpuInv(Next(c, SetupVm(e)))
  {
    hide InvWith;
    hide Coherent;
    hide EnvSetupVm;
    EnvSetupKeeps(c.mem, e);
    if EnvSetupVm(c.mem, e).1 {
      ViewsQuiet(c, EnvSetupVm(c.mem, e).0);
    }
  }

  lemma DataStoreKeeps(c: Cpu, f: nat, page: Page)
    requires CpuInv(c) && Enabled(c, DataStore(f, page))
    ensures CpuInv(Next(c, DataStore(f, page)))
  {
    var s := c.mem;
    DataWriteKeeps(s, multiset{}, f, page);
    assert Shape(s.vm);
    hide InvWith;
    hide Coherent;
    hide SameView;
    forall r | IsRoot(s.vm, r) ensures SameView(s.vm, SetPage(s.vm, f, page), r) {
      PlainView(s.vm, f, page, r);
    }
    ViewsQuiet(c, s.(vm := SetPage(s.vm, f, page)));
  }

  /** Clearing an entry of environment e, with pend in hand: the loaded directory can be stale for that page only. */
  lemma ClearKept(s: State, pend: multiset<nat>, e: nat, i: nat, j: nat, r: nat)
    requires InvWith(s, pend) && UserEntry(s, e, i, j) && IsRoot(s.vm, r)
    ensures var d := s.vm.dirs[e]; var s' := PageRemove(s, d, i, j);
      && InvWith(s', pend) && SameRoots(s.vm, s'.vm) && Leaf(s'.vm, d, i, j) == ZERO && |s'.refs| == |s.refs|
      && (forall k: nat :: Walk(s'.vm, d, k) == Walk(s.vm, d, k))
      && WalksKept(s.vm, s'.vm, r, if r == d then i * NPTENTRIES + j else -1)
  {
    hide SameView;
    hide WalksKept;
    hide PageRemove;
    PageRemoveKeeps(s, pend, e, i, j);
    var s' := PageRemove(s, s.vm.dirs[e], i, j);
    assert Shape(s.vm) && Shape(s'.vm) && |s'.refs| == |s.refs|;
    hide InvWith;
    EditKept(s.vm, s'.vm, e, i, j, ZERO);
    LoadedKept(s.vm, s'.vm, e, r, i * NPTENTRIES + j);
  }

  lemma RemoveBeginKeeps(c: Cpu, e: nat, i: nat, j: nat)
    requires CpuInv(c) && Enabled(c, RemoveBegin(e, i, j))
    ensures CpuInv(Next(c, RemoveBegin(e, i, j)))
  {
    hide InvWith;
    hide WalksKept;
    hide PageRemove;
    hide FreshWalk;
    var s := c.mem;
    var d := s.vm.dirs[e];
    if Leaf(s.vm, d, i, j).flags.p {
      RootIsLoaded(c);
      ClearKept(s, multiset{}, e, i, j, c.cr3);
      hide Leaf;
      StillCoherent(c, c.(mem := PageRemove(s, d, i, j), doing := Flushing(e, i, j, None)),
                    if c.cr3 == d then i * NPTENTRIES + j else -1);
    }
  }

  lemma WalksCompose(vm0: Tables, vm1: Tables, vm2: Tables, r: nat, x: int)
    requires WalksKept(vm0, vm1, r, -1) && WalksKept(vm1, vm2, r, x)
    ensures WalksKept(vm0, vm2, r, x)
  {
  }

  /** page_insert's walk and increment. */
  lemma HoldPage(s: State, e: nat, p: FrameNo, i: nat, j: nat, r: nat)
    requires Inv(s) && UserEntry(s, e, i, j) && IsRoot(s.vm, r)
    requires p < |s.refs| && p as nat !in s.free && s.refs[p] < MAXREF
    ensures var d := s.vm.dirs[e]; var (s1, pte) := WalkCreate(s, d, i);
      && Inv(s1) && SameRoots(s.vm, s1.vm) && WalksKept(s.vm, s1.vm, r, -1) && |s1.refs| == |s.refs|
      && (pte.Some? ==>
            && InvWith(Incref(s1, p), multiset{p as nat}) && Walk(s1.vm, d, i) == pte
            && (Get(s1.vm, pte.value, j).flags.p || Leaf(s1.vm, d, i, j) == ZERO))
  {
    hide SameView;
    hide WalksKept;
    hide WalkCreate;
    var d := s.vm.dirs[e];
    WalkCreateKeeps(s, multiset{}, e, i);
    WalkCreateBooks(s, multiset{}, d, i, p);
    WalkKept(s, multiset{}, e, i);
    LoadedKept(s.vm, WalkCreate(s, d, i).0.vm, e, r, -1);
    var (s1, pte) := WalkCreate(s, d, i);
    if pte.Some? {
      IncrefKeeps(s1, multiset{}, p);
      EntryCases(s1, e, i, j);
      hide InvWith;
      assert multiset{} + multiset{p as nat} == multiset{p as nat};
    }
  }

  lemma EntryCases(s: State, e: nat, i: nat, j: nat)
    requires Inv(s) && UserEntry(s, e, i, j)
    ensures Leaf(s.vm, s.vm.dirs[e], i, j) == ZERO || Leaf(s.vm, s.vm.dirs[e], i, j).flags.p
  {
  }

  lemma InsertBeginKeeps(c: Cpu, e: nat, p: FrameNo, i: nat, j: nat, perm: Flags)
    requires CpuInv(c) && Enabled(c, InsertBegin(e, p, i, j, perm))
    ensures CpuInv(Next(c, InsertBegin(e, p, i, j, perm)))
  {
    hide InvWith;
    hide WalksKept;
    hide PageRemove;
    hide WalkCreate;
    hide FreshWalk;
    var s := c.mem;
    var d := s.vm.dirs[e];
    RootIsLoaded(c);
    HoldPage(s, e, p, i, j, c.cr3);
    var (s1, pte) := WalkCreate(s, d, i);
    if pte.Some? {
      var s2 := Incref(s1, p);
      assert IsRoot(s2.vm, c.cr3);
      if Get(s2.vm, pte.value, j).flags.p {
        ClearKept(s2, multiset{p as nat}, e, i, j, c.cr3);
        var s3 := PageRemove(s2, d, i, j);
        WalksCompose(s.vm, s2.vm, s3.vm, c.cr3, if c.cr3 == d then i * NPTENTRIES + j else -1);
        StillCoherent(c, c.(mem := s3, doing := Flushing(e, i, j, Some((p, perm)))),
                      if c.cr3 == d then i * NPTENTRIES + j else -1);
      } else {
        StillCoherent(c, c.(mem := s2, doing := Storing(e, i, j, p, perm)), -1);
      }
    } else {
      QuietKeeps(c, s1);
    }
  }

  /** tlb_invalidate may do nothing, but not when the directory that was edited is loaded. */
  lemma InvalidateKeeps(c: Cpu)
    requires CpuInv(c) && Enabled(c, Invalidate)
    ensures CpuInv(Next(c, Invalidate))
  {
    hide InvWith;
    hide FreshWalk;
    hide Leaf;
    var d := c.mem.vm.dirs[c.doing.e];
    RootFacts(c.mem, Held(c.doing), c.doing.e);
    var c' := Next(c, Invalidate);
    forall n | n in c'.tlb ensures FreshWalk(c'.mem.vm, c'.cr3, n) == Some(c'.tlb[n]) {
      assert n in c.tlb && (MayBeStale(c, n) ==> c.cr3 == d);
    }
  }

  lemma StoreEntryStepKeeps(c: Cpu)
    requires CpuInv(c) && Enabled(c, StoreEntry)
    ensures CpuInv(Next(c, StoreEntry))
  {
    hide InvWith;
    hide Put;
    hide FreshWalk;
    hide WalksKept;
    var f := c.doing;
    assert f.p as nat in Held(f);
    assert multiset{} + multiset{f.p as nat} == Held(f);
    RootIsLoaded(c);
    StoreKept(c.mem, f.e, f.p, f.i, f.j, f.perm, c.cr3);
    StillCoherent(c, Next(c, StoreEntry), -1);
  }

  /** Filling an empty entry of environment e takes no translation away. */
  lemma StoreKept(s: State, e: nat, p: FrameNo, i: nat, j: nat, perm: Flags, r: nat)
    requires InvWith(s, multiset{} + multiset{p as nat}) && UserEntry(s, e, i, j) && p < |s.refs| && IsRoot(s.vm, r)
    requires Walk(s.vm, s.vm.dirs[e], i).Some? && Leaf(s.vm, s.vm.dirs[e], i, j) == ZERO
    ensures var vm' := Put(s.vm, Walk(s.vm, s.vm.dirs[e], i).value, j, Word(p, Present(perm)));
      Inv(s.(vm := vm')) && SameRoots(s.vm, vm') && WalksKept(s.vm, vm', r, -1)
  {
    hide InvWith;
    hide SameView;
    hide Put;
    var d, x, w := s.vm.dirs[e], i * NPTENTRIES + j, Word(p, Present(perm));
    var vm' := Put(s.vm, Walk(s.vm, d, i).value, j, w);
    StoreHeld(s, multiset{}, e, p, i, j, perm);
    ShapeWith(s, multiset{} + multiset{p as nat});
    ShapeWith(s.(vm := vm'), multiset{});
    hide Shape;
    EditKept(s.vm, vm', e, i, j, w);
    LoadedKept(s.vm, vm', e, r, x);
    PageIndex(x, i, j);
    assert FreshWalk(s.vm, d, x) == None;
  }

  lemma ShapeWith(s: State, pend: multiset<nat>)
    requires InvWith(s, pend)
    ensures Shape(s.vm)
  {
  }

  /** env_free leaves the directory that it is going to free, before anything else. */
  lemma FreeBeginKeeps(c: Cpu, e: nat)
    requires CpuInv(c) && Enabled(c, FreeBegin(e))
    ensures CpuInv(Next(c, FreeBegin(e)))
  {
    hide InvWith;
    hide FreshWalk;
    RootFacts(c.mem, multiset{}, e);
    if c.curenv != None && c.curenv != Some(e) {
      RootFacts(c.mem, multiset{}, c.curenv.value);
    }
  }

  /** From there on its tables may go, with nothing to invalidate. */
  lemma ClearSlotStepKeeps(c: Cpu, i: nat)
    requires CpuInv(c) && Enabled(c, ClearSlot(i))
    ensures CpuInv(Next(c, ClearSlot(i)))
  {
    hide InvWith;
    hide SameView;
    hide FreshWalk;
    hide WalksKept;
    hide PageDecref;
    hide EmptyTable;
    hide Coherent;
    ClearSlotKeeps(c.mem, c.freeing.value, i);
    RootIsLoaded(c);
    OtherRoot(c, Next(c, ClearSlot(i)).mem.vm);
    QuietKeeps(c, Next(c, ClearSlot(i)).mem);
  }

  lemma OtherRoot(c: Cpu, vm': Tables)
    requires CpuInv(c) && c.freeing != None && OthersSame(c.mem.vm, vm', c.mem.vm.dirs[c.freeing.value])
    ensures WalksKept(c.mem.vm, vm', c.cr3, -1)
  {
    hide InvWith;
    hide Coherent;
    hide WalksKept;
    RootIsLoaded(c);
    assert SameView(c.mem.vm, vm', c.cr3);
    ViewKept(c.mem.vm, vm', c.cr3);
  }

  lemma FreeDirKeeps(c: Cpu)
    requires CpuInv(c) && Enabled(c, FreeDir)
    ensures CpuInv(Next(c, FreeDir))
  {
    hide InvWith;
    hide FreshWalk;
    hide WalksKept;
    hide PageDecref;
    var e, vm := c.freeing.value, c.mem.vm;
    DropDir(c.mem, e);
    SameTables(vm, vm.(dirs := vm.dirs - {e}), c.cr3);
    StillCoherent(c, Next(c, FreeDir), -1);
  }

  lemma SameTables(vm: Tables, vm': Tables, r: nat)
    requires vm'.mem == vm.mem
    ensures WalksKept(vm, vm', r, -1)
  {
  }

  lemma FillKeeps(c: Cpu, n: nat)
    requires CpuInv(c) && Enabled(c, Fill(n))
    ensures CpuInv(Next(c, Fill(n)))
  {
    hide InvWith;
    hide FreshWalk;
  }

  lemma EvictKeeps(c: Cpu, n: nat)
    requires CpuInv(c) && Enabled(c, Evict(n))
    ensures CpuInv(Next(c, Evict(n)))
  {
    hide InvWith;
    hide FreshWalk;
  }

  lemma EnvRunKeeps(c: Cpu, e: nat)
    requires CpuInv(c) && Enabled(c, EnvRun(e))
    ensures CpuInv(Next(c, EnvRun(e)))
  {
    hide InvWith;
    hide Coherent;
    hide Next;
    EnvRunIs(c, e);
    NothingCached(Lcr3(c.(curenv := Some(e)), c.mem.vm.dirs[e]));
  }

  lemma EnvRunIs(c: Cpu, e: nat)
    requires Enabled(c, EnvRun(e))
    ensures Next(c, EnvRun(e)) == Lcr3(c.(curenv := Some(e)), c.mem.vm.dirs[e])
  {
  }

  lemma SchedHaltKeeps(c: Cpu)
    requires CpuInv(c) && Enabled(c, SchedHalt)
    ensures CpuInv(Next(c, SchedHalt)) && Next(c, SchedHalt) == Lcr3(c.(curenv := None), c.mem.vm.kdir)
  {
    hide InvWith;
    hide Coherent;
    NothingCached(Next(c, SchedHalt));
  }

  lemma LoadKeeps(c: Cpu, step: Step)
    requires CpuInv(c) && Enabled(c, step) && (step.LoadBegin? || step.LoadEnd?)
    ensures CpuInv(Next(c, step))
  {
    hide InvWith;
    hide Coherent;
    NothingCached(Next(c, step));
  }

  lemma StepKeeps(c: Cpu, step: Step)
    requires CpuInv(c) && Enabled(c, step)
    ensures CpuInv(Next(c, step))
  {
    hide CpuInv;
    hide Enabled;
    hide Next;
    match step
    case Fill(n) => FillKeeps(c, n);
    case Evict(n) => EvictKeeps(c, n);
    case Alloc(zero) => AllocStepKeeps(c, zero);
    case Free(q) => FreeStepKeeps(c, q);
    case SetupVm(e) => SetupKeeps(c, e);
    case WalkTo(e, i) => WalkToKeeps(c, e, i);
    case DataStore(f, page) => DataStoreKeeps(c, f, page);
    case InsertBegin(e, p, i, j, perm) => InsertBeginKeeps(c, e, p, i, j, perm);
    case RemoveBegin(e, i, j) => RemoveBeginKeeps(c, e, i, j);
    case Invalidate => InvalidateKeeps(c);
    case StoreEntry => StoreEntryStepKeeps(c);
    case EnvRun(e) => EnvRunKeeps(c, e);
    case SchedHalt => SchedHaltKeeps(c);
    case LoadBegin(e) => LoadKeeps(c, step);
    case LoadEnd => LoadKeeps(c, step);
    case FreeBegin(e) => FreeBeginKeeps(c, e);
    case ClearSlot(i) => ClearSlotStepKeeps(c, i);
    case FreeDir => FreeDirKeeps(c);
  }

  // ---- runs ---------------------------------------------------------------------------------

  ghost predicate LegalRun(c: Cpu, steps: seq<Step>)
    decreases |steps|
  {
    steps == [] || (Enabled(c, steps[0]) && LegalRun(Next(c, steps[0]), steps[1..]))
  }

  ghost function Run(c: Cpu, steps: seq<Step>): Cpu
    requires LegalRun(c, steps)
    decreases |steps|
  {
    if steps == [] then c else Run(Next(c, steps[0]), steps[1..])
  }

  lemma {:induction false} RunKeeps(c: Cpu, steps: seq<Step>)
    requires CpuInv(c) && LegalRun(c, steps)
    ensures CpuInv(Run(c, steps))
    decreases |steps|
  {
    hide CpuInv;
    if steps != [] {
      StepKeeps(c, steps[0]);
      RunKeeps(Next(c, steps[0]), steps[1..]);
    }
  }

  /**
    From a kernel that has just loaded kern_pgdir: whatever operations follow, and whatever the
    hardware caches or drops meanwhile, each cached translation equals a fresh walk of the loaded
    directory in every state, but for the one page whose entry has just been cleared and is about to
    be invalidated; so between operations, for every page.
   */
  lemma TlbCoherent(s: State, steps: seq<Step>, n: nat)
    requires Inv(s) && LegalRun(Cpu(s, s.vm.kdir, None, None, None, Idle, map[]), steps)
    ensures var c := Run(Cpu(s, s.vm.kdir, None, None, None, Idle, map[]), steps);
      && (n in c.tlb && FreshWalk(c.mem.vm, c.cr3, n) != Some(c.tlb[n]) ==> MayBeStale(c, n))
      && (c.doing.Idle? && n in c.tlb ==> FreshWalk(c.mem.vm, c.cr3, n) == Some(c.tlb[n]))
  {
    var c0 := Cpu(s, s.vm.kdir, None, None, None, Idle, map[]);
    NothingCached(c0);
    RunKeeps(c0, steps);
  }

  /** c' is c after an enabled step. */
  ghost predicate Stepped(c: Cpu, step: Step, c': Cpu) {
    Enabled(c, step) && c' == Next(c, step)
  }

  /** Some run leads from c to c'. */
  ghost predicate Leads(c: Cpu, c': Cpu) {
    exists steps :: LegalRun(c, steps) && Run(c, steps) == c'
  }

  lemma NoStep(c: Cpu)
    ensures Leads(c, c)
  {
    assert LegalRun(c, []) && Run(c, []) == c;
  }

  lemma FirstStep(c: Cpu, step: Step, c': Cpu)
    requires Enabled(c, step) && Leads(Next(c, step), c')
    ensures Leads(c, c')
  {
    var steps :| LegalRun(Next(c, step), steps) && Run(Next(c, step), steps) == c';
    hide Next;
    hide Enabled;
    assert ([step] + steps)[1..] == steps;
    assert LegalRun(c, [step] + steps) && Run(c, [step] + steps) == c';
  }

  lemma {:induction false} LeadOn(c0: Cpu, c1: Cpu, c2: Cpu)
    requires Leads(c0, c1) && Leads(c1, c2)
    ensures Leads(c0, c2)
  {
    var steps :| LegalRun(c0, steps) && Run(c0, steps) == c1;
    RunOn(c0, steps, c2);
  }

  lemma {:induction false} RunOn(c: Cpu, steps: seq<Step>, c': Cpu)
    requires LegalRun(c, steps) && Leads(Run(c, steps), c')
    ensures Leads(c, c')
    decreases |steps|
  {
    hide Next;
    hide Enabled;
    if steps != [] {
      RunOn(Next(c, steps[0]), steps[1..], c');
      FirstStep(c, steps[0], c');
    }
  }

  // ---- the steps are the operations ---------------------------------------------------------

  /** The next part of the operation that is under way, if any. */
  ghost function Continue(c: Cpu): Cpu {
    if c.doing.Flushing? then Next(c, Invalidate) else if c.doing.Storing? then Next(c, StoreEntry) else c
  }

  /** c' is c after a whole page_remove, or page_insert, that no other step interrupts. */
  ghost predicate Removed(c: Cpu, e: nat, i: nat, j: nat, c': Cpu) {
    Enabled(c, RemoveBegin(e, i, j)) && c' == Continue(Next(c, RemoveBegin(e, i, j)))
  }

  ghost predicate Inserted(c: Cpu, e: nat, p: FrameNo, i: nat, j: nat, perm: Flags, c': Cpu) {
    Enabled(c, InsertBegin(e, p, i, j, perm)) && c' == Continue(Continue(Next(c, InsertBegin(e, p, i, j, perm))))
  }

  lemma ContinueKeeps(c: Cpu)
    requires CpuInv(c)
    ensures CpuInv(Continue(c))
  {
    hide CpuInv;
    if c.doing.Flushing? {
      StepKeeps(c, Invalidate);
    } else if c.doing.Storing? {
      StepKeeps(c, StoreEntry);
    }
  }

  /** The parts of page_insert and page_remove add up to the operations. */
  lemma InsertIsPageInsert(c: Cpu, e: nat, p: FrameNo, i: nat, j: nat, perm: Flags)
    requires CpuInv(c) && Enabled(c, InsertBegin(e, p, i, j, perm))
    ensures var c' := Continue(Continue(Next(c, InsertBegin(e, p, i, j, perm))));
      c'.doing.Idle? && c'.mem == PageInsert(c.mem, c.mem.vm.dirs[e], p, i, j, perm).0
  {
    hide InvWith;
    hide PageRemove;
    hide WalkCreate;
    hide Leaf;
    hide WalksKept;
    hide Coherent;
    hide Put;
    var s := c.mem;
    var d := s.vm.dirs[e];
    RootIsLoaded(c);
    HoldPage(s, e, p, i, j, c.cr3);
    var (s1, pte) := WalkCreate(s, d, i);
    if pte.Some? {
      var s2 := Incref(s1, p);
      if Get(s2.vm, pte.value, j).flags.p {
        ClearKept(s2, multiset{p as nat}, e, i, j, c.cr3);
      }
    }
  }

  lemma RemoveIsPageRemove(c: Cpu, e: nat, i: nat, j: nat)
    requires CpuInv(c) && Enabled(c, RemoveBegin(e, i, j))
    ensures var c' := Continue(Next(c, RemoveBegin(e, i, j)));
      c'.doing.Idle? && c'.mem == PageRemove(c.mem, c.mem.vm.dirs[e], i, j)
  {
    hide Inv;
    hide InvWith;
    hide PageDecref;
  }
}