/**
  lab4's page_insert, page_remove, tlb_invalidate and the changes of curenv and cr3, performed on the
  machine and on one CPU's registers.  Each method takes the steps of `Tlb` that are named in its
  contract, with nothing in between.
 */
module TlbKernel {
  import opened Errors
  import opened Mmu
  import opened Vm
  import opened VmInvariant
  import opened PageTables
  import opened Teardown
  import opened AddressSpace
  import opened Tlb
  import EnvTable
  import Kernel

  class Processor {
    const machine: Kernel.Machine
    var cr3: nat
    var curenv: Option<nat>
    var tlb: map<nat, Translation>
    ghost var loading: Option<nat>
    ghost var freeing: Option<nat>

    ghost predicate Valid()
      reads this, machine, machine.pages, machine.mem, machine.envPgdir
    {
      machine.Valid() && CpuInv(Abs())
    }

    /** Between operations. */
    ghost function Abs(): Cpu
      reads this, machine
    {
      Cpu(machine.st, cr3, curenv, loading, freeing, Idle, tlb)
    }

    /** mem_init has loaded kern_pgdir. */
    constructor (m: Kernel.Machine)
      requires m.Valid() && Inv(m.st)
      ensures Valid() && machine == m && Abs() == Cpu(m.st, m.st.vm.kdir, None, None, None, Idle, map[])
    {
      machine := m;
      cr3, curenv, tlb := m.kernPgdir, None, map[];
      loading, freeing := None, None;
      new;
      NothingCached(Abs());
    }

    method Lcr3(r: nat)
      modifies this`cr3, this`tlb
      ensures Abs() == Tlb.Lcr3(old(Abs()), r)
    {
      cr3 := r;
      tlb := map[];
    }

    /** tlb_invalidate: invlpg, if the address space that was edited may be the loaded one. */
    method TlbInvalidate(pgdir: nat, va: Addr)
      requires machine.Valid() && (curenv != None ==> curenv.value < NENV)
      modifies this`tlb
      ensures Abs() == Tlb.TlbInvalidate(old(Abs()), pgdir, Pgnum(va))
    {
      if curenv == None || machine.envPgdir[curenv.value] == Some(pgdir) {
        tlb := tlb - {Pgnum(va)};
      }
    }

    /** page_remove's work, while a caller may hold references pend. */
    method RemoveEntry(pgdir: nat, va: Addr, ghost pend: multiset<nat>, ghost e: nat)
      requires machine.Valid() && InvWith(machine.st, pend) && (curenv != None ==> curenv.value < NENV)
      requires e in machine.st.vm.dirs && pgdir == machine.st.vm.dirs[e] && va < UTOP
      modifies this`tlb, machine, machine.pages, machine.mem
      ensures machine.Valid() && InvWith(machine.st, pend)
      ensures Abs() == AfterRemove(old(Abs()), pgdir, Pdx(va), Ptx(va))
    {
      hide InvWith;
      hide machine.Valid;
      RemoveFacts(machine, pend, e, va);
      var found := machine.PageLookup(pgdir, va);
      if found == None {
        return;
      }
      machine.Store(found.value.0, Ptx(va), ZERO);
      machine.PageDecref(found.value.1);
      TlbInvalidate(pgdir, va);
    }

    /** page_remove */
    method PageRemove(e: nat, va: Addr)
      requires Valid() && freeing == None && e in machine.st.vm.dirs && va < UTOP
      modifies this, machine, machine.pages, machine.mem
      ensures Valid() && Removed(old(Abs()), e, Pdx(va), Ptx(va), Abs())
    {
      hide CpuInv;
      hide InvWith;
      hide Removed;
      hide AfterRemove;
      DirOf(machine, e);
      RemoveSteps(Abs(), e, Pdx(va), Ptx(va));
      RemoveEntry(machine.envPgdir[e].value, va, multiset{}, e);
    }

    /** page_insert: 0, or -E_NO_MEM when a table page could not be allocated. */
    method PageInsert(e: nat, pp: FrameNo, va: Addr, perm: Flags) returns (r: int)
      requires Valid() && freeing == None && e in machine.st.vm.dirs && va < UTOP
      requires pp < machine.pages.Length && pp as nat !in machine.st.free && machine.st.refs[pp] < MAXREF
      modifies this, machine, machine.pages, machine.mem
      ensures Valid() && Inserted(old(Abs()), e, pp, Pdx(va), Ptx(va), perm, Abs())
      ensures var (_, ok) := Vm.PageInsert(old(machine.st), old(machine.st).vm.dirs[e], pp, Pdx(va), Ptx(va), perm);
        r == if ok then 0 else -E_NO_MEM
    {
      hide CpuInv;
      hide InvWith;
      hide Inserted;
      hide AfterRemove;
      hide Install;
      hide Put;
      hide VmInvariant.NoDup;
      DirOf(machine, e);
      var pgdir := machine.envPgdir[e].value;
      InsertSteps(Abs(), e, pp, Pdx(va), Ptx(va), perm);
      var pte := machine.PgdirWalk(pgdir, va, true);
      hide WalkCreate;
      if pte == None {
        return -E_NO_MEM;
      }
      machine.Incref(pp);
      if machine.mem[pte.value.0][pte.value.1].flags.p {
        RemoveEntry(pgdir, va, multiset{pp as nat}, e);
      }
      machine.Store(pte.value.0, pte.value.1, Word(pp, Present(perm)));
      return 0;
    }

    /** env_run, up to the return to user mode. */
    method EnvRun(e: nat)
      requires Valid() && loading == None && freeing == None && e in machine.st.vm.dirs
      modifies this
      ensures Valid() && Stepped(old(Abs()), Step.EnvRun(e), Abs())
    {
      hide CpuInv;
      hide InvWith;
      hide Stepped;
      RunStep(Abs(), e);
      curenv := Some(e);
      DirOf(machine, e);
      Lcr3(machine.envPgdir[e].value);
    }

    /** sched_halt's part. */
    method SchedHalt()
      requires Valid() && loading == None && freeing == None
      modifies this
      ensures Valid() && Stepped(old(Abs()), Step.SchedHalt, Abs())
    {
      hide CpuInv;
      hide InvWith;
      hide Stepped;
      HaltStep(Abs());
      curenv := None;
      assert machine.kernPgdir == machine.st.vm.kdir;
      Lcr3(machine.kernPgdir);
    }

    /** One turn of env_free's inner loop. */
    method UnmapEntry(pgdir: nat, pt: nat, pdeno: nat, pteno: nat, ghost e: nat)
      requires Valid() && freeing == Some(e) && FreesTable(machine.st.vm, e, pgdir, pdeno, pt) && pteno < NPTENTRIES
      modifies this`tlb, machine, machine.pages, machine.mem
      ensures Valid() && FreesTable(machine.st.vm, e, pgdir, pdeno, pt) && Leads(old(Abs()), Abs())
      ensures var s := old(machine.st);
        machine.st == if Get(s.vm, pt, pteno).flags.p then Vm.PageRemove(s, pgdir, pdeno, pteno) else s
    {
      hide CpuInv;
      hide InvWith;
      hide AfterRemove;
      hide Vm.PageRemove;
      hide Leads;
      UnmapSteps(Abs(), e, pdeno, pteno, pt);
      EntryHere(machine, Abs(), e, pdeno, pteno);
      if machine.mem[pt][pteno].flags.p {
        Kernel.PageAddress(pdeno, pteno);
        RemoveEntry(pgdir, pdeno * PTSIZE + pteno * PGSIZE, multiset{}, e);
      }
    }

    /** env_free's inner loop: unmap every entry of table pt. */
    method UnmapTable(pgdir: nat, pt: nat, pdeno: nat, ghost e: nat)
      requires Valid() && freeing == Some(e) && FreesTable(machine.st.vm, e, pgdir, pdeno, pt)
      modifies this`tlb, machine, machine.pages, machine.mem
      ensures Valid() && FreesTable(machine.st.vm, e, pgdir, pdeno, pt) && Leads(old(Abs()), Abs())
      ensures machine.st == Vm.UnmapTable(old(machine.st), pgdir, pt, pdeno, 0)
    {
      hide CpuInv;
      hide machine.Valid;
      hide Vm.PageRemove;
      hide Leads;
      hide FreesTable;
      NoStep(Abs());
      var pteno := 0;
      while pteno < NPTENTRIES
        invariant 0 <= pteno <= NPTENTRIES
        invariant Valid() && freeing == Some(e) && FreesTable(machine.st.vm, e, pgdir, pdeno, pt)
        invariant Leads(old(Abs()), Abs())
        invariant Vm.UnmapTable(old(machine.st), pgdir, pt, pdeno, 0) ==
          Vm.UnmapTable(machine.st, pgdir, pt, pdeno, pteno)
      {
        ghost var before := Abs();
        UnmapEntry(pgdir, pt, pdeno, pteno, e);
        LeadOn(old(Abs()), before, Abs());
        pteno := pteno + 1;
      }
    }

    /** One turn of env_free's outer loop. */
    method FreeTable(pgdir: nat, pdeno: nat, ghost e: nat)
      requires Valid() && freeing == Some(e) && e in machine.st.vm.dirs && pgdir == machine.st.vm.dirs[e]
      requires pdeno < PDX_UTOP
      modifies this`tlb, machine, machine.pages, machine.mem
      ensures Valid() && machine.st.vm.dirs == old(machine.st).vm.dirs && Leads(old(Abs()), Abs())
      ensures machine.st == Vm.FreeTable(old(machine.st), pgdir, pdeno)
    {
      hide CpuInv;
      hide InvWith;
      hide Leads;
      hide Vm.UnmapTable;
      hide Vm.PageDecref;
      hide Put;
      NoStep(Abs());
      EntryHere(machine, Abs(), e, pdeno, 0);
      if !machine.mem[pgdir][pdeno].flags.p {
        return;
      }
      var pt := machine.mem[pgdir][pdeno].frame;
      ghost var before := Abs();
      UnmapTable(pgdir, pt, pdeno, e);
      ghost var unmapped := Abs();
      TableUnmapped(before, unmapped, e, pdeno, pt);
      machine.FreeSlot(pgdir, pdeno, pt);
      LeadOn(before, unmapped, Abs());
    }

    /** env_free's outer loop. */
    method FreeTables(pgdir: nat, ghost e: nat)
      requires Valid() && freeing == Some(e) && e in machine.st.vm.dirs && pgdir == machine.st.vm.dirs[e]
      modifies this`tlb, machine, machine.pages, machine.mem
      ensures Valid() && machine.st.vm.dirs == old(machine.st).vm.dirs && Leads(old(Abs()), Abs())
      ensures machine.st == Vm.FreeTables(old(machine.st), pgdir, 0)
    {
      hide CpuInv;
      hide machine.Valid;
      hide Vm.FreeTable;
      hide Leads;
      NoStep(Abs());
      var pdeno := 0;
      while pdeno < PDX_UTOP
        invariant 0 <= pdeno <= PDX_UTOP
        invariant Valid() && freeing == Some(e) && machine.st.vm.dirs == old(machine.st).vm.dirs
        invariant Leads(old(Abs()), Abs())
        invariant Vm.FreeTables(old(machine.st), pgdir, 0) == Vm.FreeTables(machine.st, pgdir, pdeno)
      {
        ghost var before := Abs();
        FreeTable(pgdir, pdeno, e);
        LeadOn(old(Abs()), before, Abs());
        pdeno := pdeno + 1;
      }
    }

    /** env_free, for a caller that resets curenv if it was e. */
    method EnvFree(e: nat)
      requires Valid() && loading == None && freeing == None && e in machine.st.vm.dirs
      modifies this, machine, machine.pages, machine.mem, machine.envPgdir
      ensures machine.Valid() && machine.st == Vm.EnvFree(old(machine.st), e) && curenv == old(curenv)
      ensures loading == None && freeing == None
      ensures var c' := Abs().(curenv := if curenv == Some(e) then None else curenv);
        CpuInv(c') && Leads(old(Abs()), c')
    {
      hide CpuInv;
      hide InvWith;
      hide Leads;
      hide Vm.FreeTables;
      ghost var before := Abs();
      FreeBegins(before, e);
      DirOf(machine, e);
      if curenv == Some(e) {
        Lcr3(machine.kernPgdir);
      }
      freeing := Some(e);
      ghost var begun := Abs();
      var d := machine.envPgdir[e].value;
      FreeTables(d, e);
      ghost var cleared := Abs();
      DirFrees(begun, cleared, e);
      LeadOn(before, begun, cleared);
      machine.FreeDir(e, d);
      freeing := None;
      LeadOn(before, cleared, Abs().(curenv := if curenv == Some(e) then None else curenv));
    }

    /** env_destroy, given env_status; an environment that runs on another CPU is only marked. */
    method EnvDestroy(e: nat, status: EnvTable.Status) returns (status': EnvTable.Status)
      requires Valid() && loading == None && freeing == None && e in machine.st.vm.dirs
      modifies this, machine, machine.pages, machine.mem, machine.envPgdir
      ensures Valid()
      ensures var elsewhere := status == EnvTable.Running && old(curenv) != Some(e);
        && (elsewhere ==> status' == EnvTable.Dying && Abs() == old(Abs()))
        && (!elsewhere ==>
              && status' == EnvTable.Free && Leads(old(Abs()), Abs()) && loading == None && freeing == None
              && machine.st == Vm.EnvFree(old(machine.st), e)
              && curenv == if old(curenv) == Some(e) then None else old(curenv))
    {
      hide CpuInv;
      hide Leads;
      hide Vm.EnvFree;
      if status == EnvTable.Running && curenv != Some(e) {
        return EnvTable.Dying;
      }
      EnvFree(e);
      if curenv == Some(e) {
        curenv := None;
      }
      return EnvTable.Free;
    }
  }

  // ---- env_free's parts ---------------------------------------------------------------------

  /** Table pt serves slot i of environment e, whose directory is d. */
  ghost predicate FreesTable(vm: Tables, e: nat, d: nat, i: nat, pt: nat) {
    e in vm.dirs && d == vm.dirs[e] && i < PDX_UTOP && Walk(vm, d, i) == Some(pt)
  }

  /** page_remove in one go: the entry, the reference, and the TLB if there was something to remove. */
  ghost function AfterRemove(c: Cpu, d: nat, i: nat, j: nat): Cpu {
    if Leaf(c.mem.vm, d, i, j).flags.p then
      Tlb.TlbInvalidate(c.(mem := PageRemove(c.mem, d, i, j)), d, i * NPTENTRIES + j)
    else c
  }

  lemma RemoveSteps(c: Cpu, e: nat, i: nat, j: nat)
    requires CpuInv(c) && Enabled(c, RemoveBegin(e, i, j))
    ensures Inv(c.mem) && (c.curenv != None ==> c.curenv.value < NENV)
    ensures var c' := AfterRemove(c, c.mem.vm.dirs[e], i, j); CpuInv(c') && Removed(c, e, i, j, c')
  {
    hide CpuInv;
    hide AfterRemove;
    hide Continue;
    CurenvInRange(c);
    StepKeeps(c, RemoveBegin(e, i, j));
    ContinueKeeps(Next(c, RemoveBegin(e, i, j)));
    RemoveInOne(c, e, i, j);
  }

  lemma RemoveInOne(c: Cpu, e: nat, i: nat, j: nat)
    requires Enabled(c, RemoveBegin(e, i, j))
    ensures Continue(Next(c, RemoveBegin(e, i, j))) == AfterRemove(c, c.mem.vm.dirs[e], i, j)
  {
    assert PageRemove(c.mem, c.mem.vm.dirs[e], i, j).vm.dirs == c.mem.vm.dirs;
    hide PageRemove;
    hide Leaf;
  }

  /** page_insert in one go. */
  ghost function AfterInsert(c: Cpu, d: nat, p: FrameNo, i: nat, j: nat, perm: Flags): Cpu {
    var (s1, pte) := WalkCreate(c.mem, d, i);
    match pte
    case None => c.(mem := s1)
    case Some(t) =>
      var c2 := c.(mem := Incref(s1, p));
      var c3 := if Get(s1.vm, t, j).flags.p then AfterRemove(c2, d, i, j) else c2;
      c3.(mem := c3.mem.(vm := Put(c3.mem.vm, t, j, Word(p, Present(perm)))))
  }

  lemma StoreInOne(c: Cpu, t: nat)
    requires c.doing.Storing? && c.doing.e in c.mem.vm.dirs
    requires Walk(c.mem.vm, c.mem.vm.dirs[c.doing.e], c.doing.i) == Some(t)
    ensures var vm' := Put(c.mem.vm, t, c.doing.j, Word(c.doing.p, Present(c.doing.perm)));
      Continue(c) == c.(mem := c.mem.(vm := vm'), doing := Idle)
  {
    hide Put;
  }

  lemma FlushInOne(c: Cpu, p: FrameNo, perm: Flags)
    requires c.doing.Flushing? && c.doing.e in c.mem.vm.dirs && c.doing.insert == Some((p, perm))
    ensures var f := c.doing;
      var c' := Tlb.TlbInvalidate(c, c.mem.vm.dirs[f.e], f.i * NPTENTRIES + f.j);
      Continue(c) == c'.(doing := Storing(f.e, f.i, f.j, p, perm))
  {
  }

  lemma InsertInOne(c: Cpu, e: nat, p: FrameNo, i: nat, j: nat, perm: Flags)
    requires CpuInv(c) && Enabled(c, InsertBegin(e, p, i, j, perm))
    ensures Continue(Continue(Next(c, InsertBegin(e, p, i, j, perm)))) ==
      AfterInsert(c, c.mem.vm.dirs[e], p, i, j, perm)
  {
    hide CpuInv;
    hide InvWith;
    hide PageRemove;
    hide WalkCreate;
    hide WalksKept;
    hide IsRoot;
    hide Put;
    var s := c.mem;
    var d := s.vm.dirs[e];
    CurenvInRange(c);
    RootIsLoadedToo(c);
    HoldPage(s, e, p, i, j, c.cr3);
    var c1 := Next(c, InsertBegin(e, p, i, j, perm));
    var (s1, pte) := WalkCreate(s, d, i);
    if pte.Some? {
      var s2 := Incref(s1, p);
      if Get(s2.vm, pte.value, j).flags.p {
        KdirIsRoot(s2.vm);
        ClearKept(s2, multiset{p as nat}, e, i, j, s2.vm.kdir);
        FlushInOne(c1, p, perm);
        StoreInOne(Continue(c1), pte.value);
      } else {
        StoreInOne(c1, pte.value);
      }
      hide Continue;
      hide Leaf;
    }
  }

  lemma KdirIsRoot(vm: Tables)
    ensures IsRoot(vm, vm.kdir)
  {
  }

  lemma InsertSteps(c: Cpu, e: nat, p: FrameNo, i: nat, j: nat, perm: Flags)
    requires CpuInv(c) && Enabled(c, InsertBegin(e, p, i, j, perm))
    ensures var d := c.mem.vm.dirs[e]; var (s1, pte) := WalkCreate(c.mem, d, i);
      var c' := AfterInsert(c, d, p, i, j, perm);
      && d < |c.mem.vm.mem| && (c.curenv != None ==> c.curenv.value < NENV)
      && CpuInv(c') && Inserted(c, e, p, i, j, perm, c')
      && (pte.Some? ==>
            && pte.value < |s1.vm.mem| && p < |s1.refs| && s1.vm.dirs == c.mem.vm.dirs
            && InvWith(Incref(s1, p), multiset{p as nat})
            && (Get(s1.vm, pte.value, j).flags.p <==> Leaf(s1.vm, d, i, j).flags.p))
  {
    hide CpuInv;
    hide InvWith;
    hide AfterInsert;
    hide Continue;
    hide WalkCreate;
    hide WalksKept;
    CurenvInRange(c);
    RootIsLoadedToo(c);
    HoldPage(c.mem, e, p, i, j, c.cr3);
    Ranges(c.mem, e, i);
    StepKeeps(c, InsertBegin(e, p, i, j, perm));
    ContinueKeeps(Next(c, InsertBegin(e, p, i, j, perm)));
    ContinueKeeps(Continue(Next(c, InsertBegin(e, p, i, j, perm))));
    InsertInOne(c, e, p, i, j, perm);
  }

  lemma RootIsLoadedToo(c: Cpu)
    requires CpuInv(c)
    ensures IsRoot(c.mem.vm, c.cr3)
  {
    hide InvWith;
    hide IsRoot;
    RootIsLoaded(c);
  }

  lemma Ranges(s: State, e: nat, i: nat)
    requires Inv(s) && e in s.vm.dirs && i < PDX_UTOP
    ensures s.vm.dirs[e] < |s.vm.mem|
    ensures var (s1, pte) := WalkCreate(s, s.vm.dirs[e], i); pte.Some? ==> pte.value < |s1.vm.mem|
  {
    WalkCreateKeeps(s, multiset{}, e, i);
    var (s1, pte) := WalkCreate(s, s.vm.dirs[e], i);
    if pte.Some? {
      Kernel.EntryInRange(s1, multiset{}, e, i, 0);
    }
  }

  lemma CurenvInRange(c: Cpu)
    requires CpuInv(c) && c.doing.Idle?
    ensures Inv(c.mem) && (c.curenv != None ==> c.curenv.value < NENV)
  {
    if c.curenv != None {
      RootFacts(c.mem, multiset{}, c.curenv.value);
    }
  }

  lemma RemoveFacts(m: Kernel.Machine, pend: multiset<nat>, e: nat, va: Addr)
    requires m.Valid() && InvWith(m.st, pend) && e in m.st.vm.dirs && va < UTOP
    ensures var d := m.st.vm.dirs[e]; var s' := PageRemove(m.st, d, Pdx(va), Ptx(va));
      var w := Leaf(m.st.vm, d, Pdx(va), Ptx(va));
      && InvWith(s', pend) && Pgnum(va) == Pdx(va) * NPTENTRIES + Ptx(va)
      && m.pages.Length == m.mem.Length == |m.st.refs| && Kernel.Reachable(m.st, d, Pdx(va), Ptx(va))
      && match PageLookup(m.st.vm, d, Pdx(va), Ptx(va))
         case None => !w.flags.p
         case Some((t, q)) => t < m.mem.Length && q < m.pages.Length && q !in m.st.free && w.flags.p
  {
    hide InvWith;
    hide PageRemove;
    hide SameSlots;
    hide Edit;
    PageRemoveKeeps(m.st, pend, e, Pdx(va), Ptx(va));
    Kernel.EntryInRange(m.st, pend, e, Pdx(va), Ptx(va));
  }

  lemma DirOf(m: Kernel.Machine, e: nat)
    requires m.Valid() && e in m.st.vm.dirs
    ensures e < m.envPgdir.Length && m.envPgdir[e] == Some(m.st.vm.dirs[e])
  {
  }

  lemma RunStep(c: Cpu, e: nat)
    requires CpuInv(c) && Ready(c) && c.loading == None && e in c.mem.vm.dirs
    ensures var c' := Lcr3(c.(curenv := Some(e)), c.mem.vm.dirs[e]);
      Stepped(c, EnvRun(e), c') && CpuInv(c')
  {
    hide CpuInv;
    EnvRunKeeps(c, e);
    EnvRunIs(c, e);
  }

  lemma HaltStep(c: Cpu)
    requires CpuInv(c) && Ready(c) && c.loading == None
    ensures var c' := Lcr3(c.(curenv := None), c.mem.vm.kdir); Stepped(c, SchedHalt, c') && CpuInv(c')
  {
    hide CpuInv;
    SchedHaltKeeps(c);
  }

  lemma RemovedLeads(c: Cpu, e: nat, i: nat, j: nat, c': Cpu)
    requires Removed(c, e, i, j, c')
    ensures Leads(c, c')
  {
    var c1 := Next(c, RemoveBegin(e, i, j));
    NoStep(c');
    if c1.doing.Flushing? {
      FirstStep(c1, Invalidate, c');
    }
    hide Leads;
    hide PageRemove;
    FirstStep(c, RemoveBegin(e, i, j), c');
  }

  /** page_remove inside env_free. */
  lemma UnmapSteps(c: Cpu, e: nat, i: nat, j: nat, pt: nat)
    requires CpuInv(c) && c.doing.Idle? && c.freeing == Some(e) && e in c.mem.vm.dirs
    requires FreesTable(c.mem.vm, e, c.mem.vm.dirs[e], i, pt) && j < NPTENTRIES
    ensures var d := c.mem.vm.dirs[e]; var c' := AfterRemove(c, d, i, j);
      && Inv(c.mem) && (c.curenv != None ==> c.curenv.value < NENV)
      && CpuInv(c') && Leads(c, c') && Leads(c, c) && FreesTable(c'.mem.vm, e, d, i, pt)
      && (if Get(c.mem.vm, pt, j).flags.p then c'.mem == PageRemove(c.mem, d, i, j) else c' == c)
  {
    hide CpuInv;
    hide InvWith;
    hide Removed;
    hide Leads;
    hide PageRemove;
    hide SameSlots;
    NoStep(c);
    RemoveSteps(c, e, i, j);
    RemovedLeads(c, e, i, j, AfterRemove(c, c.mem.vm.dirs[e], i, j));
    Kernel.EntryRemoved(c.mem, e, i, j);
  }

  lemma EntryHere(m: Kernel.Machine, c: Cpu, e: nat, i: nat, j: nat)
    requires m.Valid() && CpuInv(c) && c.doing.Idle? && c.mem == m.st && e in c.mem.vm.dirs && i < PDX_UTOP
    requires j < NPTENTRIES
    ensures var d := c.mem.vm.dirs[e]; d < m.mem.Length && m.mem[d][i] == Get(c.mem.vm, d, i)
    ensures match Walk(c.mem.vm, c.mem.vm.dirs[e], i)
      case None => true
      case Some(t) => t < m.mem.Length == m.pages.Length && t !in c.mem.free && m.mem[t][j] == Get(c.mem.vm, t, j)
  {
    Kernel.EntryInRange(c.mem, multiset{}, e, i, j);
    if Walk(c.mem.vm, c.mem.vm.dirs[e], i).Some? {
      Kernel.TableInUse(c.mem, e, i);
    }
    hide InvWith;
    hide CpuInv;
    hide VmInvariant.NoDup;
  }

  /** A table whose entries are gone may go. */
  lemma TableUnmapped(c: Cpu, c1: Cpu, e: nat, i: nat, pt: nat)
    requires CpuInv(c) && c.doing.Idle? && e in c.mem.vm.dirs && FreesTable(c.mem.vm, e, c.mem.vm.dirs[e], i, pt)
    requires CpuInv(c1) && c1.doing.Idle? && c1.freeing == Some(e) && FreesTable(c1.mem.vm, e, c.mem.vm.dirs[e], i, pt)
    requires c1.mem == UnmapTable(c.mem, c.mem.vm.dirs[e], pt, i, 0)
    ensures var d := c.mem.vm.dirs[e]; var s := c1.mem;
      var c2 := c1.(mem := Vm.PageDecref(s.(vm := Put(s.vm, d, i, ZERO)), pt));
      && d < |s.vm.mem| && pt < |s.refs| && pt !in s.free
      && CpuInv(c2) && Leads(c1, c2) && c2.mem.vm.dirs == s.vm.dirs && c2.mem == FreeTable(c.mem, d, i)
  {
    hide CpuInv;
    hide InvWith;
    hide Leads;
    hide UnmapTable;
    hide Vm.PageDecref;
    var d := c.mem.vm.dirs[e];
    CurenvInRange(c);
    CurenvInRange(c1);
    UnmapTableKeeps(c.mem, e, i, 0);
    assert forall j: nat :: Get(c1.mem.vm, pt, j) == Leaf(c1.mem.vm, d, i, j) == ZERO;
    Kernel.EntryInRange(c1.mem, multiset{}, e, i, 0);
    Kernel.TableInUse(c1.mem, e, i);
    FreeTableKeeps(c.mem, e, i);
    StepKeeps(c1, ClearSlot(i));
    NoStep(Next(c1, ClearSlot(i)));
    FirstStep(c1, ClearSlot(i), Next(c1, ClearSlot(i)));
  }

  lemma FreeBegins(c: Cpu, e: nat)
    requires CpuInv(c) && Ready(c) && c.loading == None && e in c.mem.vm.dirs
    ensures var c1 := (if c.curenv == Some(e) then Tlb.Lcr3(c, c.mem.vm.kdir) else c).(freeing := Some(e));
      CpuInv(c1) && Leads(c, c1)
  {
    hide CpuInv;
    hide Leads;
    StepKeeps(c, FreeBegin(e));
    NoStep(Next(c, FreeBegin(e)));
    FirstStep(c, FreeBegin(e), Next(c, FreeBegin(e)));
  }

  /** With all slots clear, the directory may go. */
  lemma DirFrees(c: Cpu, c1: Cpu, e: nat)
    requires CpuInv(c) && c.doing.Idle? && e in c.mem.vm.dirs
    requires CpuInv(c1) && c1.doing.Idle? && c1.freeing == Some(e) && c1.mem == FreeTables(c.mem, c.mem.vm.dirs[e], 0)
    ensures var d := c.mem.vm.dirs[e]; var s := c1.mem;
      var c2 := c1.(mem := Vm.PageDecref(s.(vm := s.vm.(dirs := s.vm.dirs - {e})), d), freeing := None,
                    curenv := if c1.curenv == Some(e) then None else c1.curenv);
      && d < |s.refs| && d !in s.free && CpuInv(c2) && Leads(c1, c2) && c2.mem == EnvFree(c.mem, e)
  {
    hide CpuInv;
    hide InvWith;
    hide Leads;
    hide FreeTables;
    hide Vm.PageDecref;
    CurenvInRange(c);
    CurenvInRange(c1);
    FreeTablesKeeps(c.mem, e, 0);
    FreedViews(c.mem.vm, c1.mem.vm, e);
    RootFacts(c1.mem, multiset{}, e);
    StepKeeps(c1, FreeDir);
    NoStep(Next(c1, FreeDir));
    FirstStep(c1, FreeDir, Next(c1, FreeDir));
  }
}
