/**
  The operations of kern/pmap.c and kern/env.c as they are performed: on the pages[] array with its
  intrusive free list, on words of physical memory, and on the env_pgdir fields, all in place.
  Each method follows the function of the same name in `Vm`.
 */
module Kernel {
  import opened Errors
  import opened Mmu
  import opened Vm
  import opened VmInvariant
  import opened PageTables
  import opened AddressSpace
  import opened Teardown
  import opened Boot
  import opened FreeChain
  import FreeListSplit

  /** Below UTOP, tables and mapped pages lie in memory, and a mapped page is not free. */
  lemma EntryInRange(s: State, pend: multiset<nat>, e: nat, i: nat, j: nat)
    requires InvWith(s, pend) && e in s.vm.dirs && i < PDX_UTOP && j < NPTENTRIES
    ensures s.vm.dirs[e] < |s.vm.mem|
    ensures match Walk(s.vm, s.vm.dirs[e], i)
      case None => true
      case Some(t) =>
        && t < |s.vm.mem|
        && (Get(s.vm, t, j).flags.p ==> Get(s.vm, t, j).frame < |s.refs| && Get(s.vm, t, j).frame as nat !in s.free)
  {
    assert Target(s.vm, Pde(e, i)) == Walk(s.vm, s.vm.dirs[e], i);
    if Walk(s.vm, s.vm.dirs[e], i).Some? && Leaf(s.vm, s.vm.dirs[e], i, j).flags.p {
      Referenced(s, pend, Pte(e, i, j));
    }
  }

  lemma NthBootPage(va: Addr, pa: Addr, k: nat)
    requires va % PGSIZE == 0 && pa % PGSIZE == 0 && va / PGSIZE + k < VPAGES
    ensures var a := (va + k * PGSIZE) % 0x1_0000_0000; var b := (pa + k * PGSIZE) % 0x1_0000_0000;
      && Pgnum(a) == va / PGSIZE + k
      && b / PGSIZE == (pa / PGSIZE + k) % MAXFRAMES && NextFrame(b / PGSIZE) == (pa / PGSIZE + k + 1) % MAXFRAMES
      && (va / PGSIZE + k + 1 < VPAGES ==> NextPage(va / PGSIZE + k) == va / PGSIZE + k + 1)
  {
  }

  /** One turn of boot_map_region stays in memory and keeps the invariant. */
  lemma BootTurn(s: State, vp: nat, pf: FrameNo, perm: Flags)
    requires Inv(s) && s.vm.dirs == map[] && vp < VPAGES && KernRange(vp, 1)
    ensures s.vm.kdir < |s.vm.mem|
    ensures var (s1, pte) := WalkCreate(s, s.vm.kdir, vp / NPTENTRIES);
      && (pte.Some? ==> pte.value < |s1.vm.mem|)
      && (BootPage(s, vp, pf, perm).Some? ==>
            Inv(BootPage(s, vp, pf, perm).value) && BootPage(s, vp, pf, perm).value.vm.dirs == map[])
  {
    BootPageExact(s, vp, pf, perm);
    KernWalkKeeps(s, vp / NPTENTRIES);
    var (s1, pte) := WalkCreate(s, s.vm.kdir, vp / NPTENTRIES);
    if pte.Some? {
      assert Target(s1.vm, KernPde(vp / NPTENTRIES)) == pte;
    }
  }

  lemma PageAddress(i: nat, j: nat)
    requires i < NPDENTRIES && j < NPTENTRIES
    ensures var va := i * PTSIZE + j * PGSIZE;
      va < 0x1_0000_0000 && Pdx(va) == i && Ptx(va) == j && (va < UTOP <==> i < PDX_UTOP)
  {
  }

  lemma FirstFree(npagesBasemem: nat, firstFree: nat)
    ensures FreeBelow(1, npagesBasemem, firstFree) == [] && Reserved(0, npagesBasemem, firstFree)
  {
  }

  /** The cases of page_init's loop. */
  lemma NextFree(i: nat, npagesBasemem: nat, firstFree: nat)
    requires i > 0
    ensures var free := FreeBelow(i, npagesBasemem, firstFree); var a := PGSIZE * i;
      && i !in free
      && (Reserved(i, npagesBasemem, firstFree) <==>
            i >= npagesBasemem && (IOPHYSMEM <= a < EXTPHYSMEM || a < firstFree))
      && FreeBelow(i + 1, npagesBasemem, firstFree) ==
        if Reserved(i, npagesBasemem, firstFree) then free else [i] + free
  {
  }

  lemma NoChain(pages: seq<PageInfo>)
    ensures Chain(pages, None, [])
  {
  }

  lemma EntryRemoved(s: State, e: nat, i: nat, j: nat)
    requires Inv(s) && e in s.vm.dirs && i < PDX_UTOP && j < NPTENTRIES
    ensures var d := s.vm.dirs[e]; var s' := Vm.PageRemove(s, d, i, j);
      Inv(s') && s'.vm.dirs == s.vm.dirs && Walk(s'.vm, d, i) == Walk(s.vm, d, i)
  {
    PageRemoveKeeps(s, multiset{}, e, i, j);
    hide InvWith;
    hide Vm.PageRemove;
  }

  lemma TableInUse(s: State, e: nat, i: nat)
    requires Inv(s) && e in s.vm.dirs && i < PDX_UTOP && Walk(s.vm, s.vm.dirs[e], i).Some?
    ensures Walk(s.vm, s.vm.dirs[e], i).value < |s.refs| && Walk(s.vm, s.vm.dirs[e], i).value !in s.free
  {
    Referenced(s, multiset{}, Pde(e, i));
  }

  /** env_setup_vm's page is in memory, and its result keeps the invariant. */
  lemma NewDirInRange(s: State, e: nat)
    requires Inv(s) && e < NENV && e !in s.vm.dirs
    ensures s.vm.kdir < |s.vm.mem| && Inv(Vm.EnvSetupVm(s, e).0)
    ensures s.free != [] ==> s.free[0] < |s.vm.mem|
  {
    EnvSetupKeeps(s, e);
    if s.free != [] {
      assert s.free[0] in s.free;
    }
  }

  /** The words that a walk to entry (i, j) reads lie in memory, and a mapped page is in use. */
  ghost predicate Reachable(s: State, d: nat, i: nat, j: nat) {
    && d < |s.vm.mem| && i < NPDENTRIES && j < NPTENTRIES
    && match Walk(s.vm, d, i)
       case None => true
       case Some(t) =>
         && t < |s.vm.mem|
         && (Get(s.vm, t, j).flags.p ==> Get(s.vm, t, j).frame < |s.refs| && Get(s.vm, t, j).frame as nat !in s.free)
  }

  /** page_insert's walk stays in range, and so does what it finds. */
  lemma InsertInRange(s: State, pend: multiset<nat>, e: nat, p: FrameNo, i: nat, j: nat, perm: Flags)
    requires InvWith(s, pend) && e in s.vm.dirs && i < PDX_UTOP && j < NPTENTRIES && p < |s.refs| && p as nat !in s.free
    ensures var d := s.vm.dirs[e]; var (s1, pte) := WalkCreate(s, d, i);
      && d < |s.vm.mem| && p as nat !in s1.free && |s1.refs| == |s.refs|
      && (pte.Some? ==> Reachable(s1, d, i, j) && Walk(s1.vm, d, i) == pte)
      && (s.refs[p] < MAXREF ==> InvWith(Vm.PageInsert(s, d, p, i, j, perm).0, pend))
  {
    WalkCreateKeeps(s, pend, e, i);
    WalkCreateBooks(s, pend, s.vm.dirs[e], i, p);
    RootFacts(s, pend, e);
    if s.refs[p] < MAXREF {
      PageInsertKeeps(s, pend, e, p, i, j, perm);
    }
    hide InvWith;
    hide Vm.PageInsert;
    EntryInRange(WalkCreate(s, s.vm.dirs[e], i).0, pend, e, i, j);
    hide WalkCreate;
  }

  class Machine {
    const pages: array<PageInfo>
    const mem: array<Page>
    const kernPgdir: nat
    const envPgdir: array<Option<nat>>
    var pageFreeList: Option<nat>
    ghost var st: State

    ghost predicate Valid()
      reads this, pages, mem, envPgdir
    {
      && pages.Length == mem.Length == |st.refs| == |st.base| && mem.Length <= MAXFRAMES
      && envPgdir.Length == NENV
      && mem[..] == st.vm.mem && kernPgdir == st.vm.kdir
      && (forall p :: 0 <= p < pages.Length ==> pages[p].ref == st.refs[p])
      && Chain(pages[..], pageFreeList, st.free) && NoDup(st.free)
      && (forall p :: 0 <= p < pages.Length && p !in st.free ==> pages[p].link == None)
      && (forall e :: 0 <= e < NENV ==> envPgdir[e] == if e in st.vm.dirs then Some(st.vm.dirs[e]) else None)
      && (forall e :: e in st.vm.dirs ==> e < NENV)
    }

    /** page_init on a pages[] array that mem_init has cleared. */
    constructor (memory: array<Page>, kdir: nat, npagesBasemem: nat, firstFree: nat)
      requires kdir < memory.Length <= MAXFRAMES
      ensures Valid() && fresh(pages) && fresh(envPgdir) && mem == memory
      ensures st == PageInit(memory[..], kdir, npagesBasemem, firstFree)
    {
      hide Chain;
      hide VmInvariant.NoDup;
      pages := new PageInfo[memory.Length](_ => PageInfo(None, 0));
      mem := memory;
      kernPgdir := kdir;
      envPgdir := new Option<nat>[NENV](_ => None);
      pageFreeList := None;
      st := PageInit(memory[..], kdir, npagesBasemem, firstFree);
      new;
      PageInitLoop(npagesBasemem, firstFree);
      assert mem[..] == st.vm.mem;
    }

    /** The body of page_init. */
    method PageInitLoop(npagesBasemem: nat, firstFree: nat)
      requires 0 < pages.Length && pageFreeList == None
      requires forall p :: 0 <= p < pages.Length ==> pages[p] == PageInfo(None, 0)
      modifies this`pageFreeList, pages
      ensures Chain(pages[..], pageFreeList, FreeBelow(pages.Length, npagesBasemem, firstFree))
      ensures forall p :: 0 <= p < pages.Length ==>
        pages[p].ref == if Reserved(p, npagesBasemem, firstFree) then 1 else 0
      ensures forall p :: 0 <= p < pages.Length && Reserved(p, npagesBasemem, firstFree) ==> pages[p].link == None
    {
      hide Chain;
      hide VmInvariant.NoDup;
      hide FreeBelow;
      hide Reserved;
      pages[0] := PageInfo(None, 1);
      FirstFree(npagesBasemem, firstFree);
      NoChain(pages[..]);
      for i := 1 to pages.Length
        invariant forall p :: 0 <= p < i ==> pages[p].ref == if Reserved(p, npagesBasemem, firstFree) then 1 else 0
        invariant forall p :: 0 <= p < i && Reserved(p, npagesBasemem, firstFree) ==> pages[p].link == None
        invariant Chain(pages[..], pageFreeList, FreeBelow(i, npagesBasemem, firstFree))
      {
        ghost var free := FreeBelow(i, npagesBasemem, firstFree);
        NextFree(i, npagesBasemem, firstFree);
        var currentPhysicalAddress := PGSIZE * i;
        if i < npagesBasemem {
          PushFree(pages[..], pageFreeList, free, i);
          pages[i] := PageInfo(pageFreeList, 0);
          pageFreeList := Some(i);
        } else if IOPHYSMEM <= currentPhysicalAddress < EXTPHYSMEM {
          ChainFrame(pages[..], pages[..][i := PageInfo(None, 1)], pageFreeList, free);
          pages[i] := PageInfo(None, 1);
        } else if currentPhysicalAddress < firstFree {
          ChainFrame(pages[..], pages[..][i := PageInfo(None, 1)], pageFreeList, free);
          pages[i] := PageInfo(None, 1);
        } else {
          PushFree(pages[..], pageFreeList, free, i);
          pages[i] := PageInfo(pageFreeList, 0);
          pageFreeList := Some(i);
        }
      }
    }

    /** The head of check_page_free_list(1): a panic on an empty list, else low pages to the front. */
    method LowPagesFirst() returns (panicked: bool)
      requires Valid()
      modifies this, pages
      ensures Valid() && (panicked <==> old(st).free == [])
      ensures st == if panicked then old(st) else old(st).(free := FreeListSplit.Partition(old(st).free))
    {
      hide FreeListSplit.Side;
      if pageFreeList == None {
        return true;
      }
      FreeListSplit.SidesNoDup(st.free);
      pageFreeList := FreeListSplit.LowPagesFirst(pages, pageFreeList, st.free);
      assert forall p :: p in FreeListSplit.Partition(st.free) <==> p in st.free;
      st := st.(free := FreeListSplit.Partition(st.free));
      return false;
    }

    /** page_alloc: pop the head of the list, and clear the page if asked to. */
    method PageAlloc(zero: bool) returns (pp: Option<nat>)
      requires Valid()
      modifies this, pages, mem
      ensures Valid() && (st, pp) == Vm.PageAlloc(old(st), zero)
    {
      if pageFreeList == None {
        return None;
      }
      var p := pageFreeList.value;
      ghost var was := pages[..];
      pageFreeList := pages[p].link;
      pages[p] := pages[p].(link := None);
      st := Vm.PageAlloc(st, false).0;
      assert old(st).free == [p] + st.free;
      ChainFrame(was, pages[..], pageFreeList, st.free);
      if zero {
        mem[p] := ZeroPage();
        st := st.(vm := SetPage(st.vm, p, ZeroPage()));
      }
      return Some(p);
    }

    /** The last page of the free list: the one page on it whose link is NULL. */
    ghost predicate Tail(pp: nat)
      reads this
    {
      st.free != [] && pp == st.free[|st.free| - 1]
    }

    /**
      page_free.  It panics on a page that is referenced or has a link.  The list's tail has neither, so
      a second free of it goes through, and leaves links that no finite list follows.
     */
    method PageFree(pp: nat) returns (panicked: bool)
      requires Valid() && pp < pages.Length
      modifies this, pages
      ensures panicked <==> old(st).refs[pp] != 0 || (pp in old(st).free && !old(Tail(pp)))
      ensures panicked ==> Valid() && st == old(st) && pages[..] == old(pages[..]) && pageFreeList == old(pageFreeList)
      ensures !panicked && pp !in old(st).free ==> Valid() && st == Vm.PageFree(old(st), pp)
      ensures !panicked && pp in old(st).free ==>
        pages[..] == old(pages[..])[pp := PageInfo(old(pageFreeList), 0)] && pageFreeList == Some(pp)
        && forall xs :: !Chain(pages[..], pageFreeList, xs)
    {
      ghost var was := pages[..];
      if pp in st.free {
        ghost var k :| 0 <= k < |st.free| && st.free[k] == pp;
        ChainMembers(was, pageFreeList, st.free, k);
      }
      if pages[pp].ref != 0 || pages[pp].link != None {
        return true;
      }
      ghost var head := pageFreeList;
      pages[pp] := PageInfo(pageFreeList, 0);
      pageFreeList := Some(pp);
      if pp in st.free {
        forall xs ensures !Chain(pages[..], pageFreeList, xs) {
          PushTail(was, head, st.free, pp, xs);
        }
      } else {
        ChainFrame(was, pages[..], head, st.free);
        st := Vm.PageFree(st, pp);
        assert st.free[1..] == old(st).free;
      }
      return false;
    }

    /** `pp->pp_ref += 1` */
    method Incref(pp: nat)
      requires Valid() && pp < pages.Length
      modifies this, pages
      ensures Valid() && st == Vm.Incref(old(st), pp)
    {
      ghost var was := pages[..];
      pages[pp] := pages[pp].(ref := Up(pages[pp].ref));
      ChainFrame(was, pages[..], pageFreeList, st.free);
      st := Vm.Incref(st, pp);
    }

    /** page_decref: the page must not be on the free list. */
    method PageDecref(pp: nat)
      requires Valid() && pp < pages.Length && pp !in st.free
      modifies this, pages
      ensures Valid() && st == Vm.PageDecref(old(st), pp)
    {
      ghost var was := pages[..];
      pages[pp] := pages[pp].(ref := Down(pages[pp].ref));
      ChainFrame(was, pages[..], pageFreeList, st.free);
      st := st.(refs := st.refs[pp := Down(st.refs[pp])]);
      if pages[pp].ref == 0 {
        var panicked := PageFree(pp);
      }
    }

    /** Store a word of physical memory. */
    method Store(f: nat, i: nat, w: Word)
      requires Valid() && f < mem.Length && i < NPTENTRIES
      modifies this, mem
      ensures Valid() && st == old(st).(vm := Put(old(st).vm, f, i, w))
    {
      mem[f] := mem[f][i := w];
      st := st.(vm := Put(st.vm, f, i, w));
    }

    /**
      pgdir_walk: the frame and index of the entry for va, None for NULL.  In the source the
      directory is a kernel virtual address and the result a pointer; both are frames here.
     */
    method PgdirWalk(pgdir: nat, va: Addr, create: bool) returns (pte: Option<(nat, nat)>)
      requires Valid() && pgdir < mem.Length
      modifies this, pages, mem
      ensures Valid()
      ensures var (s', table) :=
          if create then WalkCreate(old(st), pgdir, Pdx(va)) else (old(st), Walk(old(st).vm, pgdir, Pdx(va)));
        st == s' && pte == match table case None => None case Some(t) => Some((t, Ptx(va)))
    {
      var pde := mem[pgdir][Pdx(va)];
      if !pde.flags.p && !create {
        return None;
      } else if !pde.flags.p {
        var newPage := PageAlloc(true);
        if newPage == None {
          return None;
        }
        Incref(newPage.value);
        Store(pgdir, Pdx(va), Word(newPage.value, PTE_PWU));
        return Some((newPage.value, Ptx(va)));
      } else {
        return Some((pde.frame, Ptx(va)));
      }
    }

    /** page_lookup: the entry of va and the page it maps, or None for NULL. */
    method PageLookup(pgdir: nat, va: Addr) returns (found: Option<(nat, nat)>)
      requires Valid() && Reachable(st, pgdir, Pdx(va), Ptx(va))
      ensures found == Vm.PageLookup(st.vm, pgdir, Pdx(va), Ptx(va))
    {
      var pde := mem[pgdir][Pdx(va)];
      if !pde.flags.p {
        return None;
      }
      var pte := mem[pde.frame][Ptx(va)];
      if !pte.flags.p {
        return None;
      }
      return Some((pde.frame, pte.frame));
    }

    method PageRemove(pgdir: nat, va: Addr)
      requires Valid() && Reachable(st, pgdir, Pdx(va), Ptx(va))
      modifies this, pages, mem
      ensures Valid() && st == Vm.PageRemove(old(st), pgdir, Pdx(va), Ptx(va))
    {
      var found := PageLookup(pgdir, va);
      if found == None {
        return;
      }
      hide Valid;
      ValidSizes();
      Store(found.value.0, Ptx(va), ZERO);
      ValidSizes();
      PageDecref(found.value.1);
    }

    lemma ValidSizes()
      requires Valid()
      ensures pages.Length == mem.Length == |st.refs| == |st.vm.mem|
    {
    }

    /** page_insert once its walk has found the table. */
    method Install(pgdir: nat, table: nat, pp: FrameNo, va: Addr, perm: Flags)
      requires Valid() && Reachable(st, pgdir, Pdx(va), Ptx(va)) && Walk(st.vm, pgdir, Pdx(va)) == Some(table)
      requires pp < pages.Length && pp as nat !in st.free
      modifies this, pages, mem
      ensures Valid() && st == Vm.Install(old(st), pgdir, table, pp, Pdx(va), Ptx(va), perm)
    {
      Incref(pp);
      if mem[table][Ptx(va)].flags.p {
        PageRemove(pgdir, va);
      }
      hide Vm.PageRemove;
      Store(table, Ptx(va), Word(pp, Present(perm)));
    }

    /** page_insert: 0, or -E_NO_MEM when a table page could not be allocated. */
    method PageInsert(pgdir: nat, pp: FrameNo, va: Addr, perm: Flags, ghost pend: multiset<nat>, ghost e: nat)
      returns (r: int)
      requires Valid() && InvWith(st, pend)
      requires e in st.vm.dirs && pgdir == st.vm.dirs[e] && va < UTOP
      requires pp < pages.Length && pp as nat !in st.free
      modifies this, pages, mem
      ensures Valid() && (st, r == 0) == Vm.PageInsert(old(st), pgdir, pp, Pdx(va), Ptx(va), perm)
      ensures old(st).refs[pp] < MAXREF ==> InvWith(st, pend)
      ensures r == 0 || r == -E_NO_MEM
    {
      hide InvWith;
      hide Vm.Install;
      InsertInRange(st, pend, e, pp, Pdx(va), Ptx(va), perm);
      var pte := PgdirWalk(pgdir, va, true);
      hide WalkCreate;
      if pte == None {
        return -E_NO_MEM;
      }
      Install(pgdir, pte.value.0, pp, va, perm);
      return 0;
    }

    /** One turn of boot_map_region's loop. */
    method BootMapPage(va: Addr, pa: Addr, perm: Flags) returns (ok: bool)
      requires Valid() && Inv(st) && st.vm.dirs == map[] && KernRange(Pgnum(va), 1)
      modifies this, pages, mem
      ensures Valid()
      ensures match BootPage(old(st), Pgnum(va), pa / PGSIZE, perm)
        case None => !ok
        case Some(s') => ok && st == s' && Inv(st) && st.vm.dirs == map[]
    {
      hide InvWith;
      hide Put;
      hide Chain;
      hide VmInvariant.NoDup;
      BootTurn(st, Pgnum(va), pa / PGSIZE, perm);
      assert Pgnum(va) / NPTENTRIES == Pdx(va) && Pgnum(va) % NPTENTRIES == Ptx(va);
      hide WalkCreate;
      var pte := PgdirWalk(kernPgdir, va, true);
      if pte == None {
        return false;
      }
      Store(pte.value.0, pte.value.1, Word(pa / PGSIZE, Present(perm)));
      return true;
    }

    /** boot_map_region on kern_pgdir; false when it would store through a null entry pointer. */
    method BootMapRegion(va: Addr, size: Addr, pa: Addr, perm: Flags) returns (ok: bool)
      requires Valid() && Inv(st) && st.vm.dirs == map[]
      requires va % PGSIZE == 0 && pa % PGSIZE == 0 && KernRange(va / PGSIZE, size / PGSIZE)
      modifies this, pages, mem
      ensures Valid()
      ensures match BootMap(old(st), va / PGSIZE, size / PGSIZE, pa / PGSIZE, perm)
        case None => !ok
        case Some(s') => ok && st == s' && Inv(st)
    {
      hide InvWith;
      hide BootPage;
      var n := size / PGSIZE;
      ghost var vp, pf: FrameNo := va / PGSIZE, pa / PGSIZE;
      ghost var r := BootMap(st, vp, n, pf, perm);
      var currentPage := 0;
      while currentPage < n
        invariant 0 <= currentPage <= n && pf == (pa / PGSIZE + currentPage) % MAXFRAMES
        invariant Valid() && Inv(st) && st.vm.dirs == map[]
        invariant r == if currentPage < n then BootMap(st, vp + currentPage, n - currentPage, pf, perm) else Some(st)
      {
        NthBootPage(va, pa, currentPage);
        var mapped := BootMapPage((va + currentPage * PGSIZE) % 0x1_0000_0000,
                                  (pa + currentPage * PGSIZE) % 0x1_0000_0000, perm);
        if !mapped {
          return false;
        }
        currentPage := currentPage + 1;
        pf := NextFrame(pf);
      }
      return true;
    }

    /** The stores of env_setup_vm: a copy of kern_pgdir with a UVPT slot of its own. */
    method InstallDir(e: nat, d: FrameNo)
      requires Valid() && d < mem.Length && kernPgdir < mem.Length && e < NENV
      modifies this, mem, envPgdir
      ensures Valid() && kernPgdir < |old(st).vm.mem| && st == old(st).(vm := AddDir(old(st).vm, e, d))
    {
      envPgdir[e] := Some(d);
      mem[d] := mem[kernPgdir];
      mem[d] := mem[d][PDX_UVPT := Word(d, PTE_PU)];
      st := st.(vm := AddDir(st.vm, e, d));
    }

    /** env_setup_vm: 0, or -E_NO_MEM. */
    method EnvSetupVm(e: nat) returns (r: int)
      requires Valid() && Inv(st) && e < NENV && e !in st.vm.dirs
      modifies this, pages, mem, envPgdir
      ensures Valid() && Inv(st) && (st, r == 0) == Vm.EnvSetupVm(old(st), e)
      ensures r == 0 || r == -E_NO_MEM
    {
      NewDirInRange(st, e);
      hide InvWith;
      var p := PageAlloc(true);
      if p == None {
        return -E_NO_MEM;
      }
      Incref(p.value);
      hide AddDir;
      InstallDir(e, p.value);
      return 0;
    }

    /** One turn of env_free's inner loop. */
    method UnmapEntry(pgdir: nat, pt: nat, pdeno: nat, pteno: nat, ghost e: nat)
      requires Valid() && Inv(st)
      requires e in st.vm.dirs && pgdir == st.vm.dirs[e] && pdeno < PDX_UTOP && pteno < NPTENTRIES
      requires Walk(st.vm, pgdir, pdeno) == Some(pt)
      modifies this, pages, mem
      ensures Valid() && Inv(st)
      ensures st == if Get(old(st).vm, pt, pteno).flags.p then Vm.PageRemove(old(st), pgdir, pdeno, pteno) else old(st)
      ensures st.vm.dirs == old(st).vm.dirs && Walk(st.vm, pgdir, pdeno) == Some(pt)
    {
      hide InvWith;
      hide SameSlots;
      EntryInRange(st, multiset{}, e, pdeno, pteno);
      EntryRemoved(st, e, pdeno, pteno);
      hide Vm.PageRemove;
      if mem[pt][pteno].flags.p {
        PageAddress(pdeno, pteno);
        PageRemove(pgdir, pdeno * PTSIZE + pteno * PGSIZE);
      }
    }

    /** env_free's inner loop: unmap every entry of table pt. */
    method UnmapTable(pgdir: nat, pt: nat, pdeno: nat, ghost e: nat)
      requires Valid() && Inv(st)
      requires e in st.vm.dirs && pgdir == st.vm.dirs[e] && pdeno < PDX_UTOP && Walk(st.vm, pgdir, pdeno) == Some(pt)
      modifies this, pages, mem
      ensures Valid() && Inv(st) && st == Vm.UnmapTable(old(st), pgdir, pt, pdeno, 0)
      ensures st.vm.dirs == old(st).vm.dirs && Walk(st.vm, pgdir, pdeno) == Some(pt)
    {
      hide Inv;
      hide InvWith;
      hide Valid;
      hide Vm.PageRemove;
      hide Walk;
      var pteno := 0;
      while pteno < NPTENTRIES
        invariant 0 <= pteno <= NPTENTRIES
        invariant Valid() && Inv(st)
        invariant st.vm.dirs == old(st).vm.dirs && Walk(st.vm, pgdir, pdeno) == Some(pt)
        invariant Vm.UnmapTable(old(st), pgdir, pt, pdeno, 0) == Vm.UnmapTable(st, pgdir, pt, pdeno, pteno)
      {
        UnmapEntry(pgdir, pt, pdeno, pteno, e);
        pteno := pteno + 1;
      }
    }

    /** Clear a directory slot and give its table's reference back. */
    method FreeSlot(pgdir: nat, pdeno: nat, pt: nat)
      requires Valid() && pgdir < mem.Length && pdeno < NPDENTRIES && pt < pages.Length && pt !in st.free
      modifies this, pages, mem
      ensures Valid() && st == Vm.PageDecref(old(st).(vm := Put(old(st).vm, pgdir, pdeno, ZERO)), pt)
    {
      hide Vm.PageDecref;
      hide Put;
      Store(pgdir, pdeno, ZERO);
      PageDecref(pt);
    }

    /** One turn of env_free's outer loop: unmap every entry of a table, then give the table back. */
    method FreeTable(pgdir: nat, pdeno: nat, ghost e: nat)
      requires Valid() && Inv(st)
      requires e in st.vm.dirs && pgdir == st.vm.dirs[e] && pdeno < PDX_UTOP
      modifies this, pages, mem
      ensures Valid() && Inv(st) && st == Vm.FreeTable(old(st), pgdir, pdeno) && st.vm.dirs == old(st).vm.dirs
    {
      hide InvWith;
      EntryInRange(st, multiset{}, e, pdeno, 0);
      FreeTableKeeps(st, e, pdeno);
      hide SlotsFreed;
      if !mem[pgdir][pdeno].flags.p {
        return;
      }
      var pt := mem[pgdir][pdeno].frame;
      UnmapTable(pgdir, pt, pdeno, e);
      hide Vm.UnmapTable;
      TableInUse(st, e, pdeno);
      FreeSlot(pgdir, pdeno, pt);
    }

    /** env_free's outer loop. */
    method FreeTables(pgdir: nat, ghost e: nat)
      requires Valid() && Inv(st) && e in st.vm.dirs && pgdir == st.vm.dirs[e]
      modifies this, pages, mem
      ensures Valid() && Inv(st) && st == Vm.FreeTables(old(st), pgdir, 0) && st.vm.dirs == old(st).vm.dirs
    {
      hide InvWith;
      hide Vm.FreeTable;
      var pdeno := 0;
      while pdeno < PDX_UTOP
        invariant 0 <= pdeno <= PDX_UTOP
        invariant Valid() && Inv(st) && st.vm.dirs == old(st).vm.dirs
        invariant Vm.FreeTables(old(st), pgdir, 0) == Vm.FreeTables(st, pgdir, pdeno)
      {
        FreeTable(pgdir, pdeno, e);
        pdeno := pdeno + 1;
      }
    }

    /** `e->env_pgdir = 0`, and the directory's reference given back. */
    method FreeDir(e: nat, d: nat)
      requires Valid() && e < NENV && d < pages.Length && d !in st.free
      modifies this, pages, envPgdir
      ensures Valid() && st == Vm.PageDecref(old(st).(vm := old(st).vm.(dirs := old(st).vm.dirs - {e})), d)
    {
      hide Vm.PageDecref;
      envPgdir[e] := None;
      st := st.(vm := st.vm.(dirs := st.vm.dirs - {e}));
      PageDecref(d);
    }

    /** env_free's work on memory: every user table, then the directory. */
    method EnvFree(e: nat)
      requires Valid() && Inv(st) && e in st.vm.dirs
      modifies this, pages, mem, envPgdir
      ensures Valid() && Inv(st) && st == Vm.EnvFree(old(st), e)
    {
      hide InvWith;
      EnvFreeKeeps(st, e);
      hide OthersSame;
      var d := envPgdir[e].value;
      FreeTables(d, e);
      hide Vm.FreeTables;
      RootFacts(st, multiset{}, e);
      FreeDir(e, d);
    }
  }
}
