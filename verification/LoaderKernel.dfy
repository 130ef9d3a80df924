/**
  region_alloc and load_icode of kern/env.c as they are performed on the machine.  Each method follows
  the function of the same name in `Loader`.
 */
module LoaderKernel {
  import opened Mmu
  import opened Vm
  import opened VmInvariant
  import opened VmSteps
  import opened AddressSpace
  import opened Bytes
  import opened UserMemory
  import opened Loader
  import opened PageTables
  import Kernel

  /** region_alloc's page count, in 32-bit arithmetic. */
  lemma PagesOfRegion(va: Addr, len: Addr)
    requires len > 0 && va + len <= UTOP
    ensures va / PGSIZE < EndPage(va, len) <= PDX_UTOP * NPTENTRIES
    ensures (RoundUp((va + len) % 0x1_0000_0000) - RoundDown(va)) % 0x1_0000_0000 ==
      (EndPage(va, len) - va / PGSIZE) * PGSIZE
  {
    PageCount(va, len);
  }

  lemma NthAddress(va: Addr, n: nat, i: nat)
    requires n == va / PGSIZE && n + i < PDX_UTOP * NPTENTRIES
    ensures var a := RoundDown(va) + i * PGSIZE; a < UTOP && Pdx(a) == PageOf(n + i).i && Ptx(a) == PageOf(n + i).j
  {
    assert RoundDown(va) + i * PGSIZE == (n + i) * PGSIZE;
  }

  /** A page just allocated may be inserted. */
  lemma FreshlyAllocated(s: State, zero: bool)
    requires Inv(s)
    ensures var (s1, page) := PageAlloc(s, zero);
      && Inv(s1) && s1.vm.dirs == s.vm.dirs
      && (page.Some? ==> page.value < |s1.refs| <= MAXFRAMES && page.value !in s1.free && s1.refs[page.value] == 0)
  {
    AllocKeeps(s, multiset{}, zero);
  }

  lemma InsertKeepsDirs(s: State, e: nat, p: FrameNo, i: nat, j: nat, perm: Flags)
    requires Inv(s) && e in s.vm.dirs && i < PDX_UTOP && j < NPTENTRIES
    requires p < |s.refs| && p as nat !in s.free && s.refs[p] < MAXREF
    ensures PageInsert(s, s.vm.dirs[e], p, i, j, perm).0.vm.dirs == s.vm.dirs
  {
    PageInsertKeeps(s, multiset{}, e, p, i, j, perm);
  }

  lemma MachineFacts(m: Kernel.Machine, e: nat)
    requires m.Valid() && Inv(m.st) && e in m.st.vm.dirs
    ensures m.pages.Length == m.mem.Length == |m.st.refs| == |m.st.vm.mem|
    ensures e < m.envPgdir.Length && m.envPgdir[e] == Some(m.st.vm.dirs[e]) && m.st.vm.dirs[e] < m.mem.Length
    ensures m.pageFreeList == None <==> m.st.free == []
  {
  }

  /** One turn of region_alloc's loop; false for its panic. */
  method RegionPage(m: Kernel.Machine, e: nat, va: Addr, ghost n: nat) returns (ok: bool)
    requires m.Valid() && Inv(m.st) && e in m.st.vm.dirs
    requires va < UTOP && n < PDX_UTOP * NPTENTRIES && Pdx(va) == PageOf(n).i && Ptx(va) == PageOf(n).j
    modifies m, m.pages, m.mem
    ensures m.Valid() && Inv(m.st) && m.st.vm.dirs == old(m.st).vm.dirs
    ensures Loader.RegionPage(old(m.st), old(m.st).vm.dirs[e], n) == if ok then Some(m.st) else None
  {
    hide InvWith;
    hide m.Valid;
    FreshlyAllocated(m.st, false);
    MachineFacts(m, e);
    var newPage := m.PageAlloc(false);
    hide PageAlloc;
    if newPage == None {
      return false;
    }
    MachineFacts(m, e);
    InsertKeepsDirs(m.st, e, newPage.value, Pdx(va), Ptx(va), PTE_PWU);
    hide PageInsert;
    var pgdir := m.envPgdir[e].value;
    var pass := m.PageInsert(pgdir, newPage.value, va, PTE_PWU, multiset{}, e);
    return true;
  }

  /** region_alloc; false for its panic. */
  method RegionAlloc(m: Kernel.Machine, e: nat, va: Addr, len: Addr) returns (ok: bool)
    requires m.Valid() && Inv(m.st) && e in m.st.vm.dirs && va + len <= UTOP
    modifies m, m.pages, m.mem
    ensures m.Valid() && Inv(m.st) && m.st.vm.dirs == old(m.st).vm.dirs
    ensures SegRegion(old(m.st), old(m.st).vm.dirs[e], Segment(va, 0, 0, len)) == if ok then Some(m.st) else None
  {
    hide Inv;
    hide m.Valid;
    hide Loader.RegionPage;
    if len == 0 {
      return true;
    }
    var roundedUp := RoundUp((va + len) % 0x1_0000_0000);
    var roundedDown := RoundDown(va);
    var totalPages := (roundedUp - roundedDown) % 0x1_0000_0000 / PGSIZE;
    PagesOfRegion(va, len);
    ghost var d, n, end := m.st.vm.dirs[e], va / PGSIZE, EndPage(va, len);
    hide RoundUp;
    hide EndPage;
    var i := 0;
    while i < totalPages
      invariant 0 <= i <= totalPages == end - n
      invariant m.Valid() && Inv(m.st) && m.st.vm.dirs == old(m.st).vm.dirs
      invariant Loader.RegionAlloc(old(m.st), d, n, end) == Loader.RegionAlloc(m.st, d, n + i, end)
    {
      NthAddress(va, n, i);
      ok := RegionPage(m, e, roundedDown + i * PGSIZE, n + i);
      if !ok {
        return false;
      }
      i := i + 1;
    }
    return true;
  }

  // ---- memset and memcpy --------------------------------------------------------------------

  lemma PageIndices(va: Addr)
    ensures PageOf(Pgnum(va)).i == Pdx(va) < NPDENTRIES && PageOf(Pgnum(va)).j == Ptx(va) && Pgoff(va) / 4 < NPTENTRIES
  {
  }

  /** A byte store by the kernel, as the MMU performs it; false for a page fault. */
  method StoreAt(m: Kernel.Machine, d: nat, va: Addr, b: Byte) returns (ok: bool)
    requires m.Valid() && d < m.mem.Length
    modifies m, m.mem
    ensures m.Valid()
    ensures match PutByte(old(m.st).vm, d, va, b)
      case None => !ok && m.st == old(m.st)
      case Some(vm') => ok && m.st == old(m.st).(vm := vm')
  {
    hide StoreByte;
    hide PageOf;
    PageIndices(va);
    var pde := m.mem[d][Pdx(va)];
    if !pde.flags.p || pde.frame >= m.mem.Length {
      return false;
    }
    var pte := m.mem[pde.frame][Ptx(va)];
    if !pte.flags.p || !pte.flags.w || !pde.flags.w {
      return false;
    }
    if pte.frame < m.mem.Length {
      var k := Pgoff(va);
      m.Store(pte.frame, k / 4, StoreByte(m.mem[pte.frame][k / 4], k % 4, b));
    }
    return true;
  }

  /** memcpy to va; memset when all bytes are equal. */
  method StoreBytes(m: Kernel.Machine, d: nat, va: nat, data: seq<Byte>) returns (ok: bool)
    requires m.Valid() && d < m.mem.Length && va + |data| <= 0x1_0000_0000
    modifies m, m.mem
    ensures m.Valid()
    ensures match WriteBytes(old(m.st).vm, d, va, data)
      case None => !ok
      case Some(vm') => ok && m.st == old(m.st).(vm := vm')
  {
    hide m.Valid;
    hide PutByte;
    ghost var s := m.st;
    var k := 0;
    while k < |data|
      invariant 0 <= k <= |data| && m.Valid()
      invariant m.st == s.(vm := m.st.vm)
      invariant WriteBytes(s.vm, d, va, data) == WriteBytes(m.st.vm, d, va + k, data[k..])
    {
      assert data[k..][1..] == data[k + 1..];
      ok := StoreAt(m, d, va + k, data[k]);
      if !ok {
        return false;
      }
      k := k + 1;
    }
    return true;
  }

  // ---- load_icode ---------------------------------------------------------------------------

  lemma GoingFacts(s0: State, s: State, e: nat, pages: set<VPage>)
    requires e in s0.vm.dirs && Going(s0, s, e, pages)
    ensures Inv(s) && s.vm.dirs == s0.vm.dirs
  {
    hide Inv;
    hide Need;
  }

  /**
    The body of load_icode's loop for a loadable segment, whose stores go through the directory that is
    loaded; false when it panics or faults.
   */
  method LoadSegment(m: Kernel.Machine, e: nat, cr3: nat, seg: Segment, binary: seq<Byte>) returns (ok: bool)
    requires m.Valid() && Inv(m.st) && e in m.st.vm.dirs && cr3 == m.st.vm.dirs[e] && Loadable(seg, binary)
    modifies m, m.pages, m.mem
    ensures m.Valid()
    ensures match Loader.LoadSegment(old(m.st), old(m.st).vm.dirs[e], seg, binary)
      case None => !ok
      case Some(s') => ok && m.st == s'
  {
    hide Inv;
    hide m.Valid;
    hide WriteBytes;
    hide Loader.RegionAlloc;
    MachineFacts(m, e);
    ok := RegionAlloc(m, e, seg.va, seg.memsz);
    if !ok {
      return false;
    }
    MachineFacts(m, e);
    ok := StoreBytes(m, cr3, seg.va, Zeros(seg.memsz));
    if !ok {
      return false;
    }
    ok := StoreBytes(m, cr3, seg.va, binary[seg.offset..seg.offset + seg.filesz]);
  }

  /** The stack page; false when load_icode panics for want of one. */
  method LoadStack(m: Kernel.Machine, e: nat) returns (ok: bool)
    requires m.Valid() && Inv(m.st) && e in m.st.vm.dirs
    modifies m, m.pages, m.mem
    ensures m.Valid()
    ensures match Loader.LoadStack(old(m.st), old(m.st).vm.dirs[e])
      case None => !ok
      case Some(s') => ok && m.st == s'
  {
    hide InvWith;
    hide m.Valid;
    FreshlyAllocated(m.st, true);
    MachineFacts(m, e);
    var newPage := m.PageAlloc(true);
    hide PageAlloc;
    if newPage == None {
      return false;
    }
    MachineFacts(m, e);
    InsertKeepsDirs(m.st, e, newPage.value, STACKPAGE.i, STACKPAGE.j, PTE_PWU);
    hide PageInsert;
    var pgdir := m.envPgdir[e].value;
    var pass := m.PageInsert(pgdir, newPage.value, USTACKTOP - PGSIZE, PTE_PWU, multiset{}, e);
    return pass == 0;
  }

  /** The loop over the program headers. */
  method LoadAll(m: Kernel.Machine, e: nat, cr3: nat, binary: seq<Byte>) returns (ok: bool)
    requires m.Valid() && Inv(m.st) && e in m.st.vm.dirs && cr3 == m.st.vm.dirs[e] && Mapping(m.st.vm, e) == map[]
    requires WellFormed(binary) && Separate(Segments(binary, 0))
    modifies m, m.pages, m.mem
    ensures m.Valid()
    ensures match LoadSegments(old(m.st), old(m.st).vm.dirs[e], Segments(binary, 0), binary)
      case None => !ok
      case Some(s') => ok && m.st == s' && Inv(s') && e in s'.vm.dirs
  {
    hide InvWith;
    hide m.Valid;
    hide Loadable;
    hide SegPages;
    hide Loader.LoadSegment;
    hide Need;
    hide Going;
    hide Header;
    ghost var s, d := m.st, m.st.vm.dirs[e];
    ghost var pages: set<VPage> := {};
    StartLoading(s, e);
    SeparateApart(Segments(binary, 0), {});
    var ph, eph := 0, Half(binary, 44);
    while ph < eph
      invariant 0 <= ph <= eph == Half(binary, 44) && m.Valid()
      invariant Going(s, m.st, e, pages) && Need(s.vm, d, pages) <= |s.free|
      invariant Apart(Segments(binary, ph), pages)
      invariant forall seg :: seg in Segments(binary, ph) ==> Loadable(seg, binary)
      invariant LoadSegments(s, d, Segments(binary, 0), binary) == LoadSegments(m.st, d, Segments(binary, ph), binary)
    {
      var (pType, seg) := Header(binary, ph);
      if pType == ELF_PROG_LOAD {
        assert Segments(binary, ph) == [seg] + Segments(binary, ph + 1);
        assert Segments(binary, ph)[1..] == Segments(binary, ph + 1);
        GoingFacts(s, m.st, e, pages);
        SegmentExact(s, m.st, e, pages, seg, binary);
        ok := LoadSegment(m, e, cr3, seg, binary);
        if !ok {
          return false;
        }
        pages := pages + SegPages(seg);
      }
      ph := ph + 1;
    }
    GoingFacts(s, m.st, e, pages);
    return true;
  }

  /**
    load_icode; ok is false when it panics or faults.  It loads the environment's directory into cr3 for
    the stores and kern_pgdir at the end, and sets tf_eip.
   */
  method LoadIcode(m: Kernel.Machine, e: nat, binary: seq<Byte>) returns (ok: bool, cr3: nat, eip: Addr)
    requires m.Valid() && Inv(m.st) && e in m.st.vm.dirs && Mapping(m.st.vm, e) == map[]
    requires WellFormed(binary) && Separate(Segments(binary, 0))
    modifies m, m.pages, m.mem
    ensures m.Valid()
    ensures match Loader.LoadIcode(old(m.st), old(m.st).vm.dirs[e], binary)
      case None => !ok
      case Some((s', entry)) => ok && m.st == s' && cr3 == m.st.vm.kdir && eip == entry
  {
    hide InvWith;
    hide m.Valid;
    hide LoadSegments;
    hide Segments;
    hide Loader.LoadStack;
    eip := 0;
    MachineFacts(m, e);
    cr3 := m.envPgdir[e].value;
    if Full(binary, 0) != ELF_MAGIC {
      return false, cr3, eip;
    }
    LoadedDirs(m.st, e, binary);
    ok := LoadAll(m, e, cr3, binary);
    if ok {
      ok := LoadStack(m, e);
      KernelLoaded(m);
      cr3, eip := m.kernPgdir, EntryPoint(binary);
    }
  }

  lemma KernelLoaded(m: Kernel.Machine)
    requires m.Valid()
    ensures m.kernPgdir == m.st.vm.kdir
  {
  }

  lemma LoadedDirs(s: State, e: nat, binary: seq<Byte>)
    requires Inv(s) && e in s.vm.dirs && Mapping(s.vm, e) == map[]
    requires WellFormed(binary) && Separate(Segments(binary, 0))
    ensures var r := LoadSegments(s, s.vm.dirs[e], Segments(binary, 0), binary);
      r.Some? ==> r.value.vm.dirs == s.vm.dirs
  {
    hide Inv;
    hide Need;
    hide Going;
    StartLoading(s, e);
    SeparateApart(Segments(binary, 0), {});
    SegmentsExact(s, s, e, {}, Segments(binary, 0), binary);
    var r := LoadSegments(s, s.vm.dirs[e], Segments(binary, 0), binary);
    if r.Some? {
      GoingFacts(s, r.value, e, {} + AllPages(Segments(binary, 0)));
    }
  }
}
