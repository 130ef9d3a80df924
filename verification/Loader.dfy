/**
  region_alloc and load_icode of kern/env.c: what an environment's memory holds, byte by byte, once
  its program has been loaded.
 */
module Loader {
  import opened Mmu
  import opened Vm
  import opened VmInvariant
  import opened VmSteps
  import opened PageTables
  import opened AddressSpace
  import opened Bytes
  import opened UserMemory

  // ---- region_alloc -------------------------------------------------------------------------

  /** One turn of region_alloc's loop, for page number n.  None for its panic; a failed page_insert goes unnoticed. */
  function RegionPage(s: State, d: nat, n: nat): Option<State> {
    var (s1, page) := PageAlloc(s, false);
    match page
    case None => None
    case Some(p) => if p < MAXFRAMES then Some(PageInsert(s1, d, p, PageOf(n).i, PageOf(n).j, PTE_PWU).0) else None
  }

  /** The loop of region_alloc, from page number n on. */
  function RegionAlloc(s: State, d: nat, n: nat, end: nat): Option<State>
    decreases end - n
  {
    if n >= end then Some(s)
    else
      match RegionPage(s, d, n)
      case None => None
      case Some(s1) => RegionAlloc(s1, d, n + 1, end)
  }

  // ---- one more page ------------------------------------------------------------------------

  /** What page_insert does when the entry is free: one reference, at most one table, and two words. */
  lemma InsertFresh(s: State, d: nat, p: FrameNo, i: nat, j: nat, perm: Flags, q: nat)
    requires Inv(s) && p < |s.refs| && p as nat !in s.free && s.refs[p] < MAXREF && i < NPDENTRIES && j < NPTENTRIES
    requires d < |s.vm.mem| && d !in s.free && !Leaf(s.vm, d, i, j).flags.p && PageInsert(s, d, p, i, j, perm).1
    requires q < |s.refs| && q !in s.free
    ensures var s' := PageInsert(s, d, p, i, j, perm).0; var t := Walk(s.vm, d, i);
      && (t.Some? ==> s'.free == s.free) && (t.None? ==> s.free != [] && s'.free == s.free[1..])
      && |s'.refs| == |s.refs| && s'.refs[q] == (if q == p then s.refs[q] + 1 else s.refs[q]) && s'.base == s.base
      && |s'.vm.mem| == |s.vm.mem| && (q != d && t != Some(q) ==> s'.vm.mem[q] == s.vm.mem[q])
  {
    hide InvWith;
    WalkFresh(s, d, i, q);
    WalkFresh(s, d, i, p);
    hide WalkCreate;
    var (s1, pte) := WalkCreate(s, d, i);
    assert !Get(s1.vm, pte.value, j).flags.p;
  }

  /** What pgdir_walk with create does to memory and the books. */
  lemma WalkFresh(s: State, d: nat, i: nat, q: nat)
    requires Inv(s) && i < NPDENTRIES && d < |s.vm.mem| && d !in s.free && q < |s.refs| && q !in s.free
    ensures |s.vm.mem| == |s.refs|
    ensures var (s1, pte) := WalkCreate(s, d, i); var t := Walk(s.vm, d, i);
      && (t.Some? ==> s1 == s && pte == t)
      && (t.None? && pte.Some? ==>
            && s.free != [] && s1.free == s.free[1..] && q !in s1.free && |s1.refs| == |s.refs|
            && s1.refs[q] == s.refs[q] && s1.base == s.base
            && |s1.vm.mem| == |s.vm.mem| && (q != d ==> s1.vm.mem[q] == s.vm.mem[q])
            && pte.value in s.free && forall j: nat :: Get(s1.vm, pte.value, j) == ZERO)
  {
    if Walk(s.vm, d, i).None? && s.free != [] {
      assert s.free[0] in s.free;
    }
  }

  ghost predicate SameBytes(vm: Tables, vm': Tables, d: nat, pages: set<VPage>) {
    forall a: Addr :: PageOf(Pgnum(a)) in pages ==> ByteAt(vm', d, a) == ByteAt(vm, d, a)
  }

  lemma FramesSame(vm: Tables, vm': Tables, d: nat, pages: set<VPage>)
    requires |vm'.mem| == |vm.mem|
    requires forall v :: v in pages ==>
      && LeafOf(vm', d, v) == LeafOf(vm, d, v)
      && LeafOf(vm, d, v).frame < |vm.mem| && vm'.mem[LeafOf(vm, d, v).frame] == vm.mem[LeafOf(vm, d, v).frame]
    ensures SameBytes(vm, vm', d, pages)
  {
  }

  /** page_alloc during loading. */
  lemma AllocProgress(s0: State, s: State, e: nat, pages: set<VPage>, zero: bool)
    requires e in s0.vm.dirs && Progress(s0, s, e, pages) && s.free != []
    ensures var (s1, page) := PageAlloc(s, zero);
      && page == Some(s.free[0]) && Progress(s0, s1, e, pages) && SameBytes(s.vm, s1.vm, s0.vm.dirs[e], pages)
      && s1.free == s.free[1..] && s1.refs == s.refs && s1.base == s.base
      && (forall i: nat :: Walk(s1.vm, s0.vm.dirs[e], i) == Walk(s.vm, s0.vm.dirs[e], i))
      && s.free[0] < |s1.refs| == |s1.base| <= MAXFRAMES && s1.refs[s.free[0]] == 0 && s1.base[s.free[0]] == 0
      && s.free[0] !in s1.free
      && (zero ==> forall k: nat :: Get(s1.vm, s.free[0], k) == ZERO)
  {
    var d := s0.vm.dirs[e];
    var p := s.free[0];
    assert p in s.free;
    AllocKeeps(s, multiset{}, zero);
    var s1 := PageAlloc(s, zero).0;
    if zero {
      ZeroPageAlloc(s, multiset{});
    }
    assert |s1.refs| <= MAXFRAMES;
    hide InvWith;
    assert AllViews(s.vm, s1.vm);
    assert SameView(s.vm, s1.vm, d) by { assert IsRoot(s.vm, d); }
    forall v | v in pages ensures LeafOf(s.vm, d, v).frame < |s.vm.mem| && LeafOf(s.vm, d, v).frame != p {
      OwnedAlone(s, e, v);
    }
    ViewsKeepProgress(s0, s, s1, e, pages);
    FramesSame(s.vm, s1.vm, d, pages);
  }

  /** An owned page's frame is neither the directory nor the table of another page. */
  lemma OwnedNoTable(s: State, e: nat, v: VPage, i: nat)
    requires Inv(s) && e in s.vm.dirs && Owned(s, e, v) && i < PDX_UTOP
    ensures var f := LeafOf(s.vm, s.vm.dirs[e], v).frame as nat;
      f != s.vm.dirs[e] && Walk(s.vm, s.vm.dirs[e], i) != Some(f)
  {
    OwnedAlone(s, e, v);
    hide InvWith;
    var f := LeafOf(s.vm, s.vm.dirs[e], v).frame as nat;
    assert Target(s.vm, Root(e)) == Some(s.vm.dirs[e]);
    assert Target(s.vm, Pde(e, i)) == Walk(s.vm, s.vm.dirs[e], i);
  }

  /** What page_insert keeps of the pages loaded before. */
  lemma InsertKeepsOwned(s: State, e: nat, p: FrameNo, v: VPage, q: VPage)
    requires Inv(s) && e in s.vm.dirs && v.i < PDX_UTOP && v.j < NPTENTRIES && v != q
    requires p < |s.refs| && p as nat !in s.free && s.refs[p] == 0 && !LeafOf(s.vm, s.vm.dirs[e], v).flags.p
    requires Owned(s, e, q)
    ensures var d := s.vm.dirs[e]; var (s', ok) := PageInsert(s, d, p, v.i, v.j, PTE_PWU);
      ok ==>
        && e in s'.vm.dirs && s'.vm.dirs[e] == d && Owned(s', e, q) && LeafOf(s'.vm, d, q) == LeafOf(s.vm, d, q)
        && |s'.vm.mem| == |s.vm.mem| && LeafOf(s.vm, d, q).frame < |s.vm.mem|
        && s'.vm.mem[LeafOf(s.vm, d, q).frame] == s.vm.mem[LeafOf(s.vm, d, q).frame]
  {
    hide InvWith;
    hide PageInsert;
    hide OthersSame;
    var d := s.vm.dirs[e];
    var f := LeafOf(s.vm, d, q).frame as nat;
    OwnedAlone(s, e, q);
    OwnedNoTable(s, e, q, v.i);
    RootFacts(s, multiset{}, e);
    PageInsertKeeps(s, multiset{}, e, p, v.i, v.j, PTE_PWU);
    if PageInsert(s, d, p, v.i, v.j, PTE_PWU).1 {
      InsertFresh(s, d, p, v.i, v.j, PTE_PWU, f);
    }
  }

  /** page_insert leaves a table behind its own slot, and every other slot of the directory alone. */
  lemma InsertSlots(s: State, e: nat, p: FrameNo, i: nat, j: nat, perm: Flags)
    requires Inv(s) && e in s.vm.dirs && i < PDX_UTOP && j < NPTENTRIES
    requires p < |s.refs| && p as nat !in s.free && s.refs[p] < MAXREF && PageInsert(s, s.vm.dirs[e], p, i, j, perm).1
    ensures var d := s.vm.dirs[e]; var s' := PageInsert(s, d, p, i, j, perm).0;
      && (forall k: nat :: k < PDX_UTOP && k != i ==> Get(s'.vm, d, k) == Get(s.vm, d, k))
      && Walk(s'.vm, d, i).Some?
  {
    hide InvWith;
    hide Install;
    var d := s.vm.dirs[e];
    RootFacts(s, multiset{}, e);
    WalkCreateKeeps(s, multiset{}, e, i);
    WalkCreateBooks(s, multiset{}, d, i, p);
    var (s1, pte) := WalkCreate(s, d, i);
    assert forall k: nat :: k < PDX_UTOP && k != i ==> Get(s1.vm, d, k) == Get(s.vm, d, k);
    hide WalkCreate;
    InstallKeeps(s1, multiset{}, e, p, i, j, perm);
  }

  /** page_insert during loading, of a page that nobody refers to. */
  lemma InsertProgress(s0: State, s: State, e: nat, pages: set<VPage>, p: FrameNo, v: VPage)
    requires e in s0.vm.dirs && Progress(s0, s, e, pages) && v in UserPages() && v !in pages
    requires p < |s.refs| == |s.base| && p as nat !in s.free && s.refs[p] == 0 && s.base[p] == 0
    ensures var d := s0.vm.dirs[e]; var (s', ok) := PageInsert(s, d, p, v.i, v.j, PTE_PWU);
      && (ok <==> Walk(s.vm, d, v.i).Some? || s.free != [])
      && (!ok ==> s' == s)
      && (ok ==>
            && Progress(s0, s', e, pages + {v}) && SameBytes(s.vm, s'.vm, d, pages)
            && LeafOf(s'.vm, d, v) == Word(p, PTE_PWU)
            && |s'.vm.mem| == |s.vm.mem| == |s.refs| && s'.vm.mem[p] == s.vm.mem[p]
            && |s'.free| + (if Walk(s.vm, d, v.i).Some? then 0 else 1) == |s.free|
            && forall i: nat :: i < PDX_UTOP ==> (Walk(s'.vm, d, i).Some? <==> Walk(s.vm, d, i).Some? || i == v.i))
  {
    hide InvWith;
    hide PageInsert;
    var d := s0.vm.dirs[e];
    assert s.vm.dirs[e] == d;
    RootFacts(s, multiset{}, e);
    PageInsertKeeps(s, multiset{}, e, p, v.i, v.j, PTE_PWU);
    var (s', ok) := PageInsert(s, d, p, v.i, v.j, PTE_PWU);
    if ok {
      NotItsTable(s, e, p, v.i);
      InsertFresh(s, d, p, v.i, v.j, PTE_PWU, p);
      InsertSlots(s, e, p, v.i, v.j, PTE_PWU);
      forall q | q in pages ensures Owned(s', e, q) && LeafOf(s'.vm, d, q) == LeafOf(s.vm, d, q)
        && LeafOf(s.vm, d, q).frame < |s.vm.mem|
        && s'.vm.mem[LeafOf(s.vm, d, q).frame] == s.vm.mem[LeafOf(s.vm, d, q).frame]
      {
        InsertKeepsOwned(s, e, p, v, q);
      }
      FramesSame(s.vm, s'.vm, d, pages);
      OthersCompose(s0.vm, s.vm, s'.vm, d);
    }
  }

  /** A page without references is no directory and no table. */
  lemma NotItsTable(s: State, e: nat, p: nat, i: nat)
    requires Inv(s) && e in s.vm.dirs && i < PDX_UTOP && p < |s.refs| && s.refs[p] == 0
    ensures p != s.vm.dirs[e] && Walk(s.vm, s.vm.dirs[e], i) != Some(p)
  {
    FreshPage(s, multiset{}, p);
    hide InvWith;
    assert Target(s.vm, Root(e)) == Some(s.vm.dirs[e]);
    assert Target(s.vm, Pde(e, i)) == Walk(s.vm, s.vm.dirs[e], i);
  }

  // ---- the pages that loading needs ---------------------------------------------------------

  /** The directory slots that have no table in vm and serve one of the pages. */
  ghost function NewSlots(vm: Tables, d: nat, pages: set<VPage>): set<nat> {
    set v | v in pages && Walk(vm, d, v.i).None? :: v.i
  }

  /** How many free pages it takes to map fresh pages at the given places: themselves, and their missing tables. */
  ghost function Need(vm: Tables, d: nat, pages: set<VPage>): nat {
    |pages| + |NewSlots(vm, d, pages)|
  }

  lemma {:induction false} SubsetSize<T>(a: set<T>, b: set<T>)
    requires a <= b
    ensures |a| <= |b|
  {
    assert b == a + (b - a);
  }

  lemma NeedMono(vm: Tables, d: nat, p: set<VPage>, q: set<VPage>)
    requires p <= q
    ensures Need(vm, d, p) <= Need(vm, d, q)
  {
    SubsetSize(p, q);
    SubsetSize(NewSlots(vm, d, p), NewSlots(vm, d, q));
  }

  /** So far the free list has paid for the pages, and their tables exist. */
  ghost predicate Going(s0: State, s: State, e: nat, pages: set<VPage>)
    requires e in s0.vm.dirs
  {
    var d := s0.vm.dirs[e];
    && Progress(s0, s, e, pages)
    && |s.free| + Need(s0.vm, d, pages) == |s0.free|
    && (forall i: nat :: i < PDX_UTOP ==>
          (Walk(s.vm, d, i).Some? <==> Walk(s0.vm, d, i).Some? || exists v :: v in pages && v.i == i))
  }

  lemma NeedStep(vm: Tables, d: nat, pages: set<VPage>, v: VPage)
    requires v !in pages
    ensures Need(vm, d, pages + {v}) ==
      Need(vm, d, pages) + if Walk(vm, d, v.i).Some? || exists u :: u in pages && u.i == v.i then 1 else 2
  {
    var a, b := NewSlots(vm, d, pages), NewSlots(vm, d, pages + {v});
    assert b == if Walk(vm, d, v.i).None? then a + {v.i} else a;
    if Walk(vm, d, v.i).None? && v.i in a {
      assert b == a;
    }
  }

  /** One page more: it succeeds exactly when the free list can still pay. */
  lemma PageStep(s0: State, s: State, e: nat, pages: set<VPage>, v: VPage, zero: bool)
    requires e in s0.vm.dirs && Going(s0, s, e, pages) && v in UserPages() && v !in pages
    ensures var d := s0.vm.dirs[e]; var (s1, page) := PageAlloc(s, zero);
      if s.free == [] then page.None? && Need(s0.vm, d, pages + {v}) > |s0.free|
      else
        && page == Some(s.free[0]) && s.free[0] < MAXFRAMES
        && var (s2, ok) := PageInsert(s1, d, s.free[0], v.i, v.j, PTE_PWU);
          && (ok <==> Need(s0.vm, d, pages + {v}) <= |s0.free|)
          && (ok ==> Going(s0, s2, e, pages + {v}) && SameBytes(s.vm, s2.vm, d, pages))
          && (ok && zero ==> LeafOf(s2.vm, d, v).flags.p
                             && forall k: nat :: Get(s2.vm, LeafOf(s2.vm, d, v).frame, k) == ZERO)
          && (!ok ==> s2.free == [] && Progress(s0, s2, e, pages))
  {
    hide Progress;
    hide SameBytes;
    hide Need;
    hide PageInsert;
    var d := s0.vm.dirs[e];
    NeedStep(s0.vm, d, pages, v);
    if s.free != [] {
      AllocProgress(s0, s, e, pages, zero);
      var s1 := PageAlloc(s, zero).0;
      hide PageAlloc;
      var p := s.free[0];
      InsertProgress(s0, s1, e, pages, p, v);
      var s2 := PageInsert(s1, d, p, v.i, v.j, PTE_PWU).0;
      SameBytesCompose(s.vm, s1.vm, s2.vm, d, pages);
    }
  }

  lemma SameBytesCompose(vm0: Tables, vm1: Tables, vm2: Tables, d: nat, pages: set<VPage>)
    ensures SameBytes(vm0, vm1, d, pages) && SameBytes(vm1, vm2, d, pages) ==> SameBytes(vm0, vm2, d, pages)
  {
  }

  // ---- region_alloc, exactly ----------------------------------------------------------------

  /** Pages number n to end - 1 of the user address space. */
  ghost function Range(n: nat, end: nat): set<VPage> {
    set v | v in UserPages() && n <= v.i * NPTENTRIES + v.j < end
  }

  lemma RangeStep(n: nat, end: nat)
    requires n < end <= PDX_UTOP * NPTENTRIES
    ensures PageOf(n) in UserPages() && PageOf(n) !in Range(n + 1, end)
    ensures Range(n, end) == {PageOf(n)} + Range(n + 1, end)
  {
    var v := PageOf(n);
    assert v.i * NPTENTRIES + v.j == n;
    assert forall u: VPage :: u.j < NPTENTRIES && u.i * NPTENTRIES + u.j == n ==> u == v;
  }

  /** What region_alloc leaves behind when the free list cannot pay: if it does not panic, its last page is missing. */
  ghost predicate LeftOut(s0: State, r: Option<State>, e: nat, last: nat)
    requires e in s0.vm.dirs
  {
    r.Some? ==> exists pages :: Progress(s0, r.value, e, pages) && PageOf(last) !in pages
  }

  lemma ShortOfPages(s0: State, s: State, e: nat, pages: set<VPage>, n: nat, end: nat)
    requires e in s0.vm.dirs && Progress(s0, s, e, pages) && s.free == [] && n < end && PageOf(n) !in pages
    ensures LeftOut(s0, RegionAlloc(s, s0.vm.dirs[e], n + 1, end), e, end - 1)
  {
    hide Progress;
    hide PageInsert;
  }

  /** The loop of region_alloc maps all its pages exactly when the free list can pay for them. */
  lemma {:induction false} RegionExact(s0: State, s: State, e: nat, pages: set<VPage>, n: nat, end: nat)
    requires e in s0.vm.dirs && Going(s0, s, e, pages)
    requires end <= PDX_UTOP * NPTENTRIES && Range(n, end) !! pages
    ensures var d := s0.vm.dirs[e]; var r := RegionAlloc(s, d, n, end);
      if Need(s0.vm, d, pages + Range(n, end)) <= |s0.free| then
        r.Some? && Going(s0, r.value, e, pages + Range(n, end)) && SameBytes(s.vm, r.value.vm, d, pages)
      else n < end && LeftOut(s0, r, e, end - 1)
    decreases end - n
  {
    hide Progress;
    hide SameBytes;
    hide Need;
    hide PageInsert;
    hide LeftOut;
    var d := s0.vm.dirs[e];
    if n < end {
      var v := PageOf(n);
      RangeStep(n, end);
      hide Range;
      var all := pages + Range(n, end);
      assert all == (pages + {v}) + Range(n + 1, end);
      NeedMono(s0.vm, d, pages + {v}, all);
      PageStep(s0, s, e, pages, v, false);
      if s.free == [] {
        NothingLeft(s0, s, e, d, n, end);
      }
      var (s1, page) := PageAlloc(s, false);
      hide PageAlloc;
      if page.Some? {
        var s2 := PageInsert(s1, d, page.value, v.i, v.j, PTE_PWU).0;
        if Need(s0.vm, d, pages + {v}) <= |s0.free| {
          RegionExact(s0, s2, e, pages + {v}, n + 1, end);
          SameBytesShrink(s2.vm, RegionAlloc(s2, d, n + 1, end), d, pages, v);
          hide Going;
          if RegionAlloc(s2, d, n + 1, end).Some? {
            SameBytesCompose(s.vm, s2.vm, RegionAlloc(s2, d, n + 1, end).value.vm, d, pages);
          }
        } else {
          ShortOfPages(s0, s2, e, pages, n, end);
        }
      }
    } else {
      EmptyRange(s, d, n, end, pages);
    }
  }

  lemma EmptyRange(s: State, d: nat, n: nat, end: nat, pages: set<VPage>)
    requires n >= end
    ensures pages + Range(n, end) == pages && SameBytes(s.vm, s.vm, d, pages)
  {
    assert Range(n, end) == {};
  }

  lemma NothingLeft(s0: State, s: State, e: nat, d: nat, n: nat, end: nat)
    requires e in s0.vm.dirs && s.free == [] && n < end
    ensures LeftOut(s0, RegionAlloc(s, d, n, end), e, end - 1)
  {
  }

  lemma SameBytesShrink(vm: Tables, r: Option<State>, d: nat, pages: set<VPage>, v: VPage)
    ensures r.Some? && SameBytes(vm, r.value.vm, d, pages + {v}) ==> SameBytes(vm, r.value.vm, d, pages)
  {
  }

  /** The last page of a region is the only one that needs its page table. */
  ghost predicate LastNeedsTable(vm: Tables, d: nat, pages: set<VPage>, n: nat, end: nat)
    requires n < end
  {
    Walk(vm, d, PageOf(end - 1).i).None? && forall v :: v in pages + Range(n, end - 1) ==> v.i != PageOf(end - 1).i
  }

  lemma RangeWithoutFirst(vm: Tables, d: nat, pages: set<VPage>, n: nat, end: nat)
    requires n + 1 < end <= PDX_UTOP * NPTENTRIES
    ensures LastNeedsTable(vm, d, pages, n, end) <==> LastNeedsTable(vm, d, pages + {PageOf(n)}, n + 1, end)
  {
    RangeStep(n, end - 1);
  }

  lemma OnePageMore(vm: Tables, d: nat, pages: set<VPage>, n: nat, end: nat)
    requires n + 1 < end <= PDX_UTOP * NPTENTRIES && Range(n, end) !! pages
    ensures Need(vm, d, pages + Range(n, end)) > Need(vm, d, pages + {PageOf(n)})
  {
    RangeStep(n, end);
    RangeStep(n + 1, end);
    var more := pages + {PageOf(n)};
    var v := PageOf(n + 1);
    assert v !in more by { assert v in Range(n, end) && PageOf(n) !in Range(n + 1, end); }
    NeedStep(vm, d, more, v);
    NeedMono(vm, d, more + {v}, pages + Range(n, end));
  }

  lemma LastPage(vm: Tables, d: nat, pages: set<VPage>, n: nat)
    requires n < PDX_UTOP * NPTENTRIES && PageOf(n) !in pages
    ensures Range(n, n + 1) == {PageOf(n)}
    ensures Need(vm, d, pages + {PageOf(n)}) ==
      Need(vm, d, pages) + if LastNeedsTable(vm, d, pages, n, n + 1) then 2 else 1
  {
    RangeStep(n, n + 1);
    assert Range(n + 1, n + 1) == {} && Range(n, n) == {};
    NeedStep(vm, d, pages, PageOf(n));
  }

  /**
    region_alloc is documented to panic if any allocation fails.  When the free list cannot pay, it
    does, except in exactly one case: only one page is missing, and the last page of the region is the
    only one in need of its table.  Then the failed page_insert goes unnoticed and that page is unmapped.
   */
  lemma {:induction false} RegionPanicExact(s0: State, s: State, e: nat, pages: set<VPage>, n: nat, end: nat)
    requires e in s0.vm.dirs && Going(s0, s, e, pages) && n < end <= PDX_UTOP * NPTENTRIES && Range(n, end) !! pages
    requires Need(s0.vm, s0.vm.dirs[e], pages + Range(n, end)) > |s0.free|
    ensures var d := s0.vm.dirs[e];
      RegionAlloc(s, d, n, end).Some? <==>
      Need(s0.vm, d, pages + Range(n, end)) == |s0.free| + 1 && LastNeedsTable(s0.vm, d, pages, n, end)
    decreases end - n
  {
    hide Progress;
    hide SameBytes;
    hide Need;
    hide PageInsert;
    hide PageOf;
    hide LastNeedsTable;
    var d := s0.vm.dirs[e];
    var v := PageOf(n);
    RangeStep(n, end);
    PageStep(s0, s, e, pages, v, false);
    NeedStep(s0.vm, d, pages, v);
    if n + 1 == end {
      LastPage(s0.vm, d, pages, n);
    } else {
      OnePageMore(s0.vm, d, pages, n, end);
      RangeWithoutFirst(s0.vm, d, pages, n, end);
      if s.free != [] {
        var s2 := PageInsert(PageAlloc(s, false).0, d, s.free[0], v.i, v.j, PTE_PWU).0;
        if Need(s0.vm, d, pages + {v}) <= |s0.free| {
          assert pages + Range(n, end) == (pages + {v}) + Range(n + 1, end);
          hide Range;
          RegionPanicExact(s0, s2, e, pages + {v}, n + 1, end);
        }
      }
    }
  }

  // ---- segments -----------------------------------------------------------------------------

  /** The fields of a loadable Proghdr. */
  datatype Segment = Segment(va: Addr, offset: Addr, filesz: Addr, memsz: Addr)

  /** The end of a segment, in pages. */
  function EndPage(va: nat, len: nat): nat {
    (va + len + PGSIZE - 1) / PGSIZE
  }

  ghost function SegPages(seg: Segment): set<VPage> {
    if seg.memsz == 0 then {} else Range(seg.va / PGSIZE, EndPage(seg.va, seg.memsz))
  }

  /** In the user part, its file bytes in the image, and no more of them than memory bytes. */
  predicate Loadable(seg: Segment, binary: seq<Byte>) {
    seg.va + seg.memsz <= UTOP && seg.filesz <= seg.memsz && seg.offset + seg.filesz <= |binary|
  }

  function Zeros(n: nat): (z: seq<Byte>)
    ensures |z| == n && forall k :: 0 <= k < n ==> z[k] == 0
  {
    seq(n, _ => 0)
  }

  /** region_alloc(e, p_va, p_memsz) */
  function SegRegion(s: State, d: nat, seg: Segment): Option<State> {
    if seg.memsz == 0 then Some(s) else RegionAlloc(s, d, seg.va / PGSIZE, EndPage(seg.va, seg.memsz))
  }

  /** memset(p_va, 0, p_memsz) and memcpy(p_va, binary + p_offset, p_filesz) */
  function Fill(vm: Tables, d: nat, seg: Segment, binary: seq<Byte>): Option<Tables>
    requires Loadable(seg, binary)
  {
    match WriteBytes(vm, d, seg.va, Zeros(seg.memsz))
    case None => None
    case Some(vm2) => WriteBytes(vm2, d, seg.va, binary[seg.offset..seg.offset + seg.filesz])
  }

  /** One turn of load_icode's loop.  None for a panic or a page fault. */
  function LoadSegment(s: State, d: nat, seg: Segment, binary: seq<Byte>): Option<State>
    requires Loadable(seg, binary)
  {
    match SegRegion(s, d, seg)
    case None => None
    case Some(s1) =>
      match Fill(s1.vm, d, seg, binary)
      case None => None
      case Some(vm3) => Some(s1.(vm := vm3))
  }

  /** Byte k of a segment: from the file, then zero. */
  function SegByte(seg: Segment, binary: seq<Byte>, k: nat): Byte
    requires Loadable(seg, binary)
  {
    if k < seg.filesz then binary[seg.offset + k] else 0
  }

  ghost predicate Holds(vm: Tables, d: nat, seg: Segment, binary: seq<Byte>)
    requires Loadable(seg, binary)
  {
    forall a: Addr :: seg.va <= a < seg.va + seg.memsz ==> ByteAt(vm, d, a) == Some(SegByte(seg, binary, a - seg.va))
  }

  /** An address below UTOP lies in the page with its number. */
  lemma AddressInRange(a: Addr, n: nat, end: nat)
    requires a < UTOP
    ensures PageOf(Pgnum(a)) in UserPages()
    ensures PageOf(Pgnum(a)) in Range(n, end) <==> n <= Pgnum(a) < end
  {
    var v := PageOf(Pgnum(a));
    assert v.i * NPTENTRIES + v.j == Pgnum(a);
  }

  lemma SegmentAddresses(seg: Segment)
    requires seg.va + seg.memsz <= UTOP
    ensures seg.memsz > 0 ==> EndPage(seg.va, seg.memsz) <= PDX_UTOP * NPTENTRIES
    ensures AllIn(seg.va, seg.memsz, SegPages(seg))
    ensures seg.memsz > 0 ==>
      var a: Addr := seg.va + seg.memsz - 1; PageOf(Pgnum(a)) == PageOf(EndPage(seg.va, seg.memsz) - 1)
  {
    forall a: Addr | seg.va <= a < seg.va + seg.memsz ensures PageOf(Pgnum(a)) in SegPages(seg) {
      AddressInRange(a, seg.va / PGSIZE, EndPage(seg.va, seg.memsz));
    }
  }

  lemma WriteFaults(s0: State, r: State, e: nat, seg: Segment)
    requires e in s0.vm.dirs && seg.va + seg.memsz <= UTOP && seg.memsz > 0
    requires LeftOut(s0, Some(r), e, EndPage(seg.va, seg.memsz) - 1)
    ensures WriteBytes(r.vm, s0.vm.dirs[e], seg.va, Zeros(seg.memsz)) == None
  {
    var pages :| Progress(s0, r, e, pages) && PageOf(EndPage(seg.va, seg.memsz) - 1) !in pages;
    SegmentAddresses(seg);
    hide Progress;
    WriteExact(s0, r, e, pages, seg.va, Zeros(seg.memsz));
    assert !AllIn(seg.va, seg.memsz, pages);
  }

  lemma SlotsGoing(s0: State, s: State, vm': Tables, e: nat, pages: set<VPage>)
    requires e in s0.vm.dirs && Going(s0, s, e, pages)
    requires Progress(s0, s.(vm := vm'), e, pages) && SameSlots(s.vm, vm', s0.vm.dirs[e])
    ensures Going(s0, s.(vm := vm'), e, pages)
  {
    hide Progress;
    hide Need;
    var d := s0.vm.dirs[e];
    forall i: nat | i < PDX_UTOP
      ensures Walk(vm', d, i).Some? <==> Walk(s0.vm, d, i).Some? || exists v :: v in pages && v.i == i
    {
      assert Walk(vm', d, i) == Walk(s.vm, d, i);
    }
  }

  /** Storing bytes keeps the budget too. */
  lemma WriteGoing(s0: State, s: State, e: nat, pages: set<VPage>, va: nat, data: seq<Byte>)
    requires e in s0.vm.dirs && Going(s0, s, e, pages) && va + |data| <= UTOP && AllIn(va, |data|, pages)
    ensures var r := WriteBytes(s.vm, s0.vm.dirs[e], va, data);
      r.Some? && Going(s0, s.(vm := r.value), e, pages) && Stored(s.vm, r.value, s0.vm.dirs[e], pages, va, data)
  {
    hide Progress;
    hide Need;
    hide AllIn;
    hide Stored;
    hide WriteBytes;
    hide SameSlots;
    assert Progress(s0, s, e, pages);
    hide Going;
    WriteExact(s0, s, e, pages, va, data);
    SlotsGoing(s0, s, WriteBytes(s.vm, s0.vm.dirs[e], va, data).value, e, pages);
  }

  lemma StoredTwice(vm1: Tables, vm2: Tables, vm3: Tables, d: nat, all: set<VPage>, pages: set<VPage>, seg: Segment,
                    binary: seq<Byte>)
    requires Loadable(seg, binary) && AllIn(seg.va, seg.memsz, SegPages(seg)) && all == pages + SegPages(seg)
    requires SegPages(seg) !! pages
    requires Stored(vm1, vm2, d, all, seg.va, Zeros(seg.memsz))
    requires Stored(vm2, vm3, d, all, seg.va, binary[seg.offset..seg.offset + seg.filesz])
    ensures Holds(vm3, d, seg, binary) && SameBytes(vm1, vm3, d, pages)
  {
    hide ByteAt;
    hide SegPages;
    hide PageOf;
  }

  lemma SegRegionExact(s0: State, s: State, e: nat, pages: set<VPage>, seg: Segment)
    requires e in s0.vm.dirs && Going(s0, s, e, pages) && seg.va + seg.memsz <= UTOP && SegPages(seg) !! pages
    ensures var d := s0.vm.dirs[e]; var all := pages + SegPages(seg); var r := SegRegion(s, d, seg);
      if Need(s0.vm, d, all) <= |s0.free| then
        r.Some? && Going(s0, r.value, e, all) && SameBytes(s.vm, r.value.vm, d, pages)
      else seg.memsz > 0 && LeftOut(s0, r, e, EndPage(seg.va, seg.memsz) - 1)
  {
    hide Progress;
    hide Need;
    hide LeftOut;
    if seg.memsz == 0 {
      assert pages + SegPages(seg) == pages;
      SameBytesCompose(s.vm, s.vm, s.vm, s0.vm.dirs[e], pages);
    } else {
      SegmentAddresses(seg);
      RegionExact(s0, s, e, pages, seg.va / PGSIZE, EndPage(seg.va, seg.memsz));
    }
  }

  lemma FillExact(s0: State, s: State, e: nat, pages: set<VPage>, seg: Segment, binary: seq<Byte>)
    requires e in s0.vm.dirs && Loadable(seg, binary) && SegPages(seg) !! pages
    requires Going(s0, s, e, pages + SegPages(seg))
    ensures var d := s0.vm.dirs[e]; var r := Fill(s.vm, d, seg, binary);
      && r.Some? && Going(s0, s.(vm := r.value), e, pages + SegPages(seg))
      && SameBytes(s.vm, r.value, d, pages) && Holds(r.value, d, seg, binary)
  {
    hide Going;
    hide SegPages;
    hide SameBytes;
    hide Holds;
    hide Stored;
    hide WriteBytes;
    var d := s0.vm.dirs[e];
    var all := pages + SegPages(seg);
    SegmentAddresses(seg);
    assert AllIn(seg.va, seg.memsz, all) && AllIn(seg.va, seg.filesz, all);
    hide AllIn;
    WriteGoing(s0, s, e, all, seg.va, Zeros(seg.memsz));
    var vm2 := WriteBytes(s.vm, d, seg.va, Zeros(seg.memsz)).value;
    WriteGoing(s0, s.(vm := vm2), e, all, seg.va, binary[seg.offset..seg.offset + seg.filesz]);
    var vm3 := WriteBytes(vm2, d, seg.va, binary[seg.offset..seg.offset + seg.filesz]).value;
    StoredTwice(s.vm, vm2, vm3, d, all, pages, seg, binary);
  }

  /** A segment is loaded exactly when the free list can pay for its pages and tables; then it holds its bytes. */
  lemma SegmentExact(s0: State, s: State, e: nat, pages: set<VPage>, seg: Segment, binary: seq<Byte>)
    requires e in s0.vm.dirs && Going(s0, s, e, pages) && Loadable(seg, binary) && SegPages(seg) !! pages
    ensures var d := s0.vm.dirs[e]; var all := pages + SegPages(seg); var r := LoadSegment(s, d, seg, binary);
      && (r.Some? <==> Need(s0.vm, d, all) <= |s0.free|)
      && (r.Some? ==> Going(s0, r.value, e, all) && SameBytes(s.vm, r.value.vm, d, pages)
                      && Holds(r.value.vm, d, seg, binary))
  {
    hide Going;
    hide Need;
    hide LeftOut;
    hide SegPages;
    hide SameBytes;
    hide Holds;
    hide SegRegion;
    hide WriteBytes;
    var d := s0.vm.dirs[e];
    SegRegionExact(s0, s, e, pages, seg);
    var r := SegRegion(s, d, seg);
    if Need(s0.vm, d, pages + SegPages(seg)) <= |s0.free| {
      FillExact(s0, r.value, e, pages, seg, binary);
      SameBytesCompose(s.vm, r.value.vm, Fill(r.value.vm, d, seg, binary).value, d, pages);
    } else if r.Some? {
      WriteFaults(s0, r.value, e, seg);
    }
  }

  function LoadSegments(s: State, d: nat, segs: seq<Segment>, binary: seq<Byte>): Option<State>
    requires forall seg :: seg in segs ==> Loadable(seg, binary)
    decreases |segs|
  {
    if segs == [] then Some(s)
    else
      match LoadSegment(s, d, segs[0], binary)
      case None => None
      case Some(s1) => LoadSegments(s1, d, segs[1..], binary)
  }

  ghost function AllPages(segs: seq<Segment>): set<VPage> {
    if segs == [] then {} else SegPages(segs[0]) + AllPages(segs[1..])
  }

  /** No two segments touch the same page, and none touches one of the given pages. */
  ghost predicate Apart(segs: seq<Segment>, pages: set<VPage>)
    decreases |segs|
  {
    segs == [] || (SegPages(segs[0]) !! pages && Apart(segs[1..], pages + SegPages(segs[0])))
  }

  lemma HoldsKept(vm: Tables, vm': Tables, d: nat, pages: set<VPage>, seg: Segment, binary: seq<Byte>)
    requires Loadable(seg, binary) && Holds(vm, d, seg, binary) && SegPages(seg) <= pages
    requires SameBytes(vm, vm', d, pages)
    ensures Holds(vm', d, seg, binary)
  {
    SegmentAddresses(seg);
    hide ByteAt;
    hide SegPages;
    hide PageOf;
  }

  lemma {:induction false} SegmentsExact(s0: State, s: State, e: nat, pages: set<VPage>, segs: seq<Segment>,
                                         binary: seq<Byte>)
    requires e in s0.vm.dirs && Going(s0, s, e, pages) && Need(s0.vm, s0.vm.dirs[e], pages) <= |s0.free|
    requires (forall seg :: seg in segs ==> Loadable(seg, binary)) && Apart(segs, pages)
    ensures var d := s0.vm.dirs[e]; var all := pages + AllPages(segs); var r := LoadSegments(s, d, segs, binary);
      && (r.Some? <==> Need(s0.vm, d, all) <= |s0.free|)
      && (r.Some? ==> Going(s0, r.value, e, all) && SameBytes(s.vm, r.value.vm, d, pages)
                      && forall seg :: seg in segs ==> Holds(r.value.vm, d, seg, binary))
    decreases |segs|
  {
    hide Going;
    hide Need;
    hide SegPages;
    hide SameBytes;
    hide Holds;
    hide LoadSegment;
    hide Loadable;
    var d := s0.vm.dirs[e];
    var all := pages + AllPages(segs);
    if segs == [] {
      assert all == pages;
      SameBytesCompose(s.vm, s.vm, s.vm, d, pages);
      EmptySame(s.vm, d, pages);
    } else {
      var more := pages + SegPages(segs[0]);
      assert all == more + AllPages(segs[1..]);
      SegmentExact(s0, s, e, pages, segs[0], binary);
      NeedMono(s0.vm, d, more, all);
      var r1 := LoadSegment(s, d, segs[0], binary);
      if r1.Some? {
        SegmentsExact(s0, r1.value, e, more, segs[1..], binary);
        var r := LoadSegments(r1.value, d, segs[1..], binary);
        if r.Some? {
          HoldsKept(r1.value.vm, r.value.vm, d, more, segs[0], binary);
          FewerSame(r1.value.vm, r.value.vm, d, pages, more);
          SameBytesCompose(s.vm, r1.value.vm, r.value.vm, d, pages);
        }
      }
    }
  }

  lemma EmptySame(vm: Tables, d: nat, pages: set<VPage>)
    ensures SameBytes(vm, vm, d, pages)
  {
  }

  lemma FewerSame(vm: Tables, vm': Tables, d: nat, pages: set<VPage>, more: set<VPage>)
    requires SameBytes(vm, vm', d, more) && pages <= more
    ensures SameBytes(vm, vm', d, pages)
  {
  }

  // ---- load_icode ---------------------------------------------------------------------------

  const STACKPAGE := PageOf((USTACKTOP - PGSIZE) / PGSIZE)

  /** The last steps of load_icode: a zeroed page for the stack.  None for its panics. */
  function LoadStack(s: State, d: nat): Option<State> {
    var (s1, page) := PageAlloc(s, true);
    match page
    case None => None
    case Some(p) =>
      if p < MAXFRAMES then
        var (s2, ok) := PageInsert(s1, d, p, STACKPAGE.i, STACKPAGE.j, PTE_PWU);
        if ok then Some(s2) else None
      else None
  }

  lemma StackExact(s0: State, s: State, e: nat, pages: set<VPage>)
    requires e in s0.vm.dirs && Going(s0, s, e, pages) && STACKPAGE !in pages
    ensures var d := s0.vm.dirs[e]; var r := LoadStack(s, d);
      && (r.Some? <==> Need(s0.vm, d, pages + {STACKPAGE}) <= |s0.free|)
      && (r.Some? ==> Going(s0, r.value, e, pages + {STACKPAGE}) && SameBytes(s.vm, r.value.vm, d, pages)
                      && forall a: Addr :: PageOf(Pgnum(a)) == STACKPAGE ==> ByteAt(r.value.vm, d, a) == Some(0))
  {
    hide Going;
    hide Need;
    hide SameBytes;
    assert STACKPAGE in UserPages();
    PageStep(s0, s, e, pages, STACKPAGE, true);
    hide PageInsert;
    ZeroBytes();
  }

  lemma ZeroBytes()
    ensures forall k: nat :: k < 4 ==> LoadByte(ZERO, k) == 0
  {
  }

  const ELF_MAGIC := 0x464C_457F
  const ELF_PROG_LOAD := 1

  function Half(b: seq<Byte>, off: nat): nat
    requires off + 2 <= |b|
  {
    b[off] as int + 0x100 * b[off + 1] as int
  }

  function Full(b: seq<Byte>, off: nat): Addr
    requires off + 4 <= |b|
  {
    FromBytes(b[off], b[off + 1], b[off + 2], b[off + 3])
  }

  /** The headers lie within the image. */
  predicate HeadersInside(binary: seq<Byte>) {
    |binary| >= 52 && Full(binary, 28) + 32 * Half(binary, 44) <= |binary|
  }

  /** Program header k: at e_phoff, 32 bytes each. */
  function Header(binary: seq<Byte>, k: nat): (Addr, Segment)
    requires HeadersInside(binary) && k < Half(binary, 44)
  {
    var at := Full(binary, 28) + 32 * k;
    (Full(binary, at),
     Segment(Full(binary, at + 8), Full(binary, at + 4), Full(binary, at + 16), Full(binary, at + 20)))
  }

  /** The loadable segments from header k on, in order. */
  function Segments(binary: seq<Byte>, k: nat): (segs: seq<Segment>)
    requires HeadersInside(binary) && k <= Half(binary, 44)
    decreases Half(binary, 44) - k
  {
    if k == Half(binary, 44) then []
    else if Header(binary, k).0 == ELF_PROG_LOAD then [Header(binary, k).1] + Segments(binary, k + 1)
    else Segments(binary, k + 1)
  }

  predicate WellFormed(binary: seq<Byte>) {
    HeadersInside(binary) && forall seg :: seg in Segments(binary, 0) ==> Loadable(seg, binary)
  }

  /** e_entry */
  function EntryPoint(binary: seq<Byte>): Addr
    requires HeadersInside(binary)
  {
    Full(binary, 24)
  }

  /** load_icode: memory, and tf_eip; None when it panics or faults. */
  function LoadIcode(s: State, d: nat, binary: seq<Byte>): Option<(State, Addr)>
    requires WellFormed(binary)
  {
    if Full(binary, 0) != ELF_MAGIC then None
    else
      match LoadSegments(s, d, Segments(binary, 0), binary)
      case None => None
      case Some(s1) =>
        match LoadStack(s1, d)
        case None => None
        case Some(s2) => Some((s2, EntryPoint(binary)))
  }

  ghost predicate Separate(segs: seq<Segment>) {
    && (forall i, j :: 0 <= i < j < |segs| ==> SegPages(segs[i]) !! SegPages(segs[j]))
    && (forall seg :: seg in segs ==> STACKPAGE !in SegPages(seg))
  }

  lemma {:induction false} SeparateApart(segs: seq<Segment>, pages: set<VPage>)
    requires Separate(segs) && forall seg :: seg in segs ==> SegPages(seg) !! pages
    ensures Apart(segs, pages) && STACKPAGE !in AllPages(segs)
    decreases |segs|
  {
    hide SegPages;
    if segs != [] {
      var rest := segs[1..];
      assert forall i :: 0 <= i < |rest| ==> rest[i] == segs[i + 1];
      SeparateApart(rest, pages + SegPages(segs[0]));
    }
  }

  lemma StartLoading(s: State, e: nat)
    requires Inv(s) && e in s.vm.dirs && Mapping(s.vm, e) == map[]
    ensures Going(s, s, e, {}) && Need(s.vm, s.vm.dirs[e], {}) == 0
  {
    hide InvWith;
    assert NewSlots(s.vm, s.vm.dirs[e], {}) == {};
    forall v | v in UserPages() ensures !LeafOf(s.vm, s.vm.dirs[e], v).flags.p {
      assert v !in Mapping(s.vm, e);
    }
  }

  /** What an address space is after loading: the given pages, user-writable, and no other below UTOP. */
  lemma LoadedMapping(s0: State, s: State, e: nat, pages: set<VPage>)
    requires e in s0.vm.dirs && Progress(s0, s, e, pages)
    ensures Inv(s) && s.vm.dirs == s0.vm.dirs && OthersSame(s0.vm, s.vm, s0.vm.dirs[e])
    ensures Mapping(s.vm, e).Keys == pages && forall v :: v in pages ==> Mapping(s.vm, e)[v].flags == PTE_PWU
  {
    hide InvWith;
    forall v ensures v in Mapping(s.vm, e) <==> v in pages {
      if v in pages {
        assert Owned(s, e, v);
        assert v in UserPages();
      }
    }
    forall v | v in pages ensures Mapping(s.vm, e)[v].flags == PTE_PWU {
      assert Owned(s, e, v);
    }
  }

  /**
    Loading a program into a fresh environment.  It succeeds exactly when the image has the ELF magic and
    there are enough free pages for the segments' pages, the stack page and their page tables, and takes
    exactly those.  Then the environment starts at the image's entry point; every byte of every segment,
    read through the environment's page tables, is the file's byte, or zero beyond p_filesz; the stack
    page is all zero; nothing else below UTOP is mapped; and no other address space has changed.
   */
  lemma LoadExact(s: State, e: nat, binary: seq<Byte>)
    requires Inv(s) && e in s.vm.dirs && Mapping(s.vm, e) == map[]
    requires WellFormed(binary) && Separate(Segments(binary, 0))
    ensures var d := s.vm.dirs[e]; var segs := Segments(binary, 0); var pages := AllPages(segs) + {STACKPAGE};
      var r := LoadIcode(s, d, binary);
      && (r.Some? <==> Full(binary, 0) == ELF_MAGIC && Need(s.vm, d, pages) <= |s.free|)
      && (r.Some? ==> var s' := r.value.0;
            && r.value.1 == EntryPoint(binary)
            && Inv(s') && s'.vm.dirs == s.vm.dirs && OthersSame(s.vm, s'.vm, d)
            && |s'.free| + Need(s.vm, d, pages) == |s.free|
            && Mapping(s'.vm, e).Keys == pages && (forall v :: v in pages ==> Mapping(s'.vm, e)[v].flags == PTE_PWU)
            && (forall seg :: seg in segs ==> Holds(s'.vm, d, seg, binary))
            && (forall a: Addr :: PageOf(Pgnum(a)) == STACKPAGE ==> ByteAt(s'.vm, d, a) == Some(0)))
  {
    hide Inv;
    hide Progress;
    hide Need;
    hide SameBytes;
    hide Holds;
    hide LoadSegments;
    hide LoadStack;
    hide Mapping;
    var d := s.vm.dirs[e];
    var segs := Segments(binary, 0);
    var pages := AllPages(segs) + {STACKPAGE};
    StartLoading(s, e);
    SeparateApart(segs, {});
    SegmentsExact(s, s, e, {}, segs, binary);
    assert {} + AllPages(segs) == AllPages(segs);
    NeedMono(s.vm, d, AllPages(segs), pages);
    var r1 := LoadSegments(s, d, segs, binary);
    if r1.Some? {
      StackExact(s, r1.value, e, AllPages(segs));
      var r := LoadStack(r1.value, d);
      if r.Some? {
        LoadedMapping(s, r.value, e, pages);
        forall seg | seg in segs ensures Holds(r.value.vm, d, seg, binary) {
          InAllPages(segs, seg);
          HoldsKept(r1.value.vm, r.value.vm, d, AllPages(segs), seg, binary);
        }
      }
    }
  }

  lemma {:induction false} InAllPages(segs: seq<Segment>, seg: Segment)
    requires seg in segs
    ensures SegPages(seg) <= AllPages(segs)
  {
    if seg != segs[0] {
      InAllPages(segs[1..], seg);
    }
  }
}