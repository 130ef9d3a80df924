/**
  env_setup_vm and env_free: an address space is born with the kernel's half only, and its teardown
  gives back exactly the references it held.
 */
module Teardown {
  import opened Mmu
  import opened Vm
  import opened VmInvariant
  import opened VmSteps
  import opened PageTables

  // ---- env_free's loops ---------------------------------------------------------------------

  /** The entries of slot i from index j on are gone; nothing else has changed. */
  ghost predicate Unmapped(vm: Tables, vm': Tables, d: nat, i: nat, j: nat) {
    && SameRoots(vm, vm') && OthersSame(vm, vm', d) && SameSlots(vm, vm', d)
    && (forall i': nat, j': nat :: i' < NPDENTRIES && i' != PDX_UVPT ==>
          Leaf(vm', d, i', j') == if i' == i && j' >= j then ZERO else Leaf(vm, d, i', j'))
  }

  lemma UnmapCompose(vm0: Tables, vm1: Tables, vm2: Tables, d: nat, i: nat, j: nat)
    requires Edit(vm0, vm1, d, i, j, ZERO) && SameSlots(vm0, vm1, d)
    requires Unmapped(vm1, vm2, d, i, j + 1)
    ensures Unmapped(vm0, vm2, d, i, j)
  {
    OthersCompose(vm0, vm1, vm2, d);
  }

  lemma UnmapTableKeeps(s: State, e: nat, i: nat, j: nat)
    requires Inv(s)
    requires e in s.vm.dirs && i < PDX_UTOP && j <= NPTENTRIES && Walk(s.vm, s.vm.dirs[e], i).Some?
    ensures var d := s.vm.dirs[e]; var s' := UnmapTable(s, d, Walk(s.vm, d, i).value, i, j);
      Inv(s') && Unmapped(s.vm, s'.vm, d, i, j) && s'.handed == s.handed
    decreases NPTENTRIES - j
  {
    var d := s.vm.dirs[e];
    var t := Walk(s.vm, d, i).value;
    if j < NPTENTRIES {
      PageRemoveKeeps(s, multiset{}, e, i, j);
      var s1 := PageRemove(s, d, i, j);
      assert !Get(s.vm, t, j).flags.p ==> s1 == s;
      assert s1.vm.dirs == s.vm.dirs && Walk(s1.vm, d, i) == Some(t);
      hide Inv;
      hide Edit;
      hide PageRemove;
      UnmapTableKeeps(s1, e, i, j + 1);
      var s2 := UnmapTable(s1, d, t, i, j + 1);
      UnmapCompose(s.vm, s1.vm, s2.vm, d, i, j);
    } else {
      assert forall j': nat :: j' >= j ==> Leaf(s.vm, d, i, j') == ZERO;
    }
  }

  /** Slots below i are empty; slots from i on, and every other address space, are as they were. */
  ghost predicate SlotsFreed(vm: Tables, vm': Tables, d: nat, lo: nat, hi: nat) {
    && SameRoots(vm, vm') && OthersSame(vm, vm', d)
    && (forall i: nat :: lo <= i < hi ==> Get(vm', d, i) == ZERO)
    && (forall i: nat :: !(lo <= i < hi) ==> Get(vm', d, i) == Get(vm, d, i))
    && (forall i: nat, j: nat :: i < NPDENTRIES && i != PDX_UVPT && !(lo <= i < hi) ==>
          Leaf(vm', d, i, j) == Leaf(vm, d, i, j))
  }

  ghost predicate SlotCleared(vm: Tables, vm': Tables, d: nat, i: nat) {
    && NoEdit(vm, vm', d) && Get(vm', d, i) == ZERO
    && forall i': nat :: i' != i ==> Get(vm', d, i') == Get(vm, d, i')
  }

  lemma ClearedSlot(vm: Tables, e: nat, i: nat)
    requires Shape(vm) && e in vm.dirs && i < PDX_UTOP
    ensures var d := vm.dirs[e]; var vm' := Put(vm, d, i, ZERO);
      Get(vm', d, i) == ZERO && forall i': nat :: i' != i ==> Get(vm', d, i') == Get(vm, d, i')
  {
    SlotWords(vm, e, i, ZERO);
  }

  /** Once its entries are gone, a table's slot is cleared and the table given back. */
  lemma ClearSlotKeeps(s: State, e: nat, i: nat)
    requires Inv(s)
    requires e in s.vm.dirs && i < PDX_UTOP && Walk(s.vm, s.vm.dirs[e], i).Some?
    requires EmptyTable(s.vm, Get(s.vm, s.vm.dirs[e], i))
    ensures var d := s.vm.dirs[e]; var s' := PageDecref(s.(vm := Put(s.vm, d, i, ZERO)), Walk(s.vm, d, i).value);
      Inv(s') && SlotCleared(s.vm, s'.vm, d, i) && s'.handed == s.handed
  {
    var d := s.vm.dirs[e];
    var t := Walk(s.vm, d, i).value;
    Referenced(s, multiset{}, Pde(e, i));
    assert Shape(s.vm);
    hide InvWith;
    hide NoEdit;
    hide Put;
    hide Shape;
    StoreSlotView(s.vm, e, i, ZERO);
    ClearedSlot(s.vm, e, i);
    StoreSlotKeeps(s, multiset{}, e, i, ZERO);
    assert s.handed - {t} == s.handed;
    DecrefKeeps(s.(vm := Put(s.vm, d, i, ZERO)), multiset{t}, t);
    assert multiset{t} - multiset{t} == multiset{};
  }

  lemma FreeTableCompose(vm0: Tables, vm1: Tables, vm2: Tables, d: nat, i: nat)
    requires i < PDX_UTOP && Unmapped(vm0, vm1, d, i, 0) && SlotCleared(vm1, vm2, d, i)
    ensures SlotsFreed(vm0, vm2, d, i, i + 1)
  {
    OthersCompose(vm0, vm1, vm2, d);
  }

  lemma SlotCases(s: State, e: nat, i: nat)
    requires Inv(s)
    requires e in s.vm.dirs && i < PDX_UTOP
    ensures Get(s.vm, s.vm.dirs[e], i) == ZERO || Walk(s.vm, s.vm.dirs[e], i).Some?
  {
  }

  lemma FreeTableKeeps(s: State, e: nat, i: nat)
    requires Inv(s)
    requires e in s.vm.dirs && i < PDX_UTOP
    ensures var d := s.vm.dirs[e]; var s' := FreeTable(s, d, i);
      Inv(s') && SlotsFreed(s.vm, s'.vm, d, i, i + 1) && s'.handed == s.handed
  {
    hide Inv;
    var d := s.vm.dirs[e];
    SlotCases(s, e, i);
    if Walk(s.vm, d, i).Some? {
      var t := Walk(s.vm, d, i).value;
      UnmapTableKeeps(s, e, i, 0);
      var s1 := UnmapTable(s, d, t, i, 0);
      assert Walk(s1.vm, d, i) == Some(t);
      assert forall j: nat :: Get(s1.vm, t, j) == Leaf(s1.vm, d, i, j) == ZERO;
      ClearSlotKeeps(s1, e, i);
      hide Unmapped;
      hide SlotCleared;
      hide SlotsFreed;
      hide UnmapTable;
      hide PageDecref;
      FreeTableCompose(s.vm, s1.vm, FreeTable(s, d, i).vm, d, i);
    }
  }

  lemma FreedRoots(vm: Tables, vm': Tables, d: nat, lo: nat, hi: nat)
    requires SlotsFreed(vm, vm', d, lo, hi)
    ensures vm'.dirs == vm.dirs
  {
  }

  lemma FreedCompose(vm0: Tables, vm1: Tables, vm2: Tables, d: nat, i: nat, hi: nat)
    requires i < hi && SlotsFreed(vm0, vm1, d, i, i + 1) && SlotsFreed(vm1, vm2, d, i + 1, hi)
    ensures SlotsFreed(vm0, vm2, d, i, hi)
  {
    OthersCompose(vm0, vm1, vm2, d);
  }

  lemma NoneFreed(vm: Tables, d: nat, i: nat)
    ensures SlotsFreed(vm, vm, d, i, i)
  {
  }

  lemma FreeTablesKeeps(s: State, e: nat, i: nat)
    requires Inv(s)
    requires e in s.vm.dirs && i <= PDX_UTOP
    ensures var d := s.vm.dirs[e]; var s' := FreeTables(s, d, i);
      Inv(s') && SlotsFreed(s.vm, s'.vm, d, i, PDX_UTOP) && s'.handed == s.handed
    decreases PDX_UTOP - i
  {
    hide Inv;
    hide FreeTable;
    hide SlotsFreed;
    var d := s.vm.dirs[e];
    if i < PDX_UTOP {
      FreeTableKeeps(s, e, i);
      var s1 := FreeTable(s, d, i);
      FreedRoots(s.vm, s1.vm, d, i, i + 1);
      FreeTablesKeeps(s1, e, i + 1);
      FreedCompose(s.vm, s1.vm, FreeTables(s1, d, i + 1).vm, d, i, PDX_UTOP);
    } else {
      NoneFreed(s.vm, d, PDX_UTOP);
    }
  }

  /** The last step of env_free: the directory itself. */
  lemma DropDir(s: State, e: nat)
    requires Inv(s)
    requires e in s.vm.dirs && forall i: nat :: i < PDX_UTOP ==> Get(s.vm, s.vm.dirs[e], i) == ZERO
    ensures var d := s.vm.dirs[e]; var s' := PageDecref(s.(vm := s.vm.(dirs := s.vm.dirs - {e})), d);
      Inv(s') && s'.handed == s.handed && s'.vm == s.vm.(dirs := s.vm.dirs - {e})
  {
    hide InvWith;
    hide PageDecref;
    var d := s.vm.dirs[e];
    RootHeld(s, e);
    DecrefMemory(s.(vm := s.vm.(dirs := s.vm.dirs - {e})), d);
    DropDirKeeps(s, multiset{}, e);
    assert multiset{} + multiset{d} == multiset{d};
    DecrefKeeps(s.(vm := s.vm.(dirs := s.vm.dirs - {e})), multiset{d}, d);
    assert multiset{d} - multiset{d} == multiset{};
  }

  lemma RootHeld(s: State, e: nat)
    requires Inv(s) && e in s.vm.dirs
    ensures s.vm.dirs[e] < |s.refs| && s.vm.dirs[e] !in s.handed
  {
    Referenced(s, multiset{}, Root(e));
  }

  lemma DecrefMemory(s: State, p: nat)
    requires p !in s.handed
    ensures PageDecref(s, p).vm == s.vm && PageDecref(s, p).handed == s.handed
  {
    assert s.handed - {p} == s.handed;
  }

  lemma FreedViews(vm: Tables, vm1: Tables, e: nat)
    requires e in vm.dirs && SlotsFreed(vm, vm1, vm.dirs[e], 0, PDX_UTOP)
    ensures var d := vm.dirs[e]; var vm' := vm1.(dirs := vm1.dirs - {e});
      && OthersSame(vm, vm', d) && vm'.dirs == vm.dirs - {e} && vm'.kdir == vm.kdir
      && (forall i: nat :: i < PDX_UTOP ==> Get(vm1, vm1.dirs[e], i) == ZERO)
  {
    var vm' := vm1.(dirs := vm1.dirs - {e});
    forall r | IsRoot(vm, r) && r != vm.dirs[e] ensures SameView(vm, vm', r) {
      assert SameView(vm, vm1, r);
    }
  }

  /** env_free keeps the invariant, removes the environment, and changes no other address space. */
  lemma EnvFreeKeeps(s: State, e: nat)
    requires Inv(s)
    requires e in s.vm.dirs
    ensures var s' := EnvFree(s, e);
      && Inv(s') && s'.handed == s.handed
      && s'.vm.dirs == s.vm.dirs - {e} && s'.vm.kdir == s.vm.kdir
      && OthersSame(s.vm, s'.vm, s.vm.dirs[e])
  {
    hide Inv;
    FreeTablesKeeps(s, e, 0);
    var s1 := FreeTables(s, s.vm.dirs[e], 0);
    FreedViews(s.vm, s1.vm, e);
    assert s1.vm.dirs == s.vm.dirs;
    hide SlotsFreed;
    hide OthersSame;
    hide FreeTables;
    hide PageDecref;
    DropDir(s1, e);
  }

  // ---- the exact effect of env_free ---------------------------------------------------------

  ghost predicate OfEnv(x: Site, e: nat) {
    !x.KernPde? && x.e == e
  }

  /** The user pages of environment e that map page q. */
  ghost function MappingsOf(vm: Tables, e: nat, q: nat): set<VPage>
    requires e in vm.dirs
  {
    set v | v in UserPages() && Entry(Leaf(vm, vm.dirs[e], v.i, v.j)) == Some(q)
  }

  /** Page q is one of the user page tables of environment e. */
  ghost predicate IsTable(vm: Tables, e: nat, q: nat)
    requires e in vm.dirs
  {
    exists i: nat :: i < PDX_UTOP && Walk(vm, vm.dirs[e], i) == Some(q)
  }

  lemma {:induction false} SitesOfPages(pages: set<VPage>, e: nat)
    ensures |set v | v in pages :: Pte(e, v.i, v.j)| == |pages|
  {
    if pages != {} {
      var v :| v in pages;
      SitesOfPages(pages - {v}, e);
      assert (set w | w in pages :: Pte(e, w.i, w.j)) ==
             (set w | w in pages - {v} :: Pte(e, w.i, w.j)) + {Pte(e, v.i, v.j)};
    }
  }

  /** How many references to q an environment holds. */
  ghost function Held(vm: Tables, e: nat, q: nat): nat
    requires e in vm.dirs
  {
    |MappingsOf(vm, e, q)| + (if IsTable(vm, e, q) then 1 else 0) + (if vm.dirs[e] == q then 1 else 0)
  }

  ghost function HeldSites(vm: Tables, e: nat, q: nat): set<Site> {
    set x | x in Universe() && OfEnv(x, e) && Target(vm, x) == Some(q)
  }

  ghost function EntrySites(vm: Tables, e: nat, q: nat): set<Site>
    requires e in vm.dirs
  {
    set v | v in MappingsOf(vm, e, q) :: Pte(e, v.i, v.j)
  }

  ghost function TableSites(vm: Tables, e: nat, q: nat): set<Site>
    requires e in vm.dirs
  {
    set i | 0 <= i < PDX_UTOP && Walk(vm, vm.dirs[e], i) == Some(q) :: Pde(e, i)
  }

  lemma TablesHeld(vm: Tables, e: nat, q: nat)
    requires Located(vm) && Forest(vm)
    requires e in vm.dirs
    ensures |TableSites(vm, e, q)| == if IsTable(vm, e, q) then 1 else 0
  {
    if IsTable(vm, e, q) {
      var i: nat :| i < PDX_UTOP && Walk(vm, vm.dirs[e], i) == Some(q);
      TableAlone(vm, e, i);
      assert TableSites(vm, e, q) == {Pde(e, i)};
    } else {
      assert TableSites(vm, e, q) == {};
    }
  }

  lemma HeldKinds(vm: Tables, e: nat, q: nat)
    requires e in vm.dirs && e < NENV
    ensures HeldSites(vm, e, q) ==
      EntrySites(vm, e, q) + TableSites(vm, e, q) + if vm.dirs[e] == q then {Root(e)} else {}
  {
    forall x ensures x in HeldSites(vm, e, q)
                <==> x in EntrySites(vm, e, q) + TableSites(vm, e, q) + if vm.dirs[e] == q then {Root(e)} else {} {
      match x
      case Pte(_, i, j) => assert x in EntrySites(vm, e, q) <==> x.e == e && VPage(i, j) in MappingsOf(vm, e, q);
      case _ =>
    }
  }

  lemma HeldIsCounted(vm: Tables, e: nat, q: nat)
    requires Located(vm) && Forest(vm)
    requires e in vm.dirs
    ensures |HeldSites(vm, e, q)| == Held(vm, e, q)
  {
    SitesOfPages(MappingsOf(vm, e, q), e);
    TablesHeld(vm, e, q);
    HeldKinds(vm, e, q);
    hide Located;
    hide Forest;
    hide Universe;
    assert EntrySites(vm, e, q) !! TableSites(vm, e, q);
  }

  lemma TeardownCounts(vm: Tables, vm': Tables, e: nat, q: nat)
    requires Located(vm) && Forest(vm)
    requires e in vm.dirs && vm'.dirs == vm.dirs - {e} && vm'.kdir == vm.kdir
    requires OthersSame(vm, vm', vm.dirs[e])
    ensures Count(vm, q) == Count(vm', q) + Held(vm, e, q)
  {
    HeldIsCounted(vm, e, q);
    forall x | ValidSite(x) ensures Target(vm', x) == if OfEnv(x, e) then None else Target(vm, x) {
      assert Target(vm, Root(e)) == Some(vm.dirs[e]);
      if !OfEnv(x, e) {
        var r := if x.KernPde? then vm.kdir else if x.e in vm.dirs then vm.dirs[x.e] else vm.kdir;
        if !x.KernPde? && x.e in vm.dirs {
          assert Target(vm, Root(x.e)) == Some(r);
          assert x.e in vm'.dirs && vm'.dirs[x.e] == r;
        }
        assert IsRoot(vm, r);
        assert SameView(vm, vm', r);
        if x.Pte? && x.e in vm.dirs {
          assert Leaf(vm', r, x.i, x.j) == Leaf(vm, r, x.i, x.j);
        }
      }
    }
    assert RefsAmong(Universe(), vm, q) == RefsAmong(Universe(), vm', q) + HeldSites(vm, e, q);
  }

  /** Each page has lost the references that e held; the free list has gained exactly the pages left without any. */
  ghost predicate GaveBack(s: State, s': State, e: nat)
    requires e in s.vm.dirs
  {
    && |s'.refs| == |s.refs|
    && (forall q: nat :: q < |s.refs| ==> s'.refs[q] + Held(s.vm, e, q) == s.refs[q])
    && NoDup(s'.free)
    && (forall q: nat :: q < |s.refs| ==> (q in s'.free <==> q in s.free || (s'.refs[q] == 0 && s.refs[q] > 0)))
  }

  /** Counts decide the books: the free list gains exactly the pages that lost their last reference. */
  lemma TeardownBooks(s: State, s': State, e: nat)
    requires Inv(s) && Inv(s')
    requires e in s.vm.dirs && s'.base == s.base && |s'.refs| == |s.refs| && s'.handed == s.handed
    requires forall q: nat :: Count(s.vm, q) == Count(s'.vm, q) + Held(s.vm, e, q)
    ensures GaveBack(s, s', e)
  {
    hide Shape;
    hide Count;
    hide Held;
    forall q: nat | q < |s.refs| ensures s'.refs[q] + Held(s.vm, e, q) == s.refs[q] {
    }
    forall q: nat | q < |s.refs| ensures q in s'.free <==> q in s.free || (s'.refs[q] == 0 && s.refs[q] > 0) {
      assert q in s.free || q in s.handed <==> s.base[q] == 0 && s.refs[q] == 0;
    }
  }

  lemma EnvFreeSizes(s: State, e: nat)
    requires e in s.vm.dirs
    ensures EnvFree(s, e).base == s.base && |EnvFree(s, e).refs| == |s.refs|
  {
    hide FreeTables;
  }

  lemma FreeFacts(s: State)
    requires Inv(s)
    ensures NoDup(s.free) && Located(s.vm) && Forest(s.vm)
  {
  }

  /**
    Exact teardown: each page loses one reference per user mapping of it in e, one if it was a user
    table of e and one if it was e's directory; exactly the pages left without a reference join
    the free list, each once; no other environment and nothing of the kernel's changes.
   */
  lemma EnvFreeExact(s: State, e: nat)
    requires Inv(s)
    requires e in s.vm.dirs
    ensures var s' := EnvFree(s, e);
      && Inv(s')
      && s'.vm.dirs == s.vm.dirs - {e}
      && GaveBack(s, s', e)
      && OthersSame(s.vm, s'.vm, s.vm.dirs[e])
      && (forall e' :: e' in s.vm.dirs && e' != e ==> Mapping(s'.vm, e') == Mapping(s.vm, e'))
  {
    hide InvWith;
    hide Located;
    hide Forest;
    hide OthersSame;
    hide Mapping;
    hide EnvFree;
    hide Count;
    hide Held;
    hide GaveBack;
    FreeFacts(s);
    EnvFreeKeeps(s, e);
    EnvFreeSizes(s, e);
    var s' := EnvFree(s, e);
    forall q: nat ensures Count(s.vm, q) == Count(s'.vm, q) + Held(s.vm, e, q) {
      TeardownCounts(s.vm, s'.vm, e, q);
    }
    TeardownBooks(s, s', e);
    forall e' | e' in s.vm.dirs && e' != e ensures Mapping(s'.vm, e') == Mapping(s.vm, e') {
      OtherMapping(s.vm, s'.vm, s.vm.dirs[e], e', e);
    }
  }

  // ---- env_setup_vm -------------------------------------------------------------------------

  lemma NewDirView(vm: Tables, e: nat, d: FrameNo, r: nat)
    requires Shape(vm) && Fresh(vm, d) && e < NENV && e !in vm.dirs && IsRoot(vm, r)
    ensures SameView(vm, AddDir(vm, e, d), r)
  {
    var vm' := AddDir(vm, e, d);
    AddDirWords(vm, e, d);
    forall e', i: nat | e' in vm.dirs && vm.dirs[e'] == r && i < PDX_UTOP ensures Walk(vm, r, i) != Some(d as nat) {
      assert Target(vm, Pde(e', i)) == Walk(vm, r, i);
    }
    RootSlots(vm, r, d);
    UnreachedFrame(vm, vm', r, d);
  }

  lemma ViewThenView(vm0: Tables, vm1: Tables, vm2: Tables, r: nat)
    requires SameView(vm0, vm1, r) && SameView(vm1, vm2, r)
    ensures SameView(vm0, vm2, r)
  {
  }

  /** A new address space: the kernel's above UTOP, with its own self-map, and empty below. */
  lemma EnvSetupKeeps(s: State, e: nat)
    requires Inv(s)
    requires e < NENV && e !in s.vm.dirs
    ensures var (s', ok) := EnvSetupVm(s, e);
      && Inv(s')
      && (ok <==> s.free != [])
      && (!ok ==> s' == s)
      && (ok ==> s'.vm.kdir == s.vm.kdir && e in s'.vm.dirs && s'.vm.dirs == s.vm.dirs[e := s'.vm.dirs[e]]
                 && Mapping(s'.vm, e) == map[]
                 && forall r :: IsRoot(s.vm, r) ==> SameView(s.vm, s'.vm, r))
  {
    assert s.vm.kdir < |s.vm.mem| <= MAXFRAMES;
    hide InvWith;
    hide AddDir;
    hide Mapping;
    ZeroPageAlloc(s, multiset{});
    var (s1, page) := PageAlloc(s, true);
    if page.Some? {
      var d := page.value;
      NewDirKeeps(s1, e, d);
      hide SameView;
      hide Shape;
      forall r | IsRoot(s.vm, r) ensures SameView(s.vm, AddDir(s1.vm, e, d), r) {
        NewDirView(s1.vm, e, d, r);
        ViewThenView(s.vm, s1.vm, AddDir(s1.vm, e, d), r);
      }
    }
  }

  lemma NewDirKeeps(s: State, e: nat, d: FrameNo)
    requires Inv(s) && Fresh(s.vm, d) && d as nat !in s.free && s.refs[d] == 0
    requires e < NENV && e !in s.vm.dirs
    ensures Shape(s.vm) && s.vm.kdir < |s.vm.mem|
    ensures Inv(Incref(s, d).(vm := AddDir(s.vm, e, d)))
    ensures AddDir(s.vm, e, d).kdir == s.vm.kdir && AddDir(s.vm, e, d).dirs == s.vm.dirs[e := d]
    ensures Mapping(AddDir(s.vm, e, d), e) == map[]
  {
    NewDirMapping(s.vm, e, d);
    IncrefKeeps(s, multiset{}, d);
    hide Mapping;
    hide Shape;
    AddDirKeeps(Incref(s, d), multiset{d as nat}, e, d);
    assert multiset{d as nat} - multiset{d as nat} == multiset{};
  }

  lemma NewDirMapping(vm: Tables, e: nat, d: FrameNo)
    requires Shape(vm) && Fresh(vm, d) && e < NENV && e !in vm.dirs
    ensures Mapping(AddDir(vm, e, d), e) == map[]
  {
    AddDirWords(vm, e, d);
    var vm' := AddDir(vm, e, d);
    forall v | v in UserPages() ensures !Leaf(vm', d, v.i, v.j).flags.p {
      assert Get(vm', d, v.i) == Get(vm, vm.kdir, v.i) == ZERO;
    }
  }
}
