/**
  The page-table operations of kern/pmap.c: each keeps the invariant, and each is, to a reader who
  sees only the flat map from virtual pages to entries, an update of that map.
 */
module PageTables {
  import opened Mmu
  import opened Vm
  import opened VmInvariant
  import opened VmSteps

  // ---- what an address space looks like -----------------------------------------------------

  /** The entry that the MMU finds for page (i, j) from directory r; ZERO when there is no table. */
  function Leaf(vm: Tables, r: nat, i: nat, j: nat): Word {
    match Walk(vm, r, i)
    case None => ZERO
    case Some(t) => Get(vm, t, j)
  }

  datatype VPage = VPage(i: nat, j: nat)

  ghost function UserPages(): (pages: set<VPage>)
    ensures forall v :: v in pages <==> v.i < PDX_UTOP && v.j < NPTENTRIES
  {
    set i, j | 0 <= i < PDX_UTOP && 0 <= j < NPTENTRIES :: VPage(i, j)
  }

  /** The flat map of environment e: its mapped pages below UTOP, with page and permissions. */
  ghost function Mapping(vm: Tables, e: nat): map<VPage, Word>
    requires e in vm.dirs
  {
    map v | v in UserPages() && Leaf(vm, vm.dirs[e], v.i, v.j).flags.p :: Leaf(vm, vm.dirs[e], v.i, v.j)
  }

  ghost predicate IsRoot(vm: Tables, r: nat) {
    r == vm.kdir || exists e :: e in vm.dirs && vm.dirs[e] == r
  }

  /** Directory r translates every address the same way, with the same rights. */
  ghost predicate SameView(vm: Tables, vm': Tables, r: nat) {
    && (forall i: nat :: Get(vm', r, i) == Get(vm, r, i))
    && (forall i: nat, j: nat :: Leaf(vm', r, i, j) == Leaf(vm, r, i, j))
  }

  /** Every address space but that of directory d is as it was. */
  ghost predicate OthersSame(vm: Tables, vm': Tables, d: nat) {
    forall r :: IsRoot(vm, r) && r != d ==> SameView(vm, vm', r)
  }

  // ---- which frames an address space depends on ---------------------------------------------

  ghost predicate Reaches(vm: Tables, r: nat, f: nat) {
    f == r || exists i: nat :: i < NPDENTRIES && Walk(vm, r, i) == Some(f)
  }

  lemma UnreachedFrame(vm: Tables, vm': Tables, r: nat, f: nat)
    requires !Reaches(vm, r, f)
    requires forall g: nat, k: nat :: g != f ==> Get(vm', g, k) == Get(vm, g, k)
    ensures SameView(vm, vm', r)
  {
  }

  /** Each slot of a root is a site's slot, a shared kernel slot, or the self-map. */
  lemma RootSlots(vm: Tables, r: nat, f: nat)
    requires Shape(vm) && IsRoot(vm, r)
    requires forall x :: Structural(x) && Target(vm, x) == Some(f) ==> x.Root? || x.Pde?
    requires f != r
    requires forall e, i: nat :: e in vm.dirs && vm.dirs[e] == r && i < PDX_UTOP ==> Walk(vm, r, i) != Some(f)
    ensures !Reaches(vm, r, f)
  {
    forall i: nat | i < NPDENTRIES ensures Walk(vm, r, i) != Some(f) {
      if r == vm.kdir {
        if KernSlot(i) {
          assert Target(vm, KernPde(i)) == Walk(vm, r, i);
        }
      } else {
        var e :| e in vm.dirs && vm.dirs[e] == r;
        if KernSlot(i) {
          assert Get(vm, r, i) == Get(vm, vm.kdir, i);
          assert Target(vm, KernPde(i)) == Walk(vm, r, i);
        }
      }
    }
  }

  /** Frame f is no directory and no page table, the kernel's included. */
  ghost predicate Plain(vm: Tables, f: nat) {
    f != vm.kdir && forall x :: Structural(x) ==> Target(vm, x) != Some(f)
  }

  /** Such a frame may hold anything. */
  lemma PlainView(vm: Tables, f: nat, page: Page, r: nat)
    requires Shape(vm) && IsRoot(vm, r) && Plain(vm, f)
    ensures SameView(vm, SetPage(vm, f, page), r)
  {
    if r != vm.kdir {
      var e :| e in vm.dirs && vm.dirs[e] == r;
      assert Target(vm, Root(e)) == Some(r);
    }
    forall e, i: nat | e in vm.dirs && vm.dirs[e] == r && i < PDX_UTOP ensures Walk(vm, r, i) != Some(f) {
      assert Target(vm, Pde(e, i)) == Walk(vm, r, i);
    }
    RootSlots(vm, r, f);
    UnreachedFrame(vm, SetPage(vm, f, page), r, f);
  }

  // ---- elementary changes, as address spaces see them ---------------------------------------

  /** Entry (i, j) of directory d becomes w; every other entry outside the self-map stays. */
  ghost predicate OneEntry(vm: Tables, vm': Tables, d: nat, i: nat, j: nat, w: Word) {
    forall i': nat, j': nat :: i' < NPDENTRIES && i' != PDX_UVPT ==>
      Leaf(vm', d, i', j') == if (i', j') == (i, j) then w else Leaf(vm, d, i', j')
  }

  ghost predicate SameEntries(vm: Tables, vm': Tables, d: nat) {
    forall i: nat, j: nat :: i < NPDENTRIES && i != PDX_UVPT ==> Leaf(vm', d, i, j) == Leaf(vm, d, i, j)
  }

  /** Directory d's entries stay, and so does every other address space. */
  ghost predicate NoEdit(vm: Tables, vm': Tables, d: nat) {
    SameRoots(vm, vm') && OthersSame(vm, vm', d) && SameEntries(vm, vm', d)
  }

  /** Entry (i, j) of directory d becomes w and nothing else changes in any address space. */
  ghost predicate Edit(vm: Tables, vm': Tables, d: nat, i: nat, j: nat, w: Word) {
    SameRoots(vm, vm') && OthersSame(vm, vm', d) && OneEntry(vm, vm', d, i, j, w)
  }

  lemma OthersCompose(vm0: Tables, vm1: Tables, vm2: Tables, d: nat)
    requires SameRoots(vm0, vm1) && OthersSame(vm0, vm1, d) && OthersSame(vm1, vm2, d)
    ensures OthersSame(vm0, vm2, d)
  {
    forall r | IsRoot(vm0, r) && r != d ensures SameView(vm0, vm2, r) {
      assert SameView(vm0, vm1, r) && IsRoot(vm1, r) && SameView(vm1, vm2, r);
    }
  }

  lemma NoEditThenEdit(vm0: Tables, vm1: Tables, vm2: Tables, d: nat, i: nat, j: nat, w: Word)
    requires NoEdit(vm0, vm1, d) && Edit(vm1, vm2, d, i, j, w)
    ensures Edit(vm0, vm2, d, i, j, w)
  {
    OthersCompose(vm0, vm1, vm2, d);
  }

  lemma EditThenEdit(vm0: Tables, vm1: Tables, vm2: Tables, d: nat, i: nat, j: nat, w: Word, w': Word)
    requires Edit(vm0, vm1, d, i, j, w) && Edit(vm1, vm2, d, i, j, w')
    ensures Edit(vm0, vm2, d, i, j, w')
  {
    OthersCompose(vm0, vm1, vm2, d);
  }

  ghost predicate SameRoots(vm: Tables, vm': Tables) {
    vm'.dirs == vm.dirs && vm'.kdir == vm.kdir && |vm'.mem| == |vm.mem|
  }

  lemma StoreEntryView(vm: Tables, e: nat, i: nat, j: nat, w: Word)
    requires Shape(vm)
    requires e in vm.dirs && i < PDX_UTOP && j < NPTENTRIES && Walk(vm, vm.dirs[e], i).Some?
    ensures var d := vm.dirs[e]; var vm' := Put(vm, Walk(vm, d, i).value, j, w);
      Edit(vm, vm', d, i, j, w) && SameSlots(vm, vm', d)
  {
    var d := vm.dirs[e];
    var t := Walk(vm, d, i).value;
    var vm' := Put(vm, t, j, w);
    TableAlone(vm, e, i);
    assert forall f: nat, k: nat :: (f, k) != (t, j) ==> Get(vm', f, k) == Get(vm, f, k);
    assert Target(vm, Pde(e, i)) == Some(t);
    forall r | IsRoot(vm, r) && r != d ensures SameView(vm, vm', r) {
      RootSlots(vm, r, t);
      UnreachedFrame(vm, vm', r, t);
    }
    forall i': nat | i' < NPDENTRIES && i' != i && i' != PDX_UVPT ensures Walk(vm, d, i') != Some(t) {
      if KernSlot(i') {
        assert Get(vm, d, i') == Get(vm, vm.kdir, i');
      }
    }
  }

  lemma StoreSlotView(vm: Tables, e: nat, i: nat, w: Word)
    requires Shape(vm)
    requires e in vm.dirs && i < PDX_UTOP
    requires SlotWord(vm, w) && EmptyTable(vm, Get(vm, vm.dirs[e], i))
    ensures var d := vm.dirs[e]; var vm' := Put(vm, d, i, w);
      NoEdit(vm, vm', d)
  {
    var d := vm.dirs[e];
    var vm' := Put(vm, d, i, w);
    SlotWords(vm, e, i, w);
    assert Target(vm, Root(e)) == Some(d);
    forall r | IsRoot(vm, r) && r != d ensures SameView(vm, vm', r) {
      forall e', i': nat | e' in vm.dirs && vm.dirs[e'] == r && i' < PDX_UTOP ensures Walk(vm, r, i') != Some(d) {
        assert Target(vm, Pde(e', i')) == Walk(vm, r, i');
      }
      RootSlots(vm, r, d);
      UnreachedFrame(vm, vm', r, d);
    }
    forall i': nat, j: nat | i' < NPDENTRIES && i' != PDX_UVPT ensures Leaf(vm', d, i', j) == Leaf(vm, d, i', j) {
      if KernSlot(i') && Walk(vm, d, i').Some? {
        assert Get(vm, d, i') == Get(vm, vm.kdir, i');
        assert Target(vm, KernPde(i')) == Walk(vm, d, i');
      }
    }
  }

  // ---- pgdir_walk ---------------------------------------------------------------------------

  /** page_alloc(ALLOC_ZERO) yields an empty page that no address space depends on. */
  lemma ZeroPageAlloc(s: State, pend: multiset<nat>)
    requires InvWith(s, pend)
    ensures var (s', page) := PageAlloc(s, true);
      && InvWith(s', pend)
      && SameRoots(s.vm, s'.vm)
      && (forall r :: IsRoot(s.vm, r) ==> SameView(s.vm, s'.vm, r))
      && (page.None? ==> s' == s)
      && (page.Some? ==> Fresh(s'.vm, page.value) && page.value !in s'.free && s'.refs[page.value] == 0)
      && (page.Some? ==> forall j: nat :: Get(s'.vm, page.value, j) == ZERO)
  {
    AllocKeeps(s, pend, true);
    var (s', page) := PageAlloc(s, true);
    if page.Some? {
      FreshPage(s', pend, page.value);
      assert page.value in s.free;
      FreshPage(s, pend, page.value);
      forall r | IsRoot(s.vm, r) ensures SameView(s.vm, s'.vm, r) {
        PlainView(s.vm, page.value, ZeroPage(), r);
      }
    }
  }

  /** A fresh empty page becomes the table behind an empty slot. */
  lemma LinkTable(s: State, pend: multiset<nat>, e: nat, i: nat, t: FrameNo)
    requires InvWith(s, pend)
    requires e in s.vm.dirs && i < PDX_UTOP && Get(s.vm, s.vm.dirs[e], i) == ZERO
    requires Fresh(s.vm, t) && t as nat !in s.free && s.refs[t] == 0
    requires forall j: nat :: Get(s.vm, t, j) == ZERO
    ensures var d := s.vm.dirs[e]; var vm' := Put(s.vm, d, i, Word(t, PTE_PWU));
      && InvWith(Incref(s, t).(vm := vm'), pend)
      && NoEdit(s.vm, vm', d)
      && Walk(vm', d, i) == Some(t as nat)
  {
    var w := Word(t, PTE_PWU);
    LinkFacts(s, pend, e, i, t);
    hide InvWith;
    hide NoEdit;
    hide SlotWord;
    hide EmptyTable;
    hide Put;
    StoreSlotView(s.vm, e, i, w);
    IncrefKeeps(s, pend, t);
    StoreSlotKeeps(Incref(s, t), pend + multiset{t as nat}, e, i, w);
    assert pend + multiset{t as nat} - multiset{t as nat} == pend;
  }

  lemma LinkFacts(s: State, pend: multiset<nat>, e: nat, i: nat, t: FrameNo)
    requires InvWith(s, pend)
    requires e in s.vm.dirs && i < PDX_UTOP && Get(s.vm, s.vm.dirs[e], i) == ZERO
    requires Fresh(s.vm, t) && forall j: nat :: Get(s.vm, t, j) == ZERO
    ensures var w := Word(t, PTE_PWU);
      && Shape(s.vm) && SlotWord(s.vm, w) && EmptyTable(s.vm, ZERO) && t < |s.refs|
      && Walk(Put(s.vm, s.vm.dirs[e], i, w), s.vm.dirs[e], i) == Some(t as nat)
  {
  }

  lemma ViewsCompose(vm0: Tables, vm1: Tables, vm2: Tables, d: nat)
    requires forall r :: IsRoot(vm0, r) ==> SameView(vm0, vm1, r)
    requires SameRoots(vm0, vm1) && IsRoot(vm0, d)
    requires NoEdit(vm1, vm2, d)
    ensures NoEdit(vm0, vm2, d)
  {
    assert SameView(vm0, vm1, d);
    OthersCompose(vm0, vm1, vm2, d);
  }

  /** pgdir_walk with create: no translation changes, and it fails only when there is no page. */
  lemma WalkCreateKeeps(s: State, pend: multiset<nat>, e: nat, i: nat)
    requires InvWith(s, pend)
    requires e in s.vm.dirs && i < PDX_UTOP
    ensures var d := s.vm.dirs[e]; var (s', pte) := WalkCreate(s, d, i);
      && InvWith(s', pend)
      && NoEdit(s.vm, s'.vm, d)
      && (pte.None? <==> Walk(s.vm, d, i).None? && s.free == [])
      && (pte.None? ==> s' == s)
      && (pte.Some? ==> Walk(s'.vm, d, i) == pte)
  {
    var d := s.vm.dirs[e];
    assert IsRoot(s.vm, d);
    assert Get(s.vm, d, i) == ZERO || Walk(s.vm, d, i).Some?;
    if Walk(s.vm, d, i).None? && s.free != [] {
      ZeroPageAlloc(s, pend);
      hide InvWith;
      var (s1, page) := PageAlloc(s, true);
      assert SameView(s.vm, s1.vm, d);
      LinkTable(s1, pend, e, i, page.value);
      ViewsCompose(s.vm, s1.vm, Put(s1.vm, d, i, Word(page.value, PTE_PWU)), d);
    }
  }

  /** What a walk does to the pages other than the one it allocates. */
  lemma WalkCreateBooks(s: State, pend: multiset<nat>, d: nat, i: nat, q: nat)
    requires InvWith(s, pend)
    requires q < |s.refs| && q !in s.free
    ensures var s' := WalkCreate(s, d, i).0;
      q !in s'.free && |s'.refs| == |s.refs| && s'.refs[q] == s.refs[q]
  {
  }

  // ---- page_remove and page_insert ----------------------------------------------------------

  ghost predicate SameSlots(vm: Tables, vm': Tables, d: nat) {
    forall k: nat :: Get(vm', d, k) == Get(vm, d, k)
  }

  /** page_remove deletes one key of the flat map, and drops the page's reference. */
  lemma PageRemoveKeeps(s: State, pend: multiset<nat>, e: nat, i: nat, j: nat)
    requires InvWith(s, pend)
    requires e in s.vm.dirs && i < PDX_UTOP && j < NPTENTRIES
    ensures var d := s.vm.dirs[e]; var s' := PageRemove(s, d, i, j);
      && InvWith(s', pend)
      && Edit(s.vm, s'.vm, d, i, j, ZERO) && SameSlots(s.vm, s'.vm, d)
      && s'.handed == s.handed
  {
    hide InvWith;
    hide PageDecref;
    var d := s.vm.dirs[e];
    EntryZeroOrPresent(s, pend, e, i, j);
    match PageLookup(s.vm, d, i, j)
    case None =>
    case Some((t, q)) =>
      ClearEntry(s, pend, e, i, j);
  }

  lemma EntryZeroOrPresent(s: State, pend: multiset<nat>, e: nat, i: nat, j: nat)
    requires InvWith(s, pend)
    requires e in s.vm.dirs && i < PDX_UTOP && j < NPTENTRIES
    ensures Leaf(s.vm, s.vm.dirs[e], i, j) == ZERO || Leaf(s.vm, s.vm.dirs[e], i, j).flags.p
  {
  }

  lemma TargetOfEntry(s: State, pend: multiset<nat>, e: nat, i: nat, j: nat)
    requires InvWith(s, pend)
    requires e in s.vm.dirs && i < PDX_UTOP && j < NPTENTRIES && Leaf(s.vm, s.vm.dirs[e], i, j).flags.p
    ensures ValidSite(Pte(e, i, j)) && Target(s.vm, Pte(e, i, j)) == Some(Leaf(s.vm, s.vm.dirs[e], i, j).frame as nat)
    ensures Shape(s.vm)
  {
  }

  /** Clearing a present entry and dropping its reference. */
  lemma ClearEntry(s: State, pend: multiset<nat>, e: nat, i: nat, j: nat)
    requires InvWith(s, pend)
    requires e in s.vm.dirs && i < PDX_UTOP && j < NPTENTRIES && Walk(s.vm, s.vm.dirs[e], i).Some?
    requires Leaf(s.vm, s.vm.dirs[e], i, j).flags.p
    ensures var d := s.vm.dirs[e]; var t := Walk(s.vm, d, i).value; var vm' := Put(s.vm, t, j, ZERO);
      var s' := PageDecref(s.(vm := vm'), Leaf(s.vm, d, i, j).frame);
      && InvWith(s', pend) && s'.vm == vm' && s'.handed == s.handed
      && Edit(s.vm, vm', d, i, j, ZERO) && SameSlots(s.vm, vm', d)
  {
    var t := Walk(s.vm, s.vm.dirs[e], i).value;
    var q := Leaf(s.vm, s.vm.dirs[e], i, j).frame as nat;
    TargetOfEntry(s, pend, e, i, j);
    hide InvWith;
    hide Edit;
    hide SameSlots;
    hide Put;
    Referenced(s, pend, Pte(e, i, j));
    StoreEntryView(s.vm, e, i, j, ZERO);
    assert s.handed - {q} == s.handed;
    StoreEntryKeeps(s, pend, e, i, j, ZERO);
    DecrefKeeps(s.(vm := Put(s.vm, t, j, ZERO)), pend + multiset{q}, q);
    assert pend + multiset{q} - multiset{q} == pend;
  }

  /** A held reference is spent on an empty entry. */
  lemma StoreHeld(s: State, pend: multiset<nat>, e: nat, p: FrameNo, i: nat, j: nat, perm: Flags)
    requires InvWith(s, pend + multiset{p as nat})
    requires e in s.vm.dirs && i < PDX_UTOP && j < NPTENTRIES && Walk(s.vm, s.vm.dirs[e], i).Some?
    requires p < |s.refs| && Leaf(s.vm, s.vm.dirs[e], i, j) == ZERO
    ensures var d := s.vm.dirs[e]; var w := Word(p, Present(perm)); var vm' := Put(s.vm, Walk(s.vm, d, i).value, j, w);
      && InvWith(s.(vm := vm'), pend)
      && Edit(s.vm, vm', d, i, j, w) && SameSlots(s.vm, vm', d)
  {
    var pend2 := pend + multiset{p as nat};
    StoreEntryView(s.vm, e, i, j, Word(p, Present(perm)));
    StoreEntryKeeps(s, pend2, e, i, j, Word(p, Present(perm)));
    assert pend2 - multiset{p as nat} == pend;
  }

  /** The increment comes before the removal, so the page is never free in between. */
  lemma InstallKeeps(s: State, pend: multiset<nat>, e: nat, p: FrameNo, i: nat, j: nat, perm: Flags)
    requires InvWith(s, pend)
    requires e in s.vm.dirs && i < PDX_UTOP && j < NPTENTRIES && Walk(s.vm, s.vm.dirs[e], i).Some?
    requires p < |s.refs| && p as nat !in s.free && s.refs[p] < MAXREF
    ensures var d := s.vm.dirs[e]; var s' := Install(s, d, Walk(s.vm, d, i).value, p, i, j, perm);
      && InvWith(s', pend)
      && Edit(s.vm, s'.vm, d, i, j, Word(p, Present(perm))) && SameSlots(s.vm, s'.vm, d)
  {
    var d := s.vm.dirs[e];
    var t := Walk(s.vm, d, i).value;
    IncrefKeeps(s, pend, p);
    var s2 := Incref(s, p);
    PageRemoveKeeps(s2, pend + multiset{p as nat}, e, i, j);
    var s3 := PageRemove(s2, d, i, j);
    assert Get(s3.vm, d, i) == Get(s.vm, d, i);
    assert Get(s3.vm, t, j) == Leaf(s3.vm, d, i, j) == ZERO;
    assert !Get(s2.vm, t, j).flags.p ==> s3 == s2;
    StoreHeld(s3, pend, e, p, i, j, perm);
    hide InvWith;
    hide PageRemove;
    EditThenEdit(s.vm, s3.vm, Put(s3.vm, t, j, Word(p, Present(perm))), d, i, j, ZERO, Word(p, Present(perm)));
  }

  /** page_insert updates one key of the flat map, or fails and changes nothing at all. */
  lemma PageInsertKeeps(s: State, pend: multiset<nat>, e: nat, p: FrameNo, i: nat, j: nat, perm: Flags)
    requires InvWith(s, pend)
    requires e in s.vm.dirs && i < PDX_UTOP && j < NPTENTRIES
    requires p < |s.refs| && p as nat !in s.free && s.refs[p] < MAXREF
    ensures var d := s.vm.dirs[e]; var (s', ok) := PageInsert(s, d, p, i, j, perm);
      && InvWith(s', pend)
      && (ok <==> Walk(s.vm, d, i).Some? || s.free != [])
      && (!ok ==> s' == s)
      && (ok ==> Edit(s.vm, s'.vm, d, i, j, Word(p, Present(perm))))
  {
    var d := s.vm.dirs[e];
    WalkCreateKeeps(s, pend, e, i);
    WalkCreateBooks(s, pend, d, i, p);
    hide InvWith;
    var (s1, pte) := WalkCreate(s, d, i);
    if pte.Some? {
      InstallKeeps(s1, pend, e, p, i, j, perm);
      var s' := Install(s1, d, pte.value, p, i, j, perm);
      assert (s', true) == PageInsert(s, d, p, i, j, perm);
      hide Edit;
      NoEditThenEdit(s.vm, s1.vm, s'.vm, d, i, j, Word(p, Present(perm)));
    }
  }

  lemma OtherMapping(vm: Tables, vm': Tables, d: nat, e': nat, e: nat)
    requires Located(vm) && Forest(vm)
    requires e in vm.dirs && vm.dirs[e] == d && e' in vm.dirs && e' != e
    requires OthersSame(vm, vm', d)
    requires e' in vm'.dirs && vm'.dirs[e'] == vm.dirs[e']
    ensures Mapping(vm', e') == Mapping(vm, e')
  {
    assert Target(vm, Root(e)) == Some(d) && Target(vm, Root(e')) == Some(vm.dirs[e']);
    assert SameView(vm, vm', vm.dirs[e']);
  }
}
