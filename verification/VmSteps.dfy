/**
  What each elementary change of the state does to the invariant.  References move between the
  sites and the multiset `pend` of references that the running operation holds.
 */
module VmSteps {
  import opened Mmu
  import opened Vm
  import opened VmInvariant

  /** pend with the page of entry w added, or taken away. */
  ghost function Take(pend: multiset<nat>, w: Word): multiset<nat> {
    if w.flags.p then pend + multiset{w.frame as nat} else pend
  }

  ghost function Spend(pend: multiset<nat>, w: Word): multiset<nat> {
    if w.flags.p then pend - multiset{w.frame as nat} else pend
  }

  /** Frame f is no directory and no user page table, so its words are not sites. */
  ghost predicate DataFrame(vm: Tables, f: nat) {
    f != vm.kdir && forall x :: ValidSite(x) && (x.Root? || x.Pde?) ==> Target(vm, x) != Some(f)
  }

  /** New tables keep the invariant when every count they change is made up for in pend. */
  lemma Rebook(s: State, pend: multiset<nat>, vm': Tables, pend': multiset<nat>)
    requires InvWith(s, pend)
    requires Shape(vm') && |vm'.mem| == |s.vm.mem| && vm'.kdir == s.vm.kdir
    requires forall p: nat :: p < |s.vm.mem| ==> Count(vm', p) + pend'[p] == Count(s.vm, p) + pend[p]
    ensures InvWith(s.(vm := vm'), pend')
  {
    hide Shape;
    hide Count;
  }

  // ---- writes that no site sees -------------------------------------------------------------

  lemma DataWriteShape(vm: Tables, f: nat, page: Page)
    requires Shape(vm)
    requires DataFrame(vm, f)
    ensures Shape(SetPage(vm, f, page))
    ensures forall x :: ValidSite(x) ==> Target(SetPage(vm, f, page), x) == Target(vm, x)
  {
    var vm' := SetPage(vm, f, page);
    assert forall g: nat, k: nat :: g != f ==> Get(vm', g, k) == Get(vm, g, k);
    forall e | e in vm.dirs ensures vm.dirs[e] != f {
      assert Target(vm, Root(e)) == Some(vm.dirs[e]);
    }
    forall e, i: nat | e in vm.dirs && i < PDX_UTOP ensures Walk(vm, vm.dirs[e], i) != Some(f) {
      assert Target(vm, Pde(e, i)) == Walk(vm, vm.dirs[e], i);
    }
    hide SetPage;
    assert forall e, i: nat :: e in vm.dirs ==> Walk(vm', vm.dirs[e], i) == Walk(vm, vm.dirs[e], i);
    assert forall x :: ValidSite(x) ==> Target(vm', x) == Target(vm, x);
    assert UserEntries(vm') by {
      hide Forest;
      hide Located;
    }
  }

  /** Data pages may hold anything. */
  lemma DataWriteKeeps(s: State, pend: multiset<nat>, f: nat, page: Page)
    requires InvWith(s, pend)
    requires DataFrame(s.vm, f)
    ensures InvWith(s.(vm := SetPage(s.vm, f, page)), pend)
  {
    DataWriteShape(s.vm, f, page);
    CountSame(s.vm, SetPage(s.vm, f, page));
  }

  // ---- the allocator ------------------------------------------------------------------------

  lemma AllocKeeps(s: State, pend: multiset<nat>, zero: bool)
    requires InvWith(s, pend)
    ensures var (s', page) := PageAlloc(s, zero);
      && InvWith(s', pend)
      && (page.None? ==> s' == s)
      && (page.Some? ==> page.value < |s.refs| && s'.refs[page.value] == 0 && page.value in s'.handed
                         && page.value !in s'.free)
  {
    if s.free != [] {
      var p := s.free[0];
      assert p in s.free;
      FreshPage(s, pend, p);
      var s1 := s.(free := s.free[1..], handed := s.handed + {p});
      assert s.free == [p] + s1.free;
      assert forall q :: q in s.free <==> q == p || q in s1.free;
      assert InvWith(s1, pend);
      DataWriteKeeps(s1, pend, p, ZeroPage());
    }
  }

  lemma FreeKeeps(s: State, pend: multiset<nat>, p: nat)
    requires InvWith(s, pend)
    requires p in s.handed
    ensures InvWith(PageFree(s, p), pend)
  {
    assert forall q :: q in PageFree(s, p).free <==> q == p || q in s.free;
  }

  lemma IncrefKeeps(s: State, pend: multiset<nat>, p: nat)
    requires InvWith(s, pend)
    requires p < |s.refs| && p !in s.free && s.refs[p] < MAXREF
    ensures InvWith(Incref(s, p), pend + multiset{p})
  {
  }

  lemma DecrefKeeps(s: State, pend: multiset<nat>, p: nat)
    requires InvWith(s, pend)
    requires p < |s.refs| && p in pend
    ensures InvWith(PageDecref(s, p), pend - multiset{p})
  {
    hide Shape;
    assert forall q :: q in [p] + s.free <==> q == p || q in s.free;
  }

  // ---- entries, tables and directories ------------------------------------------------------

  /** The table behind slot i of environment e is used nowhere else. */
  lemma TableAlone(vm: Tables, e: nat, i: nat)
    requires Located(vm) && Forest(vm)
    requires e in vm.dirs && i < PDX_UTOP && Walk(vm, vm.dirs[e], i).Some?
    ensures var t := Walk(vm, vm.dirs[e], i).value;
      && t < |vm.mem| && t != vm.kdir
      && (forall e' :: e' in vm.dirs ==> vm.dirs[e'] != t)
      && (forall e', i': nat :: e' in vm.dirs && i' < PDX_UTOP && (e', i') != (e, i) ==>
            Walk(vm, vm.dirs[e'], i') != Some(t))
      && (forall i' :: KernSlot(i') ==> Walk(vm, vm.kdir, i') != Some(t))
  {
    var t := Walk(vm, vm.dirs[e], i).value;
    assert Target(vm, Pde(e, i)) == Some(t);
    forall e' | e' in vm.dirs ensures vm.dirs[e'] != t {
      assert Target(vm, Root(e')) == Some(vm.dirs[e']);
    }
    forall e', i': nat | e' in vm.dirs && i' < PDX_UTOP && (e', i') != (e, i)
      ensures Walk(vm, vm.dirs[e'], i') != Some(t)
    {
      assert Target(vm, Pde(e', i')) == Walk(vm, vm.dirs[e'], i');
    }
    forall i' | KernSlot(i') ensures Walk(vm, vm.kdir, i') != Some(t) {
      assert Target(vm, KernPde(i')) == Walk(vm, vm.kdir, i');
    }
  }

  /** Storing a word in a user page table changes one site. */
  lemma StoreEntrySites(vm: Tables, e: nat, i: nat, j: nat, w: Word)
    requires Located(vm) && Forest(vm)
    requires e in vm.dirs && i < PDX_UTOP && j < NPTENTRIES && Walk(vm, vm.dirs[e], i).Some?
    ensures var t := Walk(vm, vm.dirs[e], i).value; var vm' := Put(vm, t, j, w);
      && (forall x :: ValidSite(x) && x != Pte(e, i, j) ==> Target(vm', x) == Target(vm, x))
      && Target(vm, Pte(e, i, j)) == Entry(Get(vm, t, j))
      && Target(vm', Pte(e, i, j)) == Entry(w)
      && (forall f: nat, k: nat :: (f, k) != (t, j) ==> Get(vm', f, k) == Get(vm, f, k))
      && (forall e', i': nat :: e' in vm.dirs ==> Walk(vm', vm.dirs[e'], i') == Walk(vm, vm.dirs[e'], i'))
  {
    TableAlone(vm, e, i);
  }

  lemma StoreEntryCounts(vm: Tables, e: nat, i: nat, j: nat, w: Word)
    requires Shape(vm)
    requires e in vm.dirs && i < PDX_UTOP && j < NPTENTRIES && Walk(vm, vm.dirs[e], i).Some?
    ensures var t := Walk(vm, vm.dirs[e], i).value; var vm' := Put(vm, t, j, w);
      forall p: nat :: Count(vm', p) + (if Entry(Get(vm, t, j)) == Some(p) then 1 else 0)
                    == Count(vm, p) + (if Entry(w) == Some(p) then 1 else 0)
  {
    StoreEntrySites(vm, e, i, j, w);
    CountChange(vm, Put(vm, Walk(vm, vm.dirs[e], i).value, j, w), Pte(e, i, j));
  }

  lemma StoreEntryShape(vm: Tables, e: nat, i: nat, j: nat, w: Word)
    requires Shape(vm)
    requires e in vm.dirs && i < PDX_UTOP && j < NPTENTRIES && Walk(vm, vm.dirs[e], i).Some?
    requires w == ZERO || (w.flags.p && w.frame < |vm.mem|)
    ensures Shape(Put(vm, Walk(vm, vm.dirs[e], i).value, j, w))
  {
    TableAlone(vm, e, i);
    StoreEntrySites(vm, e, i, j, w);
  }

  /** ... and moves one reference in and one out. */
  lemma StoreEntryKeeps(s: State, pend: multiset<nat>, e: nat, i: nat, j: nat, w: Word)
    requires InvWith(s, pend)
    requires e in s.vm.dirs && i < PDX_UTOP && j < NPTENTRIES && Walk(s.vm, s.vm.dirs[e], i).Some?
    requires w == ZERO || (w.flags.p && w.frame < |s.vm.mem| && w.frame as nat in pend)
    ensures var t := Walk(s.vm, s.vm.dirs[e], i).value;
      InvWith(s.(vm := Put(s.vm, t, j, w)), Take(Spend(pend, w), Get(s.vm, t, j)))
  {
    hide Shape;
    hide Count;
    hide Counted;
    hide FreeList;
    var t := Walk(s.vm, s.vm.dirs[e], i).value;
    var vm' := Put(s.vm, t, j, w);
    StoreEntryShape(s.vm, e, i, j, w);
    StoreEntryCounts(s.vm, e, i, j, w);
    Rebook(s, pend, vm', Take(Spend(pend, w), Get(s.vm, t, j)));
  }

  // ---- directory slots ----------------------------------------------------------------------

  ghost predicate Fresh(vm: Tables, f: nat) {
    f < |vm.mem| && f != vm.kdir && forall x :: ValidSite(x) ==> Target(vm, x) != Some(f)
  }

  /** The table behind a slot word, if there is one, has no entries. */
  ghost predicate EmptyTable(vm: Tables, w: Word) {
    w.flags.p ==> forall j: nat :: Get(vm, w.frame, j) == ZERO
  }

  /** A user slot may be cleared when its table is empty, and set to a fresh empty table. */
  ghost predicate SlotWord(vm: Tables, w: Word) {
    w == ZERO || (w.flags == PTE_PWU && Fresh(vm, w.frame) && EmptyTable(vm, w))
  }

  /** Storing a word in user slot i of directory e touches no other word. */
  lemma SlotWords(vm: Tables, e: nat, i: nat, w: Word)
    requires Located(vm) && Forest(vm)
    requires e in vm.dirs && i < PDX_UTOP
    requires SlotWord(vm, w)
    ensures var vm' := Put(vm, vm.dirs[e], i, w);
      && Get(vm', vm.dirs[e], i) == w
      && (forall f: nat, k: nat :: (f, k) != (vm.dirs[e], i) ==> Get(vm', f, k) == Get(vm, f, k))
      && (forall e', i': nat :: e' in vm.dirs && (e', i') != (e, i) ==>
            Get(vm', vm.dirs[e'], i') == Get(vm, vm.dirs[e'], i'))
      && (forall i': nat :: Get(vm', vm.kdir, i') == Get(vm, vm.kdir, i'))
      && (forall e', i': nat, j: nat :: e' in vm.dirs && i' < PDX_UTOP && (e', i') != (e, i)
                                                    && Walk(vm, vm.dirs[e'], i').Some? ==>
            Get(vm', Walk(vm, vm.dirs[e'], i').value, j) == Get(vm, Walk(vm, vm.dirs[e'], i').value, j))
      && (forall j: nat :: w.flags.p ==> Get(vm', w.frame, j) == Get(vm, w.frame, j))
  {
    var d := vm.dirs[e];
    assert Target(vm, Root(e)) == Some(d);
    forall e' | e' in vm.dirs && e' != e ensures vm.dirs[e'] != d {
      assert Target(vm, Root(e')) == Some(vm.dirs[e']);
    }
    forall e', i': nat | e' in vm.dirs && i' < PDX_UTOP ensures Walk(vm, vm.dirs[e'], i') != Some(d) {
      assert Target(vm, Pde(e', i')) == Walk(vm, vm.dirs[e'], i');
    }
  }

  lemma SlotSites(vm: Tables, e: nat, i: nat, w: Word)
    requires Located(vm) && Forest(vm)
    requires e in vm.dirs && i < PDX_UTOP
    requires SlotWord(vm, w) && EmptyTable(vm, Get(vm, vm.dirs[e], i))
    ensures var vm' := Put(vm, vm.dirs[e], i, w);
      && (forall x :: ValidSite(x) && x != Pde(e, i) ==> Target(vm', x) == Target(vm, x))
      && Target(vm, Pde(e, i)) == Entry(Get(vm, vm.dirs[e], i))
      && Target(vm', Pde(e, i)) == Entry(w)
  {
    var vm' := Put(vm, vm.dirs[e], i, w);
    SlotWords(vm, e, i, w);
    forall j: nat | j < NPTENTRIES ensures Target(vm', Pte(e, i, j)) == Target(vm, Pte(e, i, j)) == None {
    }
  }

  lemma SlotShape(vm: Tables, e: nat, i: nat, w: Word)
    requires Shape(vm)
    requires e in vm.dirs && i < PDX_UTOP
    requires SlotWord(vm, w) && EmptyTable(vm, Get(vm, vm.dirs[e], i))
    ensures Shape(Put(vm, vm.dirs[e], i, w))
  {
    var vm' := Put(vm, vm.dirs[e], i, w);
    SlotWords(vm, e, i, w);
    SlotSites(vm, e, i, w);
    assert UserEntries(vm') by {
      hide Forest;
      hide Located;
      forall e', i': nat, j: nat | e' in vm.dirs && i' < PDX_UTOP && j < NPTENTRIES && Walk(vm', vm.dirs[e'], i').Some?
        ensures var f := Walk(vm', vm.dirs[e'], i').value; Get(vm', f, j) == ZERO || Get(vm', f, j).flags.p
      {
        if (e', i') != (e, i) {
          assert Walk(vm', vm.dirs[e'], i') == Walk(vm, vm.dirs[e'], i');
        }
      }
    }
  }

  /** Setting or clearing a user slot moves one reference in and one out. */
  lemma StoreSlotKeeps(s: State, pend: multiset<nat>, e: nat, i: nat, w: Word)
    requires InvWith(s, pend)
    requires e in s.vm.dirs && i < PDX_UTOP
    requires SlotWord(s.vm, w) && EmptyTable(s.vm, Get(s.vm, s.vm.dirs[e], i))
    requires w.flags.p ==> w.frame as nat in pend
    ensures InvWith(s.(vm := Put(s.vm, s.vm.dirs[e], i, w)), Take(Spend(pend, w), Get(s.vm, s.vm.dirs[e], i)))
  {
    var vm' := Put(s.vm, s.vm.dirs[e], i, w);
    SlotShape(s.vm, e, i, w);
    SlotSites(s.vm, e, i, w);
    CountChange(s.vm, vm', Pde(e, i));
    hide Shape;
    hide Count;
    Rebook(s, pend, vm', Take(Spend(pend, w), Get(s.vm, s.vm.dirs[e], i)));
  }

  // ---- directory roots ----------------------------------------------------------------------

  lemma AddDirWords(vm: Tables, e: nat, d: FrameNo)
    requires Located(vm) && Forest(vm) && Fresh(vm, d)
    requires e < NENV && e !in vm.dirs
    ensures var vm' := AddDir(vm, e, d);
      && vm'.dirs == vm.dirs[e := d] && vm'.kdir == vm.kdir && |vm'.mem| == |vm.mem|
      && (forall i: nat :: i != PDX_UVPT ==> Get(vm', d, i) == Get(vm, vm.kdir, i))
      && Get(vm', d, PDX_UVPT) == Word(d, PTE_PU)
      && (forall f: nat, k: nat :: f != d ==> Get(vm', f, k) == Get(vm, f, k))
      && (forall e' :: e' in vm.dirs ==> vm.dirs[e'] != d)
      && (forall e', i': nat :: e' in vm.dirs && i' < PDX_UTOP ==> Walk(vm, vm.dirs[e'], i') != Some(d as nat))
  {
    forall e' | e' in vm.dirs ensures vm.dirs[e'] != d {
      assert Target(vm, Root(e')) == Some(vm.dirs[e']);
    }
    forall e', i': nat | e' in vm.dirs && i' < PDX_UTOP ensures Walk(vm, vm.dirs[e'], i') != Some(d as nat) {
      assert Target(vm, Pde(e', i')) == Walk(vm, vm.dirs[e'], i');
    }
  }

  lemma AddDirSites(vm: Tables, e: nat, d: FrameNo)
    requires Shape(vm) && Fresh(vm, d)
    requires e < NENV && e !in vm.dirs
    ensures var vm' := AddDir(vm, e, d);
      && (forall x :: ValidSite(x) && x != Root(e) ==> Target(vm', x) == Target(vm, x))
      && Target(vm, Root(e)) == None
      && Target(vm', Root(e)) == Some(d as nat)
  {
    AddDirWords(vm, e, d);
    var vm' := AddDir(vm, e, d);
    forall i: nat | i < PDX_UTOP ensures Walk(vm', d, i) == None {
      assert Get(vm', d, i) == Get(vm, vm.kdir, i);
    }
    hide AddDir;
    hide Forest;
    hide UserEntries;
    forall x | ValidSite(x) && x != Root(e) ensures Target(vm', x) == Target(vm, x) {
      if (x.Pde? || x.Pte?) && x.e in vm.dirs {
        assert Walk(vm', vm.dirs[x.e], x.i) == Walk(vm, vm.dirs[x.e], x.i);
      }
    }
  }

  lemma AddDirShape(vm: Tables, e: nat, d: FrameNo)
    requires Shape(vm) && Fresh(vm, d)
    requires e < NENV && e !in vm.dirs
    ensures Shape(AddDir(vm, e, d))
  {
    AddDirWords(vm, e, d);
    AddDirSites(vm, e, d);
    var vm' := AddDir(vm, e, d);
    hide AddDir;
    assert Located(vm') && Forest(vm');
    assert forall e', i': nat :: e' in vm.dirs ==> Walk(vm', vm.dirs[e'], i') == Walk(vm, vm.dirs[e'], i');
    assert forall i: nat :: i < PDX_UTOP ==> Get(vm', d, i) == Get(vm, vm.kdir, i) == ZERO;
  }

  lemma AddDirKeeps(s: State, pend: multiset<nat>, e: nat, d: FrameNo)
    requires InvWith(s, pend) && Fresh(s.vm, d)
    requires e < NENV && e !in s.vm.dirs && d as nat in pend
    ensures InvWith(s.(vm := AddDir(s.vm, e, d)), pend - multiset{d as nat})
  {
    var vm' := AddDir(s.vm, e, d);
    AddDirShape(s.vm, e, d);
    AddDirSites(s.vm, e, d);
    CountChange(s.vm, vm', Root(e));
    hide Shape;
    hide Count;
    Rebook(s, pend, vm', pend - multiset{d as nat});
  }

  lemma DropDirShape(vm: Tables, e: nat)
    requires Shape(vm)
    requires e in vm.dirs && forall i: nat :: i < PDX_UTOP ==> Get(vm, vm.dirs[e], i) == ZERO
    ensures var vm' := vm.(dirs := vm.dirs - {e});
      && Shape(vm')
      && (forall x :: ValidSite(x) && x != Root(e) ==> Target(vm', x) == Target(vm, x))
      && Target(vm, Root(e)) == Some(vm.dirs[e])
      && Target(vm', Root(e)) == None
  {
    var vm' := vm.(dirs := vm.dirs - {e});
    assert forall f: nat, k: nat :: Get(vm', f, k) == Get(vm, f, k);
    forall i: nat, j: nat | i < PDX_UTOP && j < NPTENTRIES
      ensures Target(vm, Pde(e, i)) == None && Target(vm, Pte(e, i, j)) == None
    {
      assert Get(vm, vm.dirs[e], i) == ZERO;
    }
    assert forall x :: ValidSite(x) && x != Root(e) ==> Target(vm', x) == Target(vm, x);
    assert forall e', i': nat :: e' in vm'.dirs ==> Walk(vm', vm'.dirs[e'], i') == Walk(vm, vm.dirs[e'], i');
  }

  lemma DropDirKeeps(s: State, pend: multiset<nat>, e: nat)
    requires InvWith(s, pend)
    requires e in s.vm.dirs && forall i: nat :: i < PDX_UTOP ==> Get(s.vm, s.vm.dirs[e], i) == ZERO
    ensures InvWith(s.(vm := s.vm.(dirs := s.vm.dirs - {e})), pend + multiset{s.vm.dirs[e]})
  {
    var vm' := s.vm.(dirs := s.vm.dirs - {e});
    DropDirShape(s.vm, e);
    CountChange(s.vm, vm', Root(e));
    hide Shape;
    hide Count;
    Rebook(s, pend, vm', pend + multiset{s.vm.dirs[e]});
  }

  // ---- the kernel's tables ------------------------------------------------------------------

  /** Before any environment exists, a kernel slot may be given a fresh table. */
  lemma KernSlotShape(vm: Tables, i: nat, t: FrameNo)
    requires Shape(vm) && Fresh(vm, t) && vm.dirs == map[]
    requires KernSlot(i) && Get(vm, vm.kdir, i) == ZERO
    ensures var vm' := Put(vm, vm.kdir, i, Word(t, PTE_PWU));
      && Shape(vm')
      && (forall x :: ValidSite(x) && x != KernPde(i) ==> Target(vm', x) == Target(vm, x))
      && Target(vm, KernPde(i)) == None
      && Target(vm', KernPde(i)) == Some(t as nat)
  {
    var vm' := Put(vm, vm.kdir, i, Word(t, PTE_PWU));
    assert forall f: nat, k: nat :: (f, k) != (vm.kdir, i) ==> Get(vm', f, k) == Get(vm, f, k);
    assert forall x :: ValidSite(x) && x != KernPde(i) ==> Target(vm', x) == Target(vm, x);
  }

  lemma KernSlotKeeps(s: State, pend: multiset<nat>, i: nat, t: FrameNo)
    requires InvWith(s, pend) && Fresh(s.vm, t) && s.vm.dirs == map[]
    requires KernSlot(i) && Get(s.vm, s.vm.kdir, i) == ZERO && t as nat in pend
    ensures InvWith(s.(vm := Put(s.vm, s.vm.kdir, i, Word(t, PTE_PWU))), pend - multiset{t as nat})
  {
    var vm' := Put(s.vm, s.vm.kdir, i, Word(t, PTE_PWU));
    KernSlotShape(s.vm, i, t);
    CountChange(s.vm, vm', KernPde(i));
    hide Shape;
    hide Count;
    Rebook(s, pend, vm', pend - multiset{t as nat});
  }

  /** The entries of a kernel table are not counted. */
  lemma KernEntryKeeps(s: State, pend: multiset<nat>, i: nat, page: Page)
    requires InvWith(s, pend)
    requires KernSlot(i) && Walk(s.vm, s.vm.kdir, i).Some?
    ensures InvWith(s.(vm := SetPage(s.vm, Walk(s.vm, s.vm.kdir, i).value, page)), pend)
  {
    assert Target(s.vm, KernPde(i)) == Walk(s.vm, s.vm.kdir, i);
    DataWriteKeeps(s, pend, Walk(s.vm, s.vm.kdir, i).value, page);
  }
}
