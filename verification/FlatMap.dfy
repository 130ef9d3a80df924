/**
  The two-level tables refine a flat partial map from virtual page to page and permissions.
 */
module FlatMap {
  import opened Mmu
  import opened Vm
  import opened VmInvariant
  import opened VmSteps
  import opened PageTables

  /** Every environment but e keeps its flat map. */
  ghost predicate OtherMappingsSame(vm: Tables, vm': Tables, e: nat) {
    vm'.dirs == vm.dirs && forall e' :: e' in vm.dirs && e' != e ==> Mapping(vm', e') == Mapping(vm, e')
  }

  lemma OwnMapping(vm: Tables, vm': Tables, e: nat, i: nat, j: nat, w: Word)
    requires e in vm.dirs && i < PDX_UTOP && j < NPTENTRIES
    requires vm'.dirs == vm.dirs && OneEntry(vm, vm', vm.dirs[e], i, j, w)
    ensures Mapping(vm', e) == if w.flags.p then Mapping(vm, e)[VPage(i, j) := w] else Mapping(vm, e) - {VPage(i, j)}
  {
    var d := vm.dirs[e];
    forall v | v in UserPages()
      ensures Leaf(vm', d, v.i, v.j) == if v == VPage(i, j) then w else Leaf(vm, d, v.i, v.j)
    {
    }
    hide OneEntry;
    hide Leaf;
  }

  lemma EditMapping(vm: Tables, vm': Tables, e: nat, i: nat, j: nat, w: Word)
    requires Located(vm) && Forest(vm)
    requires e in vm.dirs && i < PDX_UTOP && j < NPTENTRIES
    requires Edit(vm, vm', vm.dirs[e], i, j, w)
    ensures OtherMappingsSame(vm, vm', e)
    ensures Mapping(vm', e) == if w.flags.p then Mapping(vm, e)[VPage(i, j) := w] else Mapping(vm, e) - {VPage(i, j)}
  {
    OwnMapping(vm, vm', e, i, j, w);
    hide OneEntry;
    hide Mapping;
    forall e' | e' in vm.dirs && e' != e ensures Mapping(vm', e') == Mapping(vm, e') {
      OtherMapping(vm, vm', vm.dirs[e], e', e);
    }
  }

  lemma ShapeOf(s: State)
    requires Inv(s)
    ensures Located(s.vm) && Forest(s.vm)
  {
  }

  lemma OwnMappingSame(vm: Tables, vm': Tables, e: nat)
    requires e in vm.dirs && vm'.dirs == vm.dirs && SameEntries(vm, vm', vm.dirs[e])
    ensures Mapping(vm', e) == Mapping(vm, e)
  {
  }

  /** pgdir_walk(create): the tables may grow, the map does not. */
  lemma WalkLeavesMap(s: State, e: nat, i: nat)
    requires Inv(s)
    requires e in s.vm.dirs && i < PDX_UTOP
    ensures var s' := WalkCreate(s, s.vm.dirs[e], i).0;
      Inv(s') && s'.vm.dirs == s.vm.dirs && forall e' :: e' in s.vm.dirs ==> Mapping(s'.vm, e') == Mapping(s.vm, e')
  {
    hide WalkCreate;
    hide InvWith;
    hide Mapping;
    WalkCreateKeeps(s, multiset{}, e, i);
    var s' := WalkCreate(s, s.vm.dirs[e], i).0;
    assert Located(s.vm) && Forest(s.vm) by { ShapeOf(s); }
    forall e' | e' in s.vm.dirs ensures Mapping(s'.vm, e') == Mapping(s.vm, e') {
      if e' != e {
        OtherMapping(s.vm, s'.vm, s.vm.dirs[e], e', e);
      } else {
        OwnMappingSame(s.vm, s'.vm, e);
      }
    }
  }

  /** page_lookup reads the map. */
  lemma LookupReadsMap(vm: Tables, e: nat, i: nat, j: nat)
    requires e in vm.dirs && i < PDX_UTOP && j < NPTENTRIES
    ensures match PageLookup(vm, vm.dirs[e], i, j)
      case None => VPage(i, j) !in Mapping(vm, e)
      case Some((t, q)) =>
        && VPage(i, j) in Mapping(vm, e) && Mapping(vm, e)[VPage(i, j)].frame as nat == q
        && Mapping(vm, e)[VPage(i, j)] == Get(vm, t, j)
  {
    assert VPage(i, j) in UserPages();
  }

  /** page_insert updates one key, or fails for want of a table page and changes nothing. */
  lemma InsertUpdatesMap(s: State, e: nat, p: FrameNo, i: nat, j: nat, perm: Flags)
    requires Inv(s)
    requires e in s.vm.dirs && i < PDX_UTOP && j < NPTENTRIES
    requires p < |s.refs| && p as nat !in s.free && s.refs[p] < MAXREF
    ensures var (s', ok) := PageInsert(s, s.vm.dirs[e], p, i, j, perm);
      && Inv(s')
      && OtherMappingsSame(s.vm, s'.vm, e)
      && (ok ==> Mapping(s'.vm, e) == Mapping(s.vm, e)[VPage(i, j) := Word(p, Present(perm))])
      && (!ok ==> s' == s && s.free == [] && Walk(s.vm, s.vm.dirs[e], i).None?)
  {
    PageInsertKeeps(s, multiset{}, e, p, i, j, perm);
    var (s', ok) := PageInsert(s, s.vm.dirs[e], p, i, j, perm);
    hide PageInsert;
    if ok {
      EditMapping(s.vm, s'.vm, e, i, j, Word(p, Present(perm)));
    }
  }

  /** page_remove's effect on the books, when it removes something. */
  lemma RemoveBooks(s: State, e: nat, i: nat, j: nat)
    requires Inv(s)
    requires e in s.vm.dirs && i < PDX_UTOP && j < NPTENTRIES
    requires Leaf(s.vm, s.vm.dirs[e], i, j).flags.p
    ensures var q := Leaf(s.vm, s.vm.dirs[e], i, j).frame; var s' := PageRemove(s, s.vm.dirs[e], i, j);
      && q < |s.refs| && s.refs[q] > 0 && s'.refs == s.refs[q := s.refs[q] - 1]
      && s'.free == if s.refs[q] == 1 then [q as nat] + s.free else s.free
  {
    Referenced(s, multiset{}, Pte(e, i, j));
  }

  /** page_remove deletes one key; the page is freed exactly when that was its last reference. */
  lemma RemoveDeletesKey(s: State, e: nat, i: nat, j: nat)
    requires Inv(s)
    requires e in s.vm.dirs && i < PDX_UTOP && j < NPTENTRIES
    ensures var s' := PageRemove(s, s.vm.dirs[e], i, j);
      && Inv(s')
      && OtherMappingsSame(s.vm, s'.vm, e)
      && Mapping(s'.vm, e) == Mapping(s.vm, e) - {VPage(i, j)}
      && (VPage(i, j) !in Mapping(s.vm, e) ==> s' == s)
      && (VPage(i, j) in Mapping(s.vm, e) ==>
            var q := Mapping(s.vm, e)[VPage(i, j)].frame;
            && q < |s.refs| && s.refs[q] > 0 && s'.refs == s.refs[q := s.refs[q] - 1]
            && s'.free == if s.refs[q] == 1 then [q as nat] + s.free else s.free)
  {
    PageRemoveKeeps(s, multiset{}, e, i, j);
    var s' := PageRemove(s, s.vm.dirs[e], i, j);
    EditMapping(s.vm, s'.vm, e, i, j, ZERO);
    assert VPage(i, j) in UserPages();
    if VPage(i, j) in Mapping(s.vm, e) {
      RemoveBooks(s, e, i, j);
    }
  }

  /** Re-inserting the page that is already there changes its permissions and nothing else. */
  lemma ReinsertChangesOnlyPermissions(s: State, e: nat, p: FrameNo, i: nat, j: nat, perm: Flags)
    requires Inv(s)
    requires e in s.vm.dirs && i < PDX_UTOP && j < NPTENTRIES
    requires VPage(i, j) in Mapping(s.vm, e) && Mapping(s.vm, e)[VPage(i, j)].frame == p
    requires p < |s.refs| && s.refs[p] < MAXREF
    ensures var t := Walk(s.vm, s.vm.dirs[e], i).value;
      PageInsert(s, s.vm.dirs[e], p, i, j, perm) == (s.(vm := Put(s.vm, t, j, Word(p, Present(perm)))), true)
  {
    Referenced(s, multiset{}, Pte(e, i, j));
    TableAlone(s.vm, e, i);
    ReplaceSame(s, s.vm.dirs[e], Walk(s.vm, s.vm.dirs[e], i).value, p, i, j, perm);
  }

  lemma ReplaceSame(s: State, d: nat, t: nat, p: FrameNo, i: nat, j: nat, perm: Flags)
    requires Walk(s.vm, d, i) == Some(t) && t < |s.vm.mem| && j < NPTENTRIES
    requires Get(s.vm, t, j).flags.p && Get(s.vm, t, j).frame == p
    requires p < |s.refs| && 1 <= s.refs[p] < MAXREF && p as nat !in s.handed
    ensures Install(s, d, t, p, i, j, perm) == s.(vm := Put(s.vm, t, j, Word(p, Present(perm))))
  {
    var s2 := Incref(s, p);
    var s3 := PageRemove(s2, d, i, j);
    assert s3.refs == s.refs;
    assert s3.handed == s.handed;
    var w := Word(p, Present(perm));
    assert s3.vm == Put(s.vm, t, j, ZERO);
    assert s.vm.mem[t][j := ZERO][j := w] == s.vm.mem[t][j := w];
    assert Put(s3.vm, t, j, w).mem == Put(s.vm, t, j, w).mem;
  }

  // ---- the 16-bit counter -------------------------------------------------------------------

  /** Other permissions for the same page change no count. */
  lemma PermissionsKeep(s: State, e: nat, i: nat, j: nat, w: Word)
    requires Inv(s) && e in s.vm.dirs && i < PDX_UTOP && j < NPTENTRIES && Walk(s.vm, s.vm.dirs[e], i).Some?
    requires Leaf(s.vm, s.vm.dirs[e], i, j).flags.p && w.flags.p && Leaf(s.vm, s.vm.dirs[e], i, j).frame == w.frame
    ensures Inv(s.(vm := Put(s.vm, Walk(s.vm, s.vm.dirs[e], i).value, j, w)))
  {
    var t := Walk(s.vm, s.vm.dirs[e], i).value;
    Referenced(s, multiset{}, Pte(e, i, j));
    StoreEntryShape(s.vm, e, i, j, w);
    StoreEntryCounts(s.vm, e, i, j, w);
    hide Shape;
    hide Count;
    Rebook(s, multiset{}, Put(s.vm, t, j, w), multiset{});
  }

  /** With a full counter, the same page again: it wraps to 0 and back. */
  lemma ReplaceWraps(s: State, d: nat, t: nat, p: FrameNo, i: nat, j: nat, perm: Flags)
    requires Walk(s.vm, d, i) == Some(t) && t < |s.vm.mem| && j < NPTENTRIES
    requires Get(s.vm, t, j).flags.p && Get(s.vm, t, j).frame == p
    requires p < |s.refs| && s.refs[p] == MAXREF && p as nat !in s.handed
    ensures Install(s, d, t, p, i, j, perm) == s.(vm := Put(s.vm, t, j, Word(p, Present(perm))))
  {
    var s3 := PageRemove(Incref(s, p), d, i, j);
    assert s3.refs == s.refs && s3.handed == s.handed && s3.vm == Put(s.vm, t, j, ZERO);
    assert s.vm.mem[t][j := ZERO][j := Word(p, Present(perm))] == s.vm.mem[t][j := Word(p, Present(perm))];
    assert Put(s3.vm, t, j, Word(p, Present(perm))).mem == Put(s.vm, t, j, Word(p, Present(perm))).mem;
  }

  lemma WrapWords(s: State, d: nat, t: nat, p: FrameNo, i: nat, j: nat, perm: Flags)
    requires Walk(s.vm, d, i) == Some(t) && t != d && t < |s.vm.mem| && j < NPTENTRIES
    requires p < |s.refs| && s.refs[p] == MAXREF && !(Get(s.vm, t, j).flags.p && Get(s.vm, t, j).frame == p)
    ensures var s' := Install(s, d, t, p, i, j, perm);
      && p < |s'.refs| && s'.refs[p] == 0 && Get(s'.vm, t, j) == Word(p, Present(perm))
      && Walk(s'.vm, d, i) == Some(t) && s'.vm.dirs == s.vm.dirs
  {
  }

  /** With a full counter, a page that the entry does not map: it is mapped with a count of 0. */
  lemma InstallWraps(s: State, e: nat, p: FrameNo, i: nat, j: nat, perm: Flags)
    requires Inv(s) && e in s.vm.dirs && i < PDX_UTOP && j < NPTENTRIES && Walk(s.vm, s.vm.dirs[e], i).Some?
    requires p < |s.refs| && s.refs[p] == MAXREF
    requires !(Leaf(s.vm, s.vm.dirs[e], i, j).flags.p && Leaf(s.vm, s.vm.dirs[e], i, j).frame == p)
    ensures !Inv(Install(s, s.vm.dirs[e], Walk(s.vm, s.vm.dirs[e], i).value, p, i, j, perm))
  {
    hide InvWith;
    hide Install;
    var d := s.vm.dirs[e];
    var t := Walk(s.vm, d, i).value;
    var s' := Install(s, d, t, p, i, j, perm);
    TableInMemory(s, e, i);
    RootFacts(s, multiset{}, e);
    WrapWords(s, d, t, p, i, j, perm);
    assert Target(s'.vm, Pte(e, i, j)) == Some(p as nat);
    if Inv(s') {
      FreshPage(s', multiset{}, p);
      assert false;
    }
  }

  /**
    pp_ref has 16 bits.  A page_insert that succeeds keeps the books exactly when the page had fewer
    than 65535 references, or was already what the entry maps.
   */
  lemma CounterExact(s: State, e: nat, p: FrameNo, i: nat, j: nat, perm: Flags)
    requires Inv(s) && e in s.vm.dirs && i < PDX_UTOP && j < NPTENTRIES
    requires p < |s.refs| && p as nat !in s.free && PageInsert(s, s.vm.dirs[e], p, i, j, perm).1
    ensures Inv(PageInsert(s, s.vm.dirs[e], p, i, j, perm).0) <==>
      s.refs[p] < MAXREF || (VPage(i, j) in Mapping(s.vm, e) && Mapping(s.vm, e)[VPage(i, j)].frame == p)
  {
    assert VPage(i, j) in UserPages();
    if s.refs[p] < MAXREF {
      PageInsertKeeps(s, multiset{}, e, p, i, j, perm);
    } else {
      var d := s.vm.dirs[e];
      RefsBound(s, p);
      WalkCreateKeeps(s, multiset{}, e, i);
      WalkCreateBooks(s, multiset{}, d, i, p);
      var (s1, pte) := WalkCreate(s, d, i);
      assert Leaf(s1.vm, d, i, j) == Leaf(s.vm, d, i, j);
      hide InvWith;
      hide WalkCreate;
      hide Install;
      if Leaf(s.vm, d, i, j).flags.p && Leaf(s.vm, d, i, j).frame == p {
        Referenced(s1, multiset{}, Pte(e, i, j));
        TableInMemory(s1, e, i);
        ReplaceWraps(s1, d, pte.value, p, i, j, perm);
        PermissionsKeep(s1, e, i, j, Word(p, Present(perm)));
      } else {
        InstallWraps(s1, e, p, i, j, perm);
      }
    }
  }

  lemma RefsBound(s: State, p: nat)
    requires Inv(s) && p < |s.refs|
    ensures s.refs[p] <= MAXREF
  {
  }

  lemma TableInMemory(s: State, e: nat, i: nat)
    requires Inv(s) && e in s.vm.dirs && i < PDX_UTOP && Walk(s.vm, s.vm.dirs[e], i).Some?
    ensures Walk(s.vm, s.vm.dirs[e], i).value < |s.vm.mem| && Walk(s.vm, s.vm.dirs[e], i).value != s.vm.dirs[e]
  {
    TableAlone(s.vm, e, i);
  }
}