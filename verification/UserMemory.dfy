/**
  The memory of an environment that is being set up: bytes as they are seen through its directory, and
  pages that it alone refers to, which can be written without any effect on anybody's page tables.
 */
module UserMemory {
  import opened Mmu
  import opened Vm
  import opened VmInvariant
  import opened VmSteps
  import opened PageTables
  import opened AddressSpace
  import opened Bytes

  // ---- bytes seen through a directory -------------------------------------------------------

  function PageOf(n: nat): VPage {
    VPage(n / NPTENTRIES, n % NPTENTRIES)
  }

  function LeafOf(vm: Tables, d: nat, v: VPage): Word {
    Leaf(vm, d, v.i, v.j)
  }

  function PageByte(vm: Tables, f: nat, k: nat): Byte {
    LoadByte(Get(vm, f, k / 4), k % 4)
  }

  function ByteAt(vm: Tables, d: nat, va: Addr): Option<Byte> {
    var w := LeafOf(vm, d, PageOf(Pgnum(va)));
    if w.flags.p then Some(PageByte(vm, w.frame, Pgoff(va))) else None
  }

  /** A kernel store with CR0_WP set: None for a page fault. */
  function PutByte(vm: Tables, d: nat, va: Addr, b: Byte): Option<Tables> {
    var w := LeafOf(vm, d, PageOf(Pgnum(va)));
    var k := Pgoff(va);
    if w.flags.p && w.flags.w && Get(vm, d, Pdx(va)).flags.w then
      Some(Put(vm, w.frame, k / 4, StoreByte(Get(vm, w.frame, k / 4), k % 4, b)))
    else None
  }

  /** A store goes through exactly where both the slot and the entry are present and writable, and stores that byte. */
  lemma StoresWhereWritable(vm: Tables, d: nat, va: Addr, b: Byte)
    ensures var pde, pte := Get(vm, d, Pdx(va)), Leaf(vm, d, Pdx(va), Ptx(va)); var r := PutByte(vm, d, va, b);
      && (r.Some? <==> pde.flags.p && pde.flags.w && pte.flags.p && pte.flags.w)
      && (r.Some? && pte.frame < |vm.mem| ==> PageByte(r.value, pte.frame, va % PGSIZE) == b)
  {
    hide StoreByte;
    hide LoadByte;
    var w := LeafOf(vm, d, PageOf(Pgnum(va)));
    LoadStored(Get(vm, w.frame, Pgoff(va) / 4), Pgoff(va) % 4, b, Pgoff(va) % 4);
  }

  /** memcpy, and memset with equal bytes: store data from va on. */
  function WriteBytes(vm: Tables, d: nat, va: nat, data: seq<Byte>): Option<Tables>
    requires va + |data| <= 0x1_0000_0000
    decreases |data|
  {
    if data == [] then Some(vm)
    else
      match PutByte(vm, d, va, data[0])
      case None => None
      case Some(vm1) => WriteBytes(vm1, d, va + 1, data[1..])
  }

  // ---- pages that only this environment's one entry refers to -------------------------------

  ghost predicate Owned(s: State, e: nat, v: VPage)
    requires e in s.vm.dirs
  {
    var w := LeafOf(s.vm, s.vm.dirs[e], v);
    && v.i < PDX_UTOP && v.j < NPTENTRIES
    && w.flags == PTE_PWU && w.frame < |s.refs| == |s.base| && s.refs[w.frame] == 1 && s.base[w.frame] == 0
  }

  /** Its frame is no directory, no table, and nobody else's page. */
  lemma OwnedAlone(s: State, e: nat, v: VPage)
    requires Inv(s) && e in s.vm.dirs && Owned(s, e, v)
    ensures var f := LeafOf(s.vm, s.vm.dirs[e], v).frame as nat;
      && f < |s.vm.mem| && f != s.vm.kdir && f !in s.free
      && (forall x :: ValidSite(x) && Target(s.vm, x) == Some(f) ==> x == Pte(e, v.i, v.j))
  {
    var f := LeafOf(s.vm, s.vm.dirs[e], v).frame as nat;
    var y := Pte(e, v.i, v.j);
    assert Target(s.vm, y) == Some(f);
    var sites := RefsAmong(Universe(), s.vm, f);
    assert y in sites && |sites| == 1;
    assert |sites - {y}| == 0 && sites - {y} == {};
    assert sites == {y};
    forall x | ValidSite(x) && Target(s.vm, x) == Some(f) ensures x == y {
      assert x in sites;
    }
  }

  ghost predicate AllViews(vm: Tables, vm': Tables) {
    SameRoots(vm, vm') && forall r :: IsRoot(vm, r) ==> SameView(vm, vm', r)
  }

  /** Writing to an owned page keeps the invariant and every address space's entries. */
  lemma OwnedWrite(s: State, e: nat, v: VPage, page: Page)
    requires Inv(s) && e in s.vm.dirs && Owned(s, e, v)
    ensures var f := LeafOf(s.vm, s.vm.dirs[e], v).frame as nat; var vm' := SetPage(s.vm, f, page);
      Inv(s.(vm := vm')) && AllViews(s.vm, vm')
  {
    var f := LeafOf(s.vm, s.vm.dirs[e], v).frame as nat;
    OwnedAlone(s, e, v);
    assert Shape(s.vm);
    hide InvWith;
    hide Owned;
    hide SameView;
    DataWriteKeeps(s, multiset{}, f, page);
    forall r | IsRoot(s.vm, r) ensures SameView(s.vm, SetPage(s.vm, f, page), r) {
      PlainView(s.vm, f, page, r);
    }
  }

  // ---- the state while a program is being loaded --------------------------------------------

  /** From s0, environment e's address space has gained exactly the given pages, all its own. */
  ghost predicate Progress(s0: State, s: State, e: nat, pages: set<VPage>)
    requires e in s0.vm.dirs
  {
    && Inv(s) && SameRoots(s0.vm, s.vm) && OthersSame(s0.vm, s.vm, s0.vm.dirs[e])
    && (forall v :: v in UserPages() ==> (LeafOf(s.vm, s.vm.dirs[e], v).flags.p <==> v in pages))
    && (forall v :: v in pages ==> Owned(s, e, v))
  }

  /** A change that no address space sees keeps the progress made. */
  lemma ViewsKeepProgress(s0: State, s: State, s': State, e: nat, pages: set<VPage>)
    requires e in s0.vm.dirs && Progress(s0, s, e, pages)
    requires AllViews(s.vm, s'.vm) && Inv(s') && s'.refs == s.refs && s'.base == s.base
    ensures Progress(s0, s', e, pages)
    ensures forall v: VPage :: LeafOf(s'.vm, s.vm.dirs[e], v) == LeafOf(s.vm, s.vm.dirs[e], v)
  {
    hide Inv;
    var d := s0.vm.dirs[e];
    assert SameView(s.vm, s'.vm, d) by { assert IsRoot(s.vm, d); }
    forall v: VPage ensures LeafOf(s'.vm, d, v) == LeafOf(s.vm, d, v) {
    }
    OthersCompose(s0.vm, s.vm, s'.vm, d);
  }

  /** A present user entry lies under a writable slot. */
  lemma SlotWritable(s: State, e: nat, v: VPage)
    requires Inv(s) && e in s.vm.dirs && v.i < PDX_UTOP && LeafOf(s.vm, s.vm.dirs[e], v).flags.p
    ensures Get(s.vm, s.vm.dirs[e], v.i).flags.w
  {
  }

  /** The frame behind an owned page, with byte k stored. */
  function WithByte(vm: Tables, f: nat, k: nat, b: Byte): Page
    requires f < |vm.mem| && k < PGSIZE
  {
    vm.mem[f][k / 4 := StoreByte(Get(vm, f, k / 4), k % 4, b)]
  }

  lemma StoreByteProgress(s0: State, s: State, e: nat, pages: set<VPage>, va: Addr, b: Byte)
    requires e in s0.vm.dirs && Progress(s0, s, e, pages) && va < UTOP
    ensures var d := s0.vm.dirs[e]; var v := PageOf(Pgnum(va)); var r := PutByte(s.vm, d, va, b);
      && (r.Some? <==> v in pages)
      && (r.Some? ==>
            && LeafOf(s.vm, d, v).frame < |s.vm.mem|
            && r.value == SetPage(s.vm, LeafOf(s.vm, d, v).frame,
                                  WithByte(s.vm, LeafOf(s.vm, d, v).frame, Pgoff(va), b))
            && Progress(s0, s.(vm := r.value), e, pages) && AllViews(s.vm, r.value))
  {
    var d := s0.vm.dirs[e];
    var v := PageOf(Pgnum(va));
    var w := LeafOf(s.vm, d, v);
    assert v in UserPages() && v.i == Pdx(va);
    if v in pages {
      assert Owned(s, e, v);
      SlotWritable(s, e, v);
      OwnedAlone(s, e, v);
      hide InvWith;
      hide StoreByte;
      hide SameView;
      hide OthersSame;
      hide LeafOf;
      var vm' := SetPage(s.vm, w.frame, WithByte(s.vm, w.frame, Pgoff(va), b));
      OwnedWrite(s, e, v, WithByte(s.vm, w.frame, Pgoff(va), b));
      assert PutByte(s.vm, d, va, b) == Some(vm');
      ViewsKeepProgress(s0, s, s.(vm := vm'), e, pages);
    }
  }

  lemma OwnedApart(s: State, e: nat, v: VPage, v': VPage)
    requires Inv(s) && e in s.vm.dirs && Owned(s, e, v) && Owned(s, e, v') && v != v'
    ensures LeafOf(s.vm, s.vm.dirs[e], v).frame != LeafOf(s.vm, s.vm.dirs[e], v').frame
  {
    OwnedAlone(s, e, v);
    hide InvWith;
    assert Target(s.vm, Pte(e, v'.i, v'.j)) == Some(LeafOf(s.vm, s.vm.dirs[e], v').frame as nat);
  }

  lemma ByteInPage(vm: Tables, f: nat, k: nat, b: Byte, f': nat, k': nat)
    requires f < |vm.mem| && f' < |vm.mem| && k < PGSIZE && k' < PGSIZE
    ensures PageByte(SetPage(vm, f, WithByte(vm, f, k, b)), f', k') ==
      if f' == f && k' == k then b else PageByte(vm, f', k')
  {
    if f' == f && k' / 4 == k / 4 {
      LoadStored(Get(vm, f, k / 4), k % 4, b, k' % 4);
      assert k' % 4 == k % 4 <==> k' == k;
    }
    hide LoadByte;
    hide StoreByte;
  }

  predicate SamePlace(a: Addr, va: Addr) {
    PageOf(Pgnum(a)) == PageOf(Pgnum(va)) && Pgoff(a) == Pgoff(va)
  }

  lemma PlaceOf(a: Addr, va: Addr)
    ensures SamePlace(a, va) <==> a == va
  {
    var m, n := Pgnum(a), Pgnum(va);
    assert m == m / NPTENTRIES * NPTENTRIES + m % NPTENTRIES;
    assert n == n / NPTENTRIES * NPTENTRIES + n % NPTENTRIES;
    assert a == m * PGSIZE + Pgoff(a);
    assert va == n * PGSIZE + Pgoff(va);
  }

  /** A stored byte is read back, and no other byte of the loaded pages changes. */
  lemma ByteAfterStore(s0: State, s: State, e: nat, pages: set<VPage>, va: Addr, b: Byte, a: Addr)
    requires e in s0.vm.dirs && Progress(s0, s, e, pages)
    requires va < UTOP && PageOf(Pgnum(va)) in pages && PageOf(Pgnum(a)) in pages
    ensures var d := s0.vm.dirs[e]; var r := PutByte(s.vm, d, va, b);
      r.Some? && ByteAt(s.vm, d, a).Some? && ByteAt(r.value, d, a) == if a == va then Some(b) else ByteAt(s.vm, d, a)
  {
    var d := s0.vm.dirs[e];
    var v, v' := PageOf(Pgnum(va)), PageOf(Pgnum(a));
    var f, f' := LeafOf(s.vm, d, v).frame, LeafOf(s.vm, d, v').frame;
    assert Owned(s, e, v) && Owned(s, e, v');
    StoreByteProgress(s0, s, e, pages, va, b);
    OwnedAlone(s, e, v');
    if v != v' {
      OwnedApart(s, e, v, v');
    }
    var vm' := PutByte(s.vm, d, va, b).value;
    ViewsKeepProgress(s0, s, s.(vm := vm'), e, pages);
    assert LeafOf(vm', d, v') == LeafOf(s.vm, d, v');
    PlaceOf(a, va);
    ByteInPage(s.vm, f, Pgoff(va), b, f', Pgoff(a));
  }

  /** The len bytes from va on lie in the given pages. */
  ghost predicate AllIn(va: nat, len: nat, pages: set<VPage>) {
    forall a: Addr :: va <= a < va + len ==> PageOf(Pgnum(a)) in pages
  }

  lemma AllInStep(va: Addr, len: nat, pages: set<VPage>)
    requires len > 0
    ensures AllIn(va, len, pages) <==> PageOf(Pgnum(va)) in pages && AllIn(va + 1, len - 1, pages)
  {
    hide PageOf;
  }

  /** The bytes of the loaded pages after data has been stored from va on. */
  ghost predicate Stored(vm: Tables, vm': Tables, d: nat, pages: set<VPage>, va: nat, data: seq<Byte>) {
    forall a: Addr :: PageOf(Pgnum(a)) in pages ==>
      ByteAt(vm', d, a) == if va <= a < va + |data| then Some(data[a - va]) else ByteAt(vm, d, a)
  }

  lemma StoredStep(vm0: Tables, vm1: Tables, vm2: Tables, d: nat, pages: set<VPage>, va: nat, data: seq<Byte>)
    requires data != []
    requires Stored(vm0, vm1, d, pages, va, data[..1]) && Stored(vm1, vm2, d, pages, va + 1, data[1..])
    ensures Stored(vm0, vm2, d, pages, va, data)
  {
    hide ByteAt;
    hide PageOf;
  }

  lemma ViewSlots(s0: State, s: State, vm': Tables, e: nat, pages: set<VPage>)
    requires e in s0.vm.dirs && Progress(s0, s, e, pages) && AllViews(s.vm, vm')
    ensures SameSlots(s.vm, vm', s0.vm.dirs[e])
  {
    hide Inv;
    assert IsRoot(s.vm, s0.vm.dirs[e]);
  }

  lemma FirstByte(s0: State, s: State, e: nat, pages: set<VPage>, va: Addr, data: seq<Byte>)
    requires e in s0.vm.dirs && Progress(s0, s, e, pages) && data != [] && va < UTOP
    ensures var d := s0.vm.dirs[e]; var r := PutByte(s.vm, d, va, data[0]);
      && (r.Some? <==> PageOf(Pgnum(va)) in pages)
      && (r.Some? ==> Progress(s0, s.(vm := r.value), e, pages) && Stored(s.vm, r.value, d, pages, va, data[..1])
                      && SameSlots(s.vm, r.value, d))
  {
    hide Progress;
    hide PutByte;
    hide ByteAt;
    hide PageOf;
    var d := s0.vm.dirs[e];
    StoreByteProgress(s0, s, e, pages, va, data[0]);
    var r := PutByte(s.vm, d, va, data[0]);
    if r.Some? {
      ViewSlots(s0, s, r.value, e, pages);
      forall a: Addr | PageOf(Pgnum(a)) in pages
        ensures ByteAt(r.value, d, a) == if va <= a < va + 1 then Some(data[..1][a - va]) else ByteAt(s.vm, d, a)
      {
        ByteAfterStore(s0, s, e, pages, va, data[0], a);
      }
    }
  }

  /** memset and memcpy succeed exactly when all their pages are loaded, and then store just their bytes. */
  lemma {:induction false} WriteExact(s0: State, s: State, e: nat, pages: set<VPage>, va: nat, data: seq<Byte>)
    requires e in s0.vm.dirs && Progress(s0, s, e, pages) && va + |data| <= UTOP
    ensures var r := WriteBytes(s.vm, s0.vm.dirs[e], va, data);
      && (r.Some? <==> AllIn(va, |data|, pages))
      && (r.Some? ==> Progress(s0, s.(vm := r.value), e, pages) && Stored(s.vm, r.value, s0.vm.dirs[e], pages, va, data)
                      && SameSlots(s.vm, r.value, s0.vm.dirs[e]))
    decreases |data|
  {
    hide Progress;
    hide PutByte;
    hide ByteAt;
    hide PageOf;
    if data != [] {
      var d := s0.vm.dirs[e];
      FirstByte(s0, s, e, pages, va, data);
      AllInStep(va, |data|, pages);
      hide AllIn;
      hide Stored;
      var r := PutByte(s.vm, d, va, data[0]);
      if r.Some? {
        WriteExact(s0, s.(vm := r.value), e, pages, va + 1, data[1..]);
        var r2 := WriteBytes(r.value, d, va + 1, data[1..]);
        if r2.Some? {
          StoredStep(s.vm, r.value, r2.value, d, pages, va, data);
        }
      }
    }
  }
}
