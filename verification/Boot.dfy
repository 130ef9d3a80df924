/**
  Boot time: page_init builds the free list, and boot_map_region builds the kernel's half of the
  address space in kern_pgdir before any environment exists.
 */
module Boot {
  import opened Mmu
  import opened Vm
  import opened VmInvariant
  import opened VmSteps
  import opened PageTables

  // ---- page_init ----------------------------------------------------------------------------

  const IOPHYSMEM := 0xA0000
  const EXTPHYSMEM := 0x100000

  /** Pages that page_init marks as in use; firstFree is PADDR(boot_alloc(0)). */
  predicate Reserved(i: nat, npagesBasemem: nat, firstFree: nat) {
    i == 0 || (i >= npagesBasemem && (IOPHYSMEM <= PGSIZE * i < EXTPHYSMEM || PGSIZE * i < firstFree))
  }

  /** The free list when pages below n have been looked at. */
  function FreeBelow(n: nat, npagesBasemem: nat, firstFree: nat): (free: seq<nat>)
    ensures forall p: nat :: p in free <==> p < n && !Reserved(p, npagesBasemem, firstFree)
    ensures NoDup(free)
  {
    if n == 0 then []
    else
      var rest := FreeBelow(n - 1, npagesBasemem, firstFree);
      if Reserved(n - 1, npagesBasemem, firstFree) then rest else [n - 1] + rest
  }

  function BootRefs(npages: nat, npagesBasemem: nat, firstFree: nat): (refs: seq<nat>)
    ensures |refs| == npages
    ensures forall i :: 0 <= i < npages ==> refs[i] == if Reserved(i, npagesBasemem, firstFree) then 1 else 0
  {
    seq(npages, i requires 0 <= i < npages => if Reserved(i, npagesBasemem, firstFree) then 1 else 0)
  }

  /** The state page_init leaves: memory as it was, no environment. */
  function PageInit(mem: seq<Page>, kdir: nat, npagesBasemem: nat, firstFree: nat): State {
    var refs := BootRefs(|mem|, npagesBasemem, firstFree);
    State(Tables(mem, kdir, map[]), refs, FreeBelow(|mem|, npagesBasemem, firstFree), {}, refs)
  }

  /** kern_pgdir as mem_init prepares it: cleared, with the self-map in its UVPT slot. */
  predicate BareKernDir(mem: seq<Page>, kdir: nat) {
    && kdir < |mem| <= MAXFRAMES
    && forall i :: 0 <= i < NPDENTRIES ==> mem[kdir][i] == if i == PDX_UVPT then Word(kdir, PTE_PU) else ZERO
  }

  lemma PageInitInv(mem: seq<Page>, kdir: nat, npagesBasemem: nat, firstFree: nat)
    requires BareKernDir(mem, kdir) && Reserved(kdir, npagesBasemem, firstFree)
    ensures Inv(PageInit(mem, kdir, npagesBasemem, firstFree))
  {
    var s := PageInit(mem, kdir, npagesBasemem, firstFree);
    assert forall i: nat :: i < NPDENTRIES ==> Get(s.vm, kdir, i) == mem[kdir][i];
    forall x | ValidSite(x) ensures Target(s.vm, x) == None {
    }
    forall p: nat ensures Count(s.vm, p) == 0 {
      assert RefsAmong(Universe(), s.vm, p) == {};
    }
  }

  /**
    What page_init marks, in numbers: page 0 is in use; base memory is free; of the rest, the I/O hole at 0xA0000
    and everything below firstFree are in use.  With base memory below the hole and firstFree above it, free are
    exactly the rest of base memory and the pages from firstFree on.  The list is in descending order.
   */
  lemma PageInitExact(mem: seq<Page>, kdir: nat, npagesBasemem: nat, firstFree: nat, p: nat)
    requires p < |mem|
    ensures var s := PageInit(mem, kdir, npagesBasemem, firstFree);
      && |s.refs| == |mem| && s.vm == Tables(mem, kdir, map[]) && s.handed == {}
      && (p in s.free <==>
            p > 0 && (p < npagesBasemem || (4096 * p >= firstFree && !(0xA_0000 <= 4096 * p < 0x10_0000))))
      && (npagesBasemem * 4096 <= 0xA_0000 && 0x10_0000 <= firstFree ==>
            (p in s.free <==> 0 < p < npagesBasemem || (p >= npagesBasemem && 4096 * p >= firstFree)))
      && s.refs[p] == (if p in s.free then 0 else 1)
      && Descending(s.free)
  {
    FreeDescends(|mem|, npagesBasemem, firstFree);
  }

  lemma {:induction false} FreeDescends(n: nat, npagesBasemem: nat, firstFree: nat)
    ensures Descending(FreeBelow(n, npagesBasemem, firstFree))
  {
    if n > 0 {
      FreeDescends(n - 1, npagesBasemem, firstFree);
      var rest := FreeBelow(n - 1, npagesBasemem, firstFree);
      hide Reserved;
      forall k | 0 <= k < |rest| ensures rest[k] < n - 1 {
        assert rest[k] in rest;
      }
    }
  }

  ghost predicate Descending(free: seq<nat>) {
    forall i, j :: 0 <= i < j < |free| ==> free[i] > free[j]
  }

  // ---- boot_map_region ----------------------------------------------------------------------

  const VPAGES := 0x10_0000

  function NextFrame(pf: FrameNo): FrameNo { (pf + 1) % MAXFRAMES }
  function NextPage(vp: nat): (next: nat)
    ensures next < VPAGES
  {
    (vp + 1) % VPAGES
  }

  /** One turn of its loop: walk with create, then store the entry. */
  function BootPage(s: State, vp: nat, pf: FrameNo, perm: Flags): Option<State> {
    var (s1, pte) := WalkCreate(s, s.vm.kdir, vp / NPTENTRIES);
    match pte
    case None => None
    case Some(t) => Some(s1.(vm := Put(s1.vm, t, vp % NPTENTRIES, Word(pf, Present(perm)))))
  }

  /**
    boot_map_region(kern_pgdir, vp * PGSIZE, n * PGSIZE, pf * PGSIZE, perm).  None stands for the
    null pointer it stores through when pgdir_walk finds no page for a table.
   */
  function BootMap(s: State, vp: nat, n: nat, pf: FrameNo, perm: Flags): Option<State>
    requires vp < VPAGES
    decreases n
  {
    if n == 0 then Some(s)
    else
      match BootPage(s, vp, pf, perm)
      case None => None
      case Some(s1) => BootMap(s1, NextPage(vp), n - 1, NextFrame(pf), perm)
  }

  /** Pages vp .. vp+n-1 lie at or above UTOP and outside the self-map. */
  predicate KernRange(vp: nat, n: nat) {
    vp + n <= VPAGES && PDX_UTOP * NPTENTRIES <= vp
    && (vp + n <= PDX_UVPT * NPTENTRIES || (PDX_UVPT + 1) * NPTENTRIES <= vp)
  }

  /** The books after some pages were mapped: `used` pages left the free list, no other count moved. */
  ghost predicate TookTables(s: State, s': State, used: nat) {
    && used <= |s.free| && s'.free == s.free[used..] && |s'.refs| == |s.refs| && s'.base == s.base
    && (forall q: nat :: q < |s.refs| && q !in s.free ==> s'.refs[q] == s.refs[q])
  }

  /** After a walk of the kernel's slot i its table is t, and nothing mapped has changed. */
  ghost predicate KernWalked(s: State, s': State, i: nat, t: nat) {
    && Inv(s') && SameRoots(s.vm, s'.vm) && SameEntries(s.vm, s'.vm, s.vm.kdir)
    && Walk(s'.vm, s.vm.kdir, i) == Some(t)
    && (forall k: nat :: k != i ==> Get(s'.vm, s.vm.kdir, k) == Get(s.vm, s.vm.kdir, k))
    && TookTables(s, s', if Walk(s.vm, s.vm.kdir, i).Some? then 0 else 1)
  }

  lemma KernWalkKeeps(s: State, i: nat)
    requires Inv(s) && s.vm.dirs == map[] && KernSlot(i)
    ensures var (s', pte) := WalkCreate(s, s.vm.kdir, i);
      && (pte.None? <==> Walk(s.vm, s.vm.kdir, i).None? && s.free == [])
      && (pte.Some? ==> KernWalked(s, s', i, pte.value))
  {
    hide InvWith;
    hide Put;
    hide SetPage;
    var d := s.vm.kdir;
    KernSlotCases(s, i);
    if Walk(s.vm, d, i).None? && s.free != [] {
      ZeroPageAlloc(s, multiset{});
      var (s1, page) := PageAlloc(s, true);
      KernSlotCases(s1, i);
      assert SameView(s.vm, s1.vm, d) by { assert IsRoot(s.vm, d); }
      LinkKernTable(s1, i, page.value);
    } else if Walk(s.vm, d, i).Some? {
      assert s.free[0..] == s.free;
    }
  }

  lemma KernSlotCases(s: State, i: nat)
    requires Inv(s) && KernSlot(i)
    ensures s.vm.kdir < |s.vm.mem| == |s.refs| <= MAXFRAMES
    ensures Get(s.vm, s.vm.kdir, i) == ZERO || Walk(s.vm, s.vm.kdir, i).Some?
    ensures forall q :: q in s.free ==> q < |s.refs|
  {
  }

  lemma KernLinkFacts(s: State, t: nat)
    requires Inv(s) && Fresh(s.vm, t)
    ensures Shape(s.vm) && t < |s.refs| && t != s.vm.kdir && s.vm.kdir < |s.vm.mem|
  {
  }

  /** A fresh empty page becomes the table behind an empty slot of kern_pgdir. */
  lemma LinkKernTable(s: State, i: nat, t: FrameNo)
    requires Inv(s) && s.vm.dirs == map[] && KernSlot(i) && Get(s.vm, s.vm.kdir, i) == ZERO
    requires Fresh(s.vm, t) && t as nat !in s.free && s.refs[t] == 0 && forall j: nat :: Get(s.vm, t, j) == ZERO
    ensures var vm' := Put(s.vm, s.vm.kdir, i, Word(t, PTE_PWU));
      && Inv(Incref(s, t).(vm := vm')) && SameRoots(s.vm, vm') && SameEntries(s.vm, vm', s.vm.kdir)
      && Walk(vm', s.vm.kdir, i) == Some(t as nat)
      && (forall k: nat :: k != i ==> Get(vm', s.vm.kdir, k) == Get(s.vm, s.vm.kdir, k))
  {
    hide InvWith;
    hide Shape;
    hide Fresh;
    KernLinkFacts(s, t);
    assert multiset{} + multiset{t as nat} == multiset{t as nat};
    assert multiset{t as nat} - multiset{t as nat} == multiset{};
    IncrefKeeps(s, multiset{}, t);
    KernSlotEntries(s.vm, i, t);
    KernSlotKeeps(Incref(s, t), multiset{t as nat}, i, t);
  }

  lemma KernSlotEntries(vm: Tables, i: nat, t: FrameNo)
    requires Shape(vm) && Fresh(vm, t) && KernSlot(i) && Get(vm, vm.kdir, i) == ZERO
    requires forall j: nat :: Get(vm, t, j) == ZERO
    ensures SameEntries(vm, Put(vm, vm.kdir, i, Word(t, PTE_PWU)), vm.kdir)
  {
    var d := vm.kdir;
    var vm' := Put(vm, d, i, Word(t, PTE_PWU));
    assert forall f: nat, k: nat :: (f, k) != (d, i) ==> Get(vm', f, k) == Get(vm, f, k);
    forall i': nat, j: nat | i' < NPDENTRIES && i' != PDX_UVPT ensures Leaf(vm', d, i', j) == Leaf(vm, d, i', j) {
      if KernSlot(i') && Walk(vm, d, i').Some? {
        assert Target(vm, KernPde(i')) == Walk(vm, d, i');
      }
    }
  }

  /** A word stored in a kernel table changes one entry of kern_pgdir's map and no count. */
  lemma KernEntryStore(s: State, i: nat, j: nat, w: Word)
    requires Inv(s) && KernSlot(i) && j < NPTENTRIES && Walk(s.vm, s.vm.kdir, i).Some?
    ensures var vm' := Put(s.vm, Walk(s.vm, s.vm.kdir, i).value, j, w);
      && Inv(s.(vm := vm')) && SameRoots(s.vm, vm')
      && OneEntry(s.vm, vm', s.vm.kdir, i, j, w) && SameSlots(s.vm, vm', s.vm.kdir)
  {
    var d := s.vm.kdir;
    var t := Walk(s.vm, d, i).value;
    assert Target(s.vm, KernPde(i)) == Some(t);
    KernEntryKeeps(s, multiset{}, i, s.vm.mem[t][j := w]);
    assert Put(s.vm, t, j, w) == SetPage(s.vm, t, s.vm.mem[t][j := w]);
    forall i': nat | i' < NPDENTRIES && i' != i && i' != PDX_UVPT ensures Walk(s.vm, d, i') != Some(t) {
      if KernSlot(i') {
        assert Target(s.vm, KernPde(i')) == Walk(s.vm, d, i');
      }
    }
  }

  /** Directory slot i serves one of the pages vp .. vp+n-1. */
  predicate Serves(i: nat, vp: nat, n: nat) {
    i * NPTENTRIES < vp + n && vp < (i + 1) * NPTENTRIES
  }

  /** The kernel slots that pages vp .. vp+n-1 need and that have no table yet. */
  ghost function MissingTables(vm: Tables, vp: nat, n: nat): set<nat> {
    set i | 0 <= i < NPDENTRIES && Serves(i, vp, n) && Walk(vm, vm.kdir, i) == None
  }

  /** vm' is vm with the n pages from vp mapped to the n frames from pf, and no other entry changed. */
  ghost predicate Mapped(vm: Tables, vm': Tables, vp: nat, n: nat, pf: nat, perm: Flags) {
    && SameRoots(vm, vm')
    && (forall i: nat, j: nat :: i < NPDENTRIES && j < NPTENTRIES && i != PDX_UVPT ==>
          Leaf(vm', vm.kdir, i, j) ==
            if vp <= i * NPTENTRIES + j < vp + n then Word((pf + (i * NPTENTRIES + j - vp)) % MAXFRAMES, Present(perm))
            else Leaf(vm, vm.kdir, i, j))
    && (forall k: nat :: !Serves(k, vp, n) ==> Get(vm', vm.kdir, k) == Get(vm, vm.kdir, k))
  }

  lemma MappedCompose(vm0: Tables, vm1: Tables, vm2: Tables, vp: nat, n: nat, pf: FrameNo, perm: Flags)
    requires n > 0 && vp + n <= VPAGES
    requires Mapped(vm0, vm1, vp, 1, pf, perm)
    requires Mapped(vm1, vm2, vp + 1, n - 1, NextFrame(pf), perm)
    ensures Mapped(vm0, vm2, vp, n, pf, perm)
  {
    hide Leaf;
    hide Get;
    forall i: nat, j: nat | i < NPDENTRIES && j < NPTENTRIES && i != PDX_UVPT && vp < i * NPTENTRIES + j < vp + n
      ensures Leaf(vm2, vm0.kdir, i, j) == Word((pf + (i * NPTENTRIES + j - vp)) % MAXFRAMES, Present(perm))
    {
      FrameAfter(pf, i * NPTENTRIES + j - vp);
    }
  }

  lemma FrameAfter(pf: FrameNo, k: nat)
    requires k > 0
    ensures (NextFrame(pf) + (k - 1)) % MAXFRAMES == (pf + k) % MAXFRAMES
  {
  }

  lemma PageMapped(vm: Tables, vm1: Tables, vm2: Tables, vp: nat, pf: FrameNo, perm: Flags)
    requires vp < VPAGES && KernRange(vp, 1)
    requires SameRoots(vm, vm1) && SameEntries(vm, vm1, vm.kdir)
    requires forall k: nat :: k != vp / NPTENTRIES ==> Get(vm1, vm.kdir, k) == Get(vm, vm.kdir, k)
    requires SameRoots(vm1, vm2) && SameSlots(vm1, vm2, vm.kdir)
    requires OneEntry(vm1, vm2, vm.kdir, vp / NPTENTRIES, vp % NPTENTRIES, Word(pf, Present(perm)))
    ensures Mapped(vm, vm2, vp, 1, pf, perm)
  {
    forall i: nat, j: nat | i < NPDENTRIES && j < NPTENTRIES
      ensures vp <= i * NPTENTRIES + j < vp + 1 <==> (i, j) == (vp / NPTENTRIES, vp % NPTENTRIES)
    {
    }
  }

  /** What one turn of the loop achieves. */
  ghost predicate Turn(s: State, s': State, vp: nat, pf: nat, perm: Flags) {
    && Inv(s') && Mapped(s.vm, s'.vm, vp, 1, pf, perm)
    && Walk(s'.vm, s.vm.kdir, vp / NPTENTRIES).Some?
    && (forall k: nat :: k != vp / NPTENTRIES ==> Get(s'.vm, s.vm.kdir, k) == Get(s.vm, s.vm.kdir, k))
    && TookTables(s, s', if Walk(s.vm, s.vm.kdir, vp / NPTENTRIES).Some? then 0 else 1)
  }

  lemma StoreTurn(s: State, s1: State, t: nat, vp: nat, pf: FrameNo, perm: Flags)
    requires s.vm.dirs == map[] && vp < VPAGES && KernRange(vp, 1)
    requires KernWalked(s, s1, vp / NPTENTRIES, t)
    ensures Turn(s, s1.(vm := Put(s1.vm, t, vp % NPTENTRIES, Word(pf, Present(perm)))), vp, pf, perm)
  {
    hide Inv;
    var w := Word(pf, Present(perm));
    var vm2 := Put(s1.vm, t, vp % NPTENTRIES, w);
    KernEntryStore(s1, vp / NPTENTRIES, vp % NPTENTRIES, w);
    hide Put;
    assert Mapped(s.vm, vm2, vp, 1, pf, perm) by {
      PageMapped(s.vm, s1.vm, vm2, vp, pf, perm);
    }
    hide Mapped;
    hide OneEntry;
    hide SameEntries;
  }

  lemma BootPageExact(s: State, vp: nat, pf: FrameNo, perm: Flags)
    requires Inv(s) && s.vm.dirs == map[] && vp < VPAGES && KernRange(vp, 1)
    ensures var r := BootPage(s, vp, pf, perm);
      && (r.None? <==> Walk(s.vm, s.vm.kdir, vp / NPTENTRIES).None? && s.free == [])
      && (r.Some? ==> Turn(s, r.value, vp, pf, perm))
  {
    KernWalkKeeps(s, vp / NPTENTRIES);
    hide Inv;
    hide KernWalked;
    hide Turn;
    var (s1, pte) := WalkCreate(s, s.vm.kdir, vp / NPTENTRIES);
    if pte.Some? {
      StoreTurn(s, s1, pte.value, vp, pf, perm);
    }
  }

  lemma MissingStep(vm: Tables, vm': Tables, vp: nat, n: nat)
    requires n > 0 && vp + n <= VPAGES && vm'.kdir == vm.kdir
    requires Walk(vm', vm.kdir, vp / NPTENTRIES).Some?
    requires forall k: nat :: k != vp / NPTENTRIES ==> Get(vm', vm.kdir, k) == Get(vm, vm.kdir, k)
    ensures |MissingTables(vm, vp, n)| ==
      |MissingTables(vm', vp + 1, n - 1)| + if Walk(vm, vm.kdir, vp / NPTENTRIES).Some? then 0 else 1
    ensures n == 1 ==> MissingTables(vm', vp + 1, n - 1) == {}
  {
    var i := vp / NPTENTRIES;
    var rest := MissingTables(vm', vp + 1, n - 1);
    assert i !in rest;
    assert MissingTables(vm, vp, n) == if Walk(vm, vm.kdir, i).Some? then rest else rest + {i};
  }

  lemma TookCompose(s0: State, s1: State, s2: State, a: nat, b: nat)
    requires TookTables(s0, s1, a) && TookTables(s1, s2, b)
    ensures TookTables(s0, s2, a + b)
  {
    assert forall q :: q in s1.free ==> q in s0.free;
  }

  ghost function Need(vm: Tables, vp: nat, n: nat): nat {
    if n == 0 then 0 else |MissingTables(vm, vp, n)|
  }

  lemma TurnNeed(s: State, s': State, vp: nat, n: nat, pf: FrameNo, perm: Flags)
    requires n > 0 && vp + n <= VPAGES && Turn(s, s', vp, pf, perm)
    ensures Need(s.vm, vp, n) ==
      Need(s'.vm, vp + 1, n - 1) + if Walk(s.vm, s.vm.kdir, vp / NPTENTRIES).Some? then 0 else 1
    ensures |s'.free| == |s.free| - (if Walk(s.vm, s.vm.kdir, vp / NPTENTRIES).Some? then 0 else 1)
    ensures s'.vm.dirs == s.vm.dirs
  {
    hide Inv;
    MissingStep(s.vm, s'.vm, vp, n);
  }

  lemma TurnCompose(s0: State, s1: State, s2: State, vp: nat, n: nat, pf: FrameNo, perm: Flags)
    requires n > 0 && vp + n <= VPAGES && Turn(s0, s1, vp, pf, perm)
    requires Mapped(s1.vm, s2.vm, vp + 1, n - 1, NextFrame(pf), perm)
    requires TookTables(s1, s2, Need(s1.vm, vp + 1, n - 1))
    ensures Mapped(s0.vm, s2.vm, vp, n, pf, perm) && TookTables(s0, s2, Need(s0.vm, vp, n))
  {
    hide Inv;
    TurnNeed(s0, s1, vp, n, pf, perm);
    hide Need;
    MappedCompose(s0.vm, s1.vm, s2.vm, vp, n, pf, perm);
    hide Mapped;
    var took := if Walk(s0.vm, s0.vm.kdir, vp / NPTENTRIES).Some? then 0 else 1;
    TookCompose(s0, s1, s2, took, Need(s1.vm, vp + 1, n - 1));
  }

  /** The result r of mapping n pages is right. */
  ghost predicate BootMapped(s: State, r: Option<State>, vp: nat, n: nat, pf: nat, perm: Flags) {
    var need := Need(s.vm, vp, n);
    && (r.Some? <==> need <= |s.free|)
    && (r.Some? ==> Inv(r.value) && Mapped(s.vm, r.value.vm, vp, n, pf, perm) && TookTables(s, r.value, need))
  }

  lemma LastTurn(s: State, s': State, vp: nat, pf: FrameNo, perm: Flags)
    requires vp < VPAGES && Turn(s, s', vp, pf, perm)
    ensures BootMapped(s, Some(s'), vp, 1, pf, perm)
  {
    hide Inv;
    MissingStep(s.vm, s'.vm, vp, 1);
  }

  lemma BootMapStep(s: State, s1: State, r: Option<State>, vp: nat, n: nat, pf: FrameNo, perm: Flags)
    requires n > 0 && vp + n <= VPAGES && Turn(s, s1, vp, pf, perm)
    requires BootMapped(s1, r, vp + 1, n - 1, NextFrame(pf), perm)
    ensures BootMapped(s, r, vp, n, pf, perm)
  {
    TurnNeed(s, s1, vp, n, pf, perm);
    if r.Some? {
      TurnCompose(s, s1, r.value, vp, n, pf, perm);
    }
  }

  lemma NoTurnNeed(s: State, vp: nat, n: nat, pf: FrameNo, perm: Flags)
    requires n > 0 && vp < VPAGES && Walk(s.vm, s.vm.kdir, vp / NPTENTRIES).None? && s.free == []
    ensures BootMapped(s, None, vp, n, pf, perm)
  {
    assert vp / NPTENTRIES in MissingTables(s.vm, vp, n);
  }

  lemma NoPages(s: State, vp: nat, pf: FrameNo, perm: Flags)
    requires Inv(s)
    ensures BootMapped(s, Some(s), vp, 0, pf, perm)
  {
  }

  lemma TurnInv(s: State, s': State, vp: nat, pf: FrameNo, perm: Flags)
    requires Turn(s, s', vp, pf, perm)
    ensures Inv(s') && s'.vm.dirs == s.vm.dirs
  {
  }

  /**
    boot_map_region maps exactly the pages it is asked to, changes no other entry and no count of a
    page that was in use, and runs out of tables exactly when the free list is too short.
   */
  lemma {:induction false} BootMapExact(s: State, vp: nat, n: nat, pf: FrameNo, perm: Flags)
    requires Inv(s) && s.vm.dirs == map[] && vp < VPAGES && KernRange(vp, n)
    ensures BootMapped(s, BootMap(s, vp, n, pf, perm), vp, n, pf, perm)
    decreases n
  {
    hide Inv;
    hide Turn;
    hide BootMapped;
    hide BootPage;
    hide NextFrame;
    if n == 0 {
      NoPages(s, vp, pf, perm);
    } else {
      BootPageExact(s, vp, pf, perm);
      match BootPage(s, vp, pf, perm)
      case Some(s1) =>
        TurnInv(s, s1, vp, pf, perm);
        if n == 1 {
          LastTurn(s, s1, vp, pf, perm);
        } else {
          BootMapExact(s1, vp + 1, n - 1, NextFrame(pf), perm);
          BootMapStep(s, s1, BootMap(s1, vp + 1, n - 1, NextFrame(pf), perm), vp, n, pf, perm);
        }
      case None =>
        NoTurnNeed(s, vp, n, pf, perm);
    }
  }

  // ---- mem_init -----------------------------------------------------------------------------

  /** mem_init's four calls: UPAGES, UENVS, the kernel stack, and all of physical memory at KERNBASE. */
  function MemInitMaps(s: State, pagesFrame: FrameNo, envsFrame: FrameNo, stackFrame: FrameNo): Option<State> {
    match BootMap(s, UPAGES_VP, NPTENTRIES, pagesFrame, PTE_U)
    case None => None
    case Some(s1) =>
      match BootMap(s1, UENVS_VP, NPTENTRIES, envsFrame, PTE_PU)
      case None => None
      case Some(s2) =>
        match BootMap(s2, KSTACK_VP, KSTKPAGES, stackFrame, PTE_W)
        case None => None
        case Some(s3) => BootMap(s3, KERNBASE_VP, KERNBASEPAGES, 0, PTE_W)
  }

  const KERNBASEPAGES := (NPDENTRIES - PDX_KERNBASE) * NPTENTRIES
  const KERNTABLES := 67

  ghost function Slots(lo: nat, hi: nat): (slots: set<nat>)
    requires lo <= hi
    ensures forall i :: i in slots <==> lo <= i < hi
    ensures |slots| == hi - lo
    decreases hi - lo
  {
    if lo == hi then {} else Slots(lo, hi - 1) + {hi - 1}
  }

  /** A window whose slots lo .. hi-1 are all empty needs hi - lo tables. */
  lemma WindowNeed(vm: Tables, vp: nat, n: nat, lo: nat, hi: nat)
    requires n > 0 && lo <= hi <= NPDENTRIES
    requires forall i: nat :: Serves(i, vp, n) <==> lo <= i < hi
    requires forall i: nat :: lo <= i < hi ==> Get(vm, vm.kdir, i) == ZERO
    ensures Need(vm, vp, n) == hi - lo
  {
    assert MissingTables(vm, vp, n) == Slots(lo, hi);
  }

  /** kern_pgdir after mem_init: four windows, a guard below the kernel stack, nothing at ULIM, and the self-map. */
  ghost predicate KernelWindows(vm: Tables, pagesFrame: nat, envsFrame: nat, stackFrame: nat) {
    var d := vm.kdir;
    && (forall j: nat :: j < NPTENTRIES ==>
          Leaf(vm, d, PDX_UPAGES, j) == Word((pagesFrame + j) % MAXFRAMES, Present(PTE_U)))
    && (forall j: nat :: j < NPTENTRIES ==>
          Leaf(vm, d, PDX_UENVS, j) == Word((envsFrame + j) % MAXFRAMES, Present(PTE_U)))
    && (forall j: nat :: PTX_KSTACK <= j < NPTENTRIES ==>
          Leaf(vm, d, PDX_KSTACK, j) == Word((stackFrame + (j - PTX_KSTACK)) % MAXFRAMES, Present(PTE_W)))
    && (forall j: nat :: j < PTX_KSTACK ==> Leaf(vm, d, PDX_KSTACK, j) == ZERO)
    && (forall i: nat, j: nat :: PDX_KERNBASE <= i < NPDENTRIES && j < NPTENTRIES ==>
          Leaf(vm, d, i, j) == Word((i - PDX_KERNBASE) * NPTENTRIES + j, Present(PTE_W)))
    && (forall j: nat :: j < NPTENTRIES ==> Leaf(vm, d, PDX_ULIM, j) == ZERO)
    && (d < MAXFRAMES ==> Get(vm, d, PDX_UVPT) == Word(d, PTE_PU))
  }

  const UPAGES_VP := PDX_UPAGES * NPTENTRIES
  const UENVS_VP := PDX_UENVS * NPTENTRIES
  const KSTACK_VP := PDX_KSTACK * NPTENTRIES + PTX_KSTACK
  const KERNBASE_VP := PDX_KERNBASE * NPTENTRIES

  lemma WindowsTogether(vm0: Tables, vm1: Tables, vm2: Tables, vm3: Tables, vm4: Tables,
                        pagesFrame: FrameNo, envsFrame: FrameNo, stackFrame: FrameNo)
    requires BareKernel(vm0)
    requires Mapped(vm0, vm1, UPAGES_VP, NPTENTRIES, pagesFrame, PTE_U)
    requires Mapped(vm1, vm2, UENVS_VP, NPTENTRIES, envsFrame, PTE_PU)
    requires Mapped(vm2, vm3, KSTACK_VP, KSTKPAGES, stackFrame, PTE_W)
    requires Mapped(vm3, vm4, KERNBASE_VP, KERNBASEPAGES, 0, PTE_W)
    ensures KernelWindows(vm4, pagesFrame, envsFrame, stackFrame)
  {
    hide Leaf;
    hide Get;
    NoLeaves(vm0);
  }

  lemma NoLeaves(vm: Tables)
    requires BareKernel(vm)
    ensures forall i: nat, j: nat :: i < NPDENTRIES && i != PDX_UVPT ==> Leaf(vm, vm.kdir, i, j) == ZERO
  {
  }

  /** kern_pgdir has no tables yet. */
  ghost predicate BareKernel(vm: Tables) {
    && (forall i: nat :: i < NPDENTRIES && i != PDX_UVPT ==> Get(vm, vm.kdir, i) == ZERO)
    && (vm.kdir < MAXFRAMES ==> Get(vm, vm.kdir, PDX_UVPT) == Word(vm.kdir, PTE_PU))
  }

  /** A window over empty slots lo .. hi-1 succeeds exactly when hi - lo pages are free. */
  lemma Window(s: State, vp: nat, n: nat, lo: nat, hi: nat, pf: FrameNo, perm: Flags)
    requires Inv(s) && s.vm.dirs == map[] && vp < VPAGES && KernRange(vp, n)
    requires n > 0 && lo <= hi <= NPDENTRIES
    requires forall i: nat :: Serves(i, vp, n) <==> lo <= i < hi
    requires forall i: nat :: lo <= i < hi ==> Get(s.vm, s.vm.kdir, i) == ZERO
    ensures var r := BootMap(s, vp, n, pf, perm);
      && (r.Some? <==> hi - lo <= |s.free|)
      && (r.Some? ==>
            && Inv(r.value) && Mapped(s.vm, r.value.vm, vp, n, pf, perm) && TookTables(s, r.value, hi - lo)
            && r.value.vm.dirs == map[] && r.value.vm.kdir == s.vm.kdir
            && (forall i: nat :: !(lo <= i < hi) ==> Get(r.value.vm, s.vm.kdir, i) == Get(s.vm, s.vm.kdir, i)))
  {
    hide Inv;
    BootMapExact(s, vp, n, pf, perm);
    WindowNeed(s.vm, vp, n, lo, hi);
    hide Need;
    hide BootMap;
  }

  /**
    mem_init's mappings: they succeed exactly when 67 pages are free for tables, and then all four
    windows hold together and no page that was in use has changed its count.
   */
  lemma MemInitExact(s: State, pagesFrame: FrameNo, envsFrame: FrameNo, stackFrame: FrameNo)
    requires Inv(s) && s.vm.dirs == map[] && BareKernel(s.vm)
    ensures var r := MemInitMaps(s, pagesFrame, envsFrame, stackFrame);
      && (r.Some? <==> KERNTABLES <= |s.free|)
      && (r.Some? ==>
            && Inv(r.value) && r.value.vm.dirs == map[]
            && KernelWindows(r.value.vm, pagesFrame, envsFrame, stackFrame)
            && TookTables(s, r.value, KERNTABLES))
  {
    hide Inv;
    hide Mapped;
    hide BootMap;
    Window(s, UPAGES_VP, NPTENTRIES, PDX_UPAGES, PDX_UPAGES + 1, pagesFrame, PTE_U);
    match BootMap(s, UPAGES_VP, NPTENTRIES, pagesFrame, PTE_U)
    case None =>
    case Some(s1) =>
      Window(s1, UENVS_VP, NPTENTRIES, PDX_UENVS, PDX_UENVS + 1, envsFrame, PTE_PU);
      match BootMap(s1, UENVS_VP, NPTENTRIES, envsFrame, PTE_PU)
      case None =>
      case Some(s2) =>
        TookCompose(s, s1, s2, 1, 1);
        Window(s2, KSTACK_VP, KSTKPAGES, PDX_KSTACK, PDX_KSTACK + 1, stackFrame, PTE_W);
        match BootMap(s2, KSTACK_VP, KSTKPAGES, stackFrame, PTE_W)
        case None =>
        case Some(s3) =>
          TookCompose(s, s2, s3, 2, 1);
          Window(s3, KERNBASE_VP, KERNBASEPAGES, PDX_KERNBASE, NPDENTRIES, 0, PTE_W);
          match BootMap(s3, KERNBASE_VP, KERNBASEPAGES, 0, PTE_W)
          case None =>
          case Some(s4) =>
            TookCompose(s, s3, s4, 3, NPDENTRIES - PDX_KERNBASE);
            WindowsTogether(s.vm, s1.vm, s2.vm, s3.vm, s4.vm, pagesFrame, envsFrame, stackFrame);
  }
}
