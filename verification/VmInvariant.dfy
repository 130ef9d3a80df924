/**
  The invariant that ties the free list, the reference counts and the page-table forest together.

  A *site* is a place that may hold a counted reference to a physical page: an environment's
  directory root, one of its user directory slots, one of its user page-table entries, or a slot of
  the kernel directory above UTOP.  `Count(s, p)` is the number of sites that refer to page p.
 */
module VmInvariant {
  import opened Mmu
  import opened Vm

  datatype Site =
    | Root(e: nat)
    | Pde(e: nat, i: nat)
    | Pte(e: nat, i: nat, j: nat)
    | KernPde(i: nat)

  ghost predicate ValidSite(x: Site) {
    match x
    case Root(e) => e < NENV
    case Pde(e, i) => e < NENV && i < PDX_UTOP
    case Pte(e, i, j) => e < NENV && i < PDX_UTOP && j < NPTENTRIES
    case KernPde(i) => KernSlot(i)
  }

  /** A directory slot above UTOP other than UVPT's: every directory shares it with the kernel's. */
  ghost predicate KernSlot(i: nat) {
    PDX_UTOP <= i < NPDENTRIES && i != PDX_UVPT
  }

  ghost function Universe(): (sites: set<Site>)
    ensures forall x :: x in sites <==> ValidSite(x)
  {
    (set e | 0 <= e < NENV :: Root(e))
    + (set e, i | 0 <= e < NENV && 0 <= i < PDX_UTOP :: Pde(e, i))
    + (set e, i, j | 0 <= e < NENV && 0 <= i < PDX_UTOP && 0 <= j < NPTENTRIES :: Pte(e, i, j))
    + (set i | 0 <= i < NPDENTRIES && KernSlot(i) :: KernPde(i))
  }

  function Entry(w: Word): Option<nat> {
    if w.flags.p then Some(w.frame as nat) else None
  }

  /** The page that site x refers to. */
  function Target(vm: Tables, x: Site): Option<nat> {
    match x
    case Root(e) => if e in vm.dirs then Some(vm.dirs[e]) else None
    case Pde(e, i) => if e in vm.dirs then Walk(vm, vm.dirs[e], i) else None
    case Pte(e, i, j) =>
      if e in vm.dirs then
        match Walk(vm, vm.dirs[e], i)
        case None => None
        case Some(t) => Entry(Get(vm, t, j))
      else None
    case KernPde(i) => Walk(vm, vm.kdir, i)
  }

  ghost function RefsAmong(sites: set<Site>, vm: Tables, p: nat): set<Site> {
    set x | x in sites && Target(vm, x) == Some(p)
  }

  ghost function Count(vm: Tables, p: nat): nat {
    |RefsAmong(Universe(), vm, p)|
  }

  // ---- the shape of the page tables ---------------------------------------------------------

  /** Sites whose page is part of the forest itself: directories and page tables. */
  ghost predicate Structural(x: Site) {
    ValidSite(x) && !x.Pte?
  }

  ghost predicate Located(vm: Tables) {
    && vm.kdir < |vm.mem| <= MAXFRAMES
    && (forall e :: e in vm.dirs ==> e < NENV && vm.dirs[e] < |vm.mem|)
    && (forall x :: ValidSite(x) && Target(vm, x).Some? ==> Target(vm, x).value < |vm.mem|)
  }

  /** No directory or table is used twice, and none is kern_pgdir. */
  ghost predicate Forest(vm: Tables) {
    && (forall x, y :: Structural(x) && Structural(y) && Target(vm, x).Some? && Target(vm, x) == Target(vm, y) ==>
          x == y)
    && (forall x :: Structural(x) ==> Target(vm, x) != Some(vm.kdir))
  }

  /** At and above UTOP every directory is kern_pgdir, except for its own UVPT slot. */
  ghost predicate KernelShared(vm: Tables)
    requires Located(vm)
  {
    && Get(vm, vm.kdir, PDX_UVPT) == Word(vm.kdir, PTE_PU)
    && (forall i :: 0 <= i < PDX_UTOP ==> Get(vm, vm.kdir, i) == ZERO)
    && (forall i :: KernSlot(i) ==> Get(vm, vm.kdir, i) == ZERO || Get(vm, vm.kdir, i).flags == PTE_PWU)
    && (forall e :: e in vm.dirs ==> Get(vm, vm.dirs[e], PDX_UVPT) == Word(vm.dirs[e], PTE_PU))
    && (forall e, i :: e in vm.dirs && KernSlot(i) ==> Get(vm, vm.dirs[e], i) == Get(vm, vm.kdir, i))
  }

  /** Below UTOP a directory slot is zero or present, writable and user; an entry is zero or present. */
  ghost predicate UserEntries(vm: Tables) {
    && (forall e, i :: e in vm.dirs && 0 <= i < PDX_UTOP ==>
          Get(vm, vm.dirs[e], i) == ZERO || Get(vm, vm.dirs[e], i).flags == PTE_PWU)
    && (forall e, i, j :: e in vm.dirs && 0 <= i < PDX_UTOP && 0 <= j < NPTENTRIES && Walk(vm, vm.dirs[e], i).Some? ==>
          Get(vm, Walk(vm, vm.dirs[e], i).value, j) == ZERO || Get(vm, Walk(vm, vm.dirs[e], i).value, j).flags.p)
  }

  ghost predicate Shape(vm: Tables) {
    Located(vm) && Forest(vm) && KernelShared(vm) && UserEntries(vm)
  }

  // ---- the allocator's books ----------------------------------------------------------------

  ghost predicate Sized(s: State) {
    && |s.vm.mem| == |s.refs| == |s.base|
    && s.vm.kdir < |s.base| && s.base[s.vm.kdir] > 0
  }

  /** pp_ref is the boot reference, plus the sites, plus the references a running operation holds. */
  ghost predicate Counted(s: State, pend: multiset<nat>)
    requires Sized(s)
  {
    forall p :: 0 <= p < |s.refs| ==> s.refs[p] == s.base[p] + Count(s.vm, p) + pend[p] <= MAXREF
  }

  ghost predicate NoDup(xs: seq<nat>) {
    forall i, j :: 0 <= i < j < |xs| ==> xs[i] != xs[j]
  }

  /** Allocatable pages with no reference are either on the free list or handed out, never both. */
  ghost predicate FreeList(s: State)
    requires Sized(s)
  {
    && NoDup(s.free)
    && (forall p :: p in s.free ==> p < |s.refs| && p !in s.handed)
    && (forall p :: p in s.handed ==> p < |s.refs|)
    && (forall p :: 0 <= p < |s.refs| ==> (p in s.free || p in s.handed <==> s.base[p] == 0 && s.refs[p] == 0))
  }

  ghost predicate InvWith(s: State, pend: multiset<nat>) {
    Shape(s.vm) && Sized(s) && Counted(s, pend) && FreeList(s)
  }

  ghost predicate Inv(s: State) {
    InvWith(s, multiset{})
  }

  // ---- counting -----------------------------------------------------------------------------

  /** A page nobody refers to is the target of no site. */
  lemma Unreferenced(vm: Tables, p: nat)
    requires Count(vm, p) == 0
    ensures forall x :: ValidSite(x) ==> Target(vm, x) != Some(p)
  {
    var refs := RefsAmong(Universe(), vm, p);
    assert refs == {};
    forall x | ValidSite(x) ensures Target(vm, x) != Some(p) {
      assert x !in refs;
    }
  }

  /** A page that a site refers to has a reference, so it is neither free nor handed out. */
  lemma Referenced(s: State, pend: multiset<nat>, x: Site)
    requires InvWith(s, pend)
    requires ValidSite(x) && Target(s.vm, x).Some?
    ensures var p := Target(s.vm, x).value;
      p < |s.refs| && s.refs[p] >= 1 + s.base[p] + pend[p] && p !in s.free && p !in s.handed
  {
    var p := Target(s.vm, x).value;
    assert x in RefsAmong(Universe(), s.vm, p);
    assert Count(s.vm, p) > 0;
  }

  /** An environment's directory is in memory, in use, its own, and not kern_pgdir. */
  lemma RootFacts(s: State, pend: multiset<nat>, e: nat)
    requires InvWith(s, pend) && e in s.vm.dirs
    ensures var d := s.vm.dirs[e];
      e < NENV && d < |s.vm.mem| == |s.refs| && d != s.vm.kdir && d !in s.free && Target(s.vm, Root(e)) == Some(d)
    ensures forall e' :: e' in s.vm.dirs && e' != e ==> s.vm.dirs[e'] != s.vm.dirs[e]
  {
    Referenced(s, pend, Root(e));
    forall e' | e' in s.vm.dirs && e' != e ensures s.vm.dirs[e'] != s.vm.dirs[e] {
      assert Target(s.vm, Root(e')) == Some(s.vm.dirs[e']);
    }
  }

  lemma FreshPage(s: State, pend: multiset<nat>, p: nat)
    requires InvWith(s, pend)
    requires p < |s.refs| && s.refs[p] == 0
    ensures p != s.vm.kdir && pend[p] == 0
    ensures forall x :: ValidSite(x) ==> Target(s.vm, x) != Some(p)
  {
    Unreferenced(s.vm, p);
  }

  lemma ChangeAmong(sites: set<Site>, vm: Tables, vm': Tables, y: Site, p: nat)
    requires y in sites
    requires forall x :: x in sites && x != y ==> Target(vm', x) == Target(vm, x)
    ensures |RefsAmong(sites, vm', p)| + (if Target(vm, y) == Some(p) then 1 else 0)
         == |RefsAmong(sites, vm, p)| + (if Target(vm', y) == Some(p) then 1 else 0)
  {
    var others := RefsAmong(sites - {y}, vm, p);
    assert RefsAmong(sites, vm, p) == if Target(vm, y) == Some(p) then others + {y} else others;
    assert RefsAmong(sites, vm', p) == if Target(vm', y) == Some(p) then others + {y} else others;
  }

  /** When one site changes, the counts of its old and new page change by one and no other does. */
  lemma CountChange(vm: Tables, vm': Tables, y: Site)
    requires ValidSite(y)
    requires forall x :: ValidSite(x) && x != y ==> Target(vm', x) == Target(vm, x)
    ensures forall p: nat :: Count(vm', p) + (if Target(vm, y) == Some(p) then 1 else 0)
                          == Count(vm, p) + (if Target(vm', y) == Some(p) then 1 else 0)
  {
    forall p: nat
      ensures Count(vm', p) + (if Target(vm, y) == Some(p) then 1 else 0)
           == Count(vm, p) + (if Target(vm', y) == Some(p) then 1 else 0)
    {
      ChangeAmong(Universe(), vm, vm', y, p);
    }
  }

  lemma CountSame(vm: Tables, vm': Tables)
    requires forall x :: ValidSite(x) ==> Target(vm', x) == Target(vm, x)
    ensures forall p :: Count(vm', p) == Count(vm, p)
  {
    forall p: nat ensures Count(vm', p) == Count(vm, p) {
      assert RefsAmong(Universe(), vm', p) == RefsAmong(Universe(), vm, p);
    }
  }
}
