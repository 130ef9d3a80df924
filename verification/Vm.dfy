/**
  The state of the JOS virtual-memory system as a value, and each kern/pmap.c and kern/env.c
  operation on it as a function.  `Kernel.Machine` performs the operations in place and is proved
  to follow these functions.
 */
module Vm {
  import opened Mmu

  const NENV := 1024
  const MAXREF := 65535

  /**
    Physical memory and the roots of the page tables stored in it.

    mem      one Page per frame
    kdir     the frame of kern_pgdir
    dirs     the frame of envs[e].env_pgdir, for each slot e that has one
   */
  datatype Tables = Tables(mem: seq<Page>, kdir: nat, dirs: map<nat, nat>)

  /**
    vm       memory and page tables
    refs     pages[].pp_ref
    free     page_free_list, head first
    handed   pages handed out by page_alloc that no reference counts yet
    base     the references page_init gave out: 1 for a page that may never be allocated
   */
  datatype State = State(vm: Tables, refs: seq<nat>, free: seq<nat>, handed: set<nat>, base: seq<nat>)

  // ---- memory words -------------------------------------------------------------------------

  function Get(vm: Tables, f: nat, i: nat): Word {
    if f < |vm.mem| && i < NPTENTRIES then vm.mem[f][i] else ZERO
  }

  function Put(vm: Tables, f: nat, i: nat, w: Word): Tables {
    if f < |vm.mem| && i < NPTENTRIES then vm.(mem := vm.mem[f := vm.mem[f][i := w]]) else vm
  }

  function SetPage(vm: Tables, f: nat, page: Page): Tables {
    if f < |vm.mem| then vm.(mem := vm.mem[f := page]) else vm
  }

  // ---- the physical page allocator ----------------------------------------------------------

  /** A 16-bit counter: `++` and `--` wrap. */
  function Up(r: nat): nat { (r + 1) % 0x1_0000 }
  function Down(r: nat): nat { if r == 0 then MAXREF else r - 1 }

  function PageAlloc(s: State, zero: bool): (State, Option<nat>) {
    if s.free == [] then (s, None)
    else
      var p := s.free[0];
      (State(if zero then SetPage(s.vm, p, ZeroPage()) else s.vm, s.refs, s.free[1..], s.handed + {p}, s.base), Some(p))
  }

  function PageFree(s: State, p: nat): State {
    s.(free := [p] + s.free, handed := s.handed - {p})
  }

  /** `pp->pp_ref++` by a caller that is about to store a reference to the page. */
  function Incref(s: State, p: nat): State {
    if p < |s.refs| then s.(refs := s.refs[p := Up(s.refs[p])], handed := s.handed - {p}) else s
  }

  function PageDecref(s: State, p: nat): State {
    if p < |s.refs| then
      var s' := s.(refs := s.refs[p := Down(s.refs[p])]);
      if s'.refs[p] == 0 then PageFree(s', p) else s'
    else s
  }

  // ---- two-level page tables ----------------------------------------------------------------

  /** pgdir_walk(d, (i,j), 0): the frame of the table whose word j is the entry, if there is one. */
  function Walk(vm: Tables, d: nat, i: nat): Option<nat> {
    if Get(vm, d, i).flags.p then Some(Get(vm, d, i).frame as nat) else None
  }

  /** pgdir_walk(d, (i,j), 1) */
  function WalkCreate(s: State, d: nat, i: nat): (State, Option<nat>) {
    if Walk(s.vm, d, i).Some? then (s, Walk(s.vm, d, i))
    else
      var (s1, newPage) := PageAlloc(s, true);
      match newPage
      case None => (s1, None)
      case Some(t) =>
        if t < MAXFRAMES then
          var s2 := Incref(s1, t);
          (s2.(vm := Put(s2.vm, d, i, Word(t, PTE_PWU))), Some(t))
        else (s, None)
  }

  /** page_lookup: the table that holds the entry, and the page it maps. */
  function PageLookup(vm: Tables, d: nat, i: nat, j: nat): Option<(nat, nat)> {
    match Walk(vm, d, i)
    case None => None
    case Some(t) => if Get(vm, t, j).flags.p then Some((t, Get(vm, t, j).frame as nat)) else None
  }

  function PageRemove(s: State, d: nat, i: nat, j: nat): State {
    match PageLookup(s.vm, d, i, j)
    case None => s
    case Some((t, q)) => PageDecref(s.(vm := Put(s.vm, t, j, ZERO)), q)
  }

  /** The part of page_insert after its walk: increment, remove, store. */
  function Install(s: State, d: nat, t: nat, p: FrameNo, i: nat, j: nat, perm: Flags): State {
    var s2 := Incref(s, p);
    var s3 := if Get(s2.vm, t, j).flags.p then PageRemove(s2, d, i, j) else s2;
    s3.(vm := Put(s3.vm, t, j, Word(p, Present(perm))))
  }

  /** page_insert; the flag is false for -E_NO_MEM. */
  function PageInsert(s: State, d: nat, p: FrameNo, i: nat, j: nat, perm: Flags): (State, bool) {
    var (s1, pte) := WalkCreate(s, d, i);
    match pte
    case None => (s1, false)
    case Some(t) => (Install(s1, d, t, p, i, j, perm), true)
  }

  // ---- environments' address spaces ---------------------------------------------------------

  /** env_setup_vm for slot e; the flag is false for -E_NO_MEM. */
  function EnvSetupVm(s: State, e: nat): (State, bool) {
    var (s1, page) := PageAlloc(s, true);
    match page
    case None => (s1, false)
    case Some(d) =>
      if s.vm.kdir < |s.vm.mem| && d < MAXFRAMES then
        var s2 := Incref(s1, d);
        (s2.(vm := AddDir(s2.vm, e, d)), true)
      else (s, false)
  }

  function AddDir(vm: Tables, e: nat, d: FrameNo): Tables
    requires vm.kdir < |vm.mem|
  {
    Put(SetPage(vm, d, vm.mem[vm.kdir]), d, PDX_UVPT, Word(d, PTE_PU)).(dirs := vm.dirs[e := d])
  }

  /** The inner loop of env_free: unmap entries j.. of table t, which serves directory slot i. */
  function UnmapTable(s: State, d: nat, t: nat, i: nat, j: nat): (s': State)
    ensures s'.base == s.base && |s'.refs| == |s.refs|
    decreases NPTENTRIES - j
  {
    if j >= NPTENTRIES then s
    else UnmapTable(if Get(s.vm, t, j).flags.p then PageRemove(s, d, i, j) else s, d, t, i, j + 1)
  }

  /** One turn of the outer loop of env_free. */
  function FreeTable(s: State, d: nat, i: nat): State {
    match Walk(s.vm, d, i)
    case None => s
    case Some(t) =>
      var s1 := UnmapTable(s, d, t, i, 0);
      PageDecref(s1.(vm := Put(s1.vm, d, i, ZERO)), t)
  }

  function FreeTables(s: State, d: nat, i: nat): (s': State)
    ensures s'.base == s.base && |s'.refs| == |s.refs|
    decreases PDX_UTOP - i
  {
    if i >= PDX_UTOP then s else FreeTables(FreeTable(s, d, i), d, i + 1)
  }

  /** env_free for slot e: every user table, then the directory itself. */
  function EnvFree(s: State, e: nat): State {
    if e in s.vm.dirs then
      var d := s.vm.dirs[e];
      var s1 := FreeTables(s, d, 0);
      PageDecref(s1.(vm := s1.vm.(dirs := s1.vm.dirs - {e})), d)
    else s
  }
}
