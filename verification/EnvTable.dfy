/**
  The environment table of kern/env.c as a value: allocation, freeing and lookup of environments, and
  what holds over every run of them together with the memory operations.
 */
module EnvTable {
  import opened Errors
  import opened Mmu
  import opened Vm
  import opened VmInvariant
  import opened EnvIds
  import AddressSpace
  import PageTables
  import Teardown
  import Runs

  datatype Status = Free | Dying | Runnable | Running | NotRunnable

  /** struct Trapframe: the eight registers of PushRegs, then the rest in order, without its padding. */
  datatype Trapframe = Trapframe(
    regs: seq<Addr>, es: nat, ds: nat, trapno: Addr, err: Addr, eip: Addr, cs: nat, eflags: Addr, esp: Addr, ss: nat)

  const GD_UT := 0x18
  const GD_UD := 0x20
  const ENV_TYPE_USER := 0

  /** A cleared frame with user segments and the user stack, whatever the slot held before; eip comes later. */
  const FRESHFRAME := Trapframe([0, 0, 0, 0, 0, 0, 0, 0], GD_UD + 3, GD_UD + 3, 0, 0, 0, GD_UT + 3, 0,
                                AddressSpace.USTACKTOP, GD_UD + 3)

  /** struct Env but for env_pgdir, which the memory system holds; a link is an index into envs[], None for NULL. */
  datatype Env = Env(
    link: Option<nat>, id: Int32, parent: Int32, envType: nat, status: Status, runs: Addr, tf: Trapframe)

  /** env_alloc's stores for slot e, but for the link. */
  function NewEnv(env: Env, e: nat, parent: Int32): Env
    requires e < NENV
  {
    Env(env.link, NextId(env.id, e), parent, ENV_TYPE_USER, Runnable, 0, FRESHFRAME)
  }

  /**
    envs    the table
    list    env_free_list, head first
    cur     curenv
    issued  how many times each slot has been allocated
    vm      the memory system
   */
  datatype Table = Table(envs: seq<Env>, list: seq<nat>, cur: Option<nat>, issued: seq<nat>, vm: State)

  // ---- operations ---------------------------------------------------------------------------

  /** env_alloc: the new environment's slot, or an error. */
  function EnvAlloc(s: Table, parent: Int32): (Table, Option<nat>, int)
    requires s.list != [] ==> s.list[0] < NENV == |s.envs| == |s.issued|
  {
    if s.list == [] then (s, None, -E_NO_FREE_ENV)
    else
      var e := s.list[0];
      var (vm', ok) := EnvSetupVm(s.vm, e);
      if !ok then (s.(vm := vm'), None, -E_NO_MEM)
      else
        var issued := s.issued[e := s.issued[e] + 1];
        var envs := s.envs[e := NewEnv(s.envs[e], e, parent)];
        (s.(envs := envs, list := s.list[1..], issued := issued, vm := vm'), Some(e), 0)
  }

  /** env_free: give back the memory, then push the slot. */
  function EnvFree(s: Table, e: nat): Table
    requires e < |s.envs|
  {
    var link := if s.list == [] then None else Some(s.list[0]);
    s.(envs := s.envs[e := s.envs[e].(link := link, status := Free)], list := [e] + s.list, vm := Vm.EnvFree(s.vm, e))
  }

  /** A 32-bit counter after n increments. */
  function Ticks(count: Addr, n: nat): Addr {
    (count + n) % 0x1_0000_0000
  }

  /** env_run, but for the lcr3. */
  function EnvRun(s: Table, e: nat): Table
    requires e < |s.envs| && (s.cur.Some? ==> s.cur.value < |s.envs|)
  {
    var envs := if s.cur.Some? then s.envs[s.cur.value := s.envs[s.cur.value].(status := Runnable)] else s.envs;
    s.(envs := envs[e := envs[e].(status := Running, runs := Ticks(envs[e].runs, 1))], cur := Some(e))
  }

  /** envid2env: the environment stored through env_store (None for NULL) and the result. */
  function Envid2env(s: Table, envid: Int32, checkperm: bool): (Option<nat>, int)
    requires |s.envs| == NENV
    requires s.cur.Some? ==> s.cur.value < NENV
    requires checkperm ==> s.cur.Some?
  {
    if envid == 0 then (s.cur, 0)
    else
      var e := Envx(envid);
      if s.envs[e].status == Free || s.envs[e].id != envid then (None, -E_BAD_ENV)
      else if checkperm && Some(e) != s.cur && s.envs[e].parent != s.envs[s.cur.value].id then (None, -E_BAD_ENV)
      else (Some(e), 0)
  }

  // ---- the invariant ------------------------------------------------------------------------

  predicate Live(envs: seq<Env>, e: nat) {
    e < |envs| && envs[e].status != Free
  }

  /** The free list holds exactly the ENV_FREE slots, each once. */
  ghost predicate Listed(envs: seq<Env>, list: seq<nat>) {
    NoDup(list) && forall e: nat :: e in list <==> e < |envs| && !Live(envs, e)
  }

  /** Ids are as issued, and a live environment has been issued one. */
  ghost predicate Numbered(envs: seq<Env>, issued: seq<nat>) {
    && |envs| == NENV == |issued|
    && forall e: nat :: e < NENV ==> envs[e].id == IdAfter(e, issued[e]) && (Live(envs, e) ==> issued[e] > 0)
  }

  /** Exactly the live environments have a page directory. */
  ghost predicate Rooted(envs: seq<Env>, dirs: map<nat, nat>) {
    forall e: nat :: e in dirs <==> Live(envs, e)
  }

  ghost predicate TableInv(s: Table) {
    && Inv(s.vm) && Rooted(s.envs, s.vm.vm.dirs) && Listed(s.envs, s.list) && Numbered(s.envs, s.issued)
    && (s.cur.Some? ==> s.cur.value < NENV)
  }

  lemma HeadIsFree(envs: seq<Env>, list: seq<nat>)
    requires Listed(envs, list) && list != []
    ensures list[0] < |envs| && !Live(envs, list[0])
  {
    assert list[0] in list;
  }

  lemma PopListed(envs: seq<Env>, list: seq<nat>, env: Env)
    requires Listed(envs, list) && list != [] && list[0] < |envs| && env.status != Free
    ensures Listed(envs[list[0] := env], list[1..])
  {
    assert list == [list[0]] + list[1..];
    assert forall f :: f in list <==> f == list[0] || f in list[1..];
    assert forall k :: 0 <= k < |list[1..]| ==> list[1..][k] == list[k + 1] && list[0] != list[k + 1];
    assert list[0] !in list[1..];
  }

  lemma PushListed(envs: seq<Env>, list: seq<nat>, e: nat, env: Env)
    requires Listed(envs, list) && Live(envs, e) && env.status == Free
    ensures Listed(envs[e := env], [e] + list)
  {
    assert forall f :: f in [e] + list <==> f == e || f in list;
  }

  /** What env_setup_vm means to the table. */
  lemma SetupFacts(s: State, e: nat)
    requires Inv(s) && e < NENV && e !in s.vm.dirs
    ensures var (s', ok) := EnvSetupVm(s, e);
      && Inv(s') && (ok <==> s.free != []) && (!ok ==> s' == s)
      && (ok ==> (forall f: nat :: f in s'.vm.dirs <==> f in s.vm.dirs || f == e)
                 && PageTables.Mapping(s'.vm, e) == map[])
  {
    Teardown.EnvSetupKeeps(s, e);
  }

  /** A new environment: runnable, no runs yet, and cleared registers but for the user segments and stack. */
  ghost predicate StartsFresh(env: Env, parent: Int32) {
    && env.parent == parent && env.envType == 0 && env.status == Runnable && env.runs == 0
    && env.tf.regs == [0, 0, 0, 0, 0, 0, 0, 0] && env.tf.esp == 0xEEBF_E000
    && env.tf.cs == 0x1B && env.tf.ds == env.tf.es == env.tf.ss == 0x23
    && env.tf.trapno == env.tf.err == env.tf.eip == env.tf.eflags == 0
  }

  /** Slot e, the head of the list, has started afresh with its next id; nothing else in the table has changed. */
  ghost predicate NewSlot(s: Table, s': Table, e: nat, parent: Int32)
    requires e < |s.envs| == |s.issued|
  {
    && |s'.envs| == |s.envs| && s'.envs == s.envs[e := s'.envs[e]]
    && s'.issued == s.issued[e := s.issued[e] + 1] && s'.cur == s.cur
    && s.list == [e] + s'.list
    && StartsFresh(s'.envs[e], parent) && s'.envs[e].link == s.envs[e].link
    && s'.envs[e].id == (s.issued[e] % 0x7_FFFF + 1) * 4096 + e
  }

  lemma NextIdIs(id: Int32, e: nat, issued: nat)
    requires e < NENV && id == IdAfter(e, issued)
    ensures NextId(id, e) == IdAfter(e, issued + 1) == (issued % 0x7_FFFF + 1) * 4096 + e
  {
    IdClosedForm(e, issued + 1);
  }

  lemma AllocKeepsTable(s: Table, parent: Int32)
    requires TableInv(s)
    ensures s.list != [] ==> s.list[0] < NENV
    ensures var (s', env, r) := EnvAlloc(s, parent);
      && TableInv(s')
      && (env.None? <==> s.list == [] || s.vm.free == [])
      && (env.None? ==> s' == s && r == if s.list == [] then -E_NO_FREE_ENV else -E_NO_MEM)
      && (env.Some? ==> r == 0 && env.value == s.list[0] && Live(s'.envs, env.value)
                        && PageTables.Mapping(s'.vm.vm, env.value) == map[] && NewSlot(s, s', env.value, parent))
  {
    hide Inv;
    hide IdAfter;
    if s.list != [] {
      var e := s.list[0];
      HeadIsFree(s.envs, s.list);
      NextIdIs(s.envs[e].id, e, s.issued[e]);
      SetupFacts(s.vm, e);
      hide EnvSetupVm;
      hide Listed;
      hide NextId;
      if s.vm.free != [] {
        PopListed(s.envs, s.list, EnvAlloc(s, parent).0.envs[e]);
      }
    }
  }

  lemma FreeKeepsTable(s: Table, e: nat)
    requires TableInv(s) && Live(s.envs, e)
    ensures var s' := EnvFree(s, e);
      && TableInv(s') && s'.list == [e] + s.list && s'.cur == s.cur && s'.issued == s.issued
      && s'.envs[e] == s.envs[e].(status := Free, link := s'.envs[e].link)
      && s'.envs[e].link == (if s.list == [] then None else Some(s.list[0]))
      && (forall f: nat :: f < |s.envs| && f != e ==> s'.envs[f] == s.envs[f])
      && s'.vm == Vm.EnvFree(s.vm, e)
  {
    hide Inv;
    hide Listed;
    Teardown.EnvFreeKeeps(s.vm, e);
    hide Vm.EnvFree;
    hide IdAfter;
    PushListed(s.envs, s.list, e, EnvFree(s, e).envs[e]);
  }

  lemma RunKeepsTable(s: Table, e: nat)
    requires TableInv(s) && Live(s.envs, e) && (s.cur.Some? ==> Live(s.envs, s.cur.value))
    ensures var s' := EnvRun(s, e);
      && TableInv(s') && s'.cur == Some(e) && s'.list == s.list && s'.issued == s.issued && s'.vm == s.vm
      && s'.envs[e] == s.envs[e].(status := Running, runs := s'.envs[e].runs)
      && s'.envs[e].runs == (if s.envs[e].runs == 0xFFFF_FFFF then 0 else s.envs[e].runs + 1)
      && (s.cur.Some? && s.cur != Some(e) ==> s'.envs[s.cur.value] == s.envs[s.cur.value].(status := Runnable))
      && (forall f: nat :: f < |s.envs| && f != e && s.cur != Some(f) ==> s'.envs[f] == s.envs[f])
  {
    hide Inv;
    hide IdAfter;
    assert forall f: nat :: Live(EnvRun(s, e).envs, f) <==> Live(s.envs, f);
  }

  // ---- lookup -------------------------------------------------------------------------------

  /** Without the permission check, envid2env finds exactly the live environment that has the id. */
  lemma LookupExact(s: Table, envid: Int32, e: nat)
    requires TableInv(s) && envid != 0
    ensures Envid2env(s, envid, false) == (Some(e), 0) <==> Live(s.envs, e) && s.envs[e].id == envid
    ensures Envid2env(s, envid, false).1 == 0 || Envid2env(s, envid, false) == (None, -E_BAD_ENV)
  {
    if Live(s.envs, e) {
      IdShape(e, s.issued[e]);
    }
    hide Inv;
    hide IdAfter;
  }

  /** With it, of those only curenv and its children. */
  lemma PermissionExact(s: Table, envid: Int32, e: nat)
    requires TableInv(s) && envid != 0 && s.cur.Some?
    ensures Envid2env(s, envid, true) == (Some(e), 0) <==>
      Live(s.envs, e) && s.envs[e].id == envid && (s.cur == Some(e) || s.envs[e].parent == s.envs[s.cur.value].id)
  {
    LookupExact(s, envid, e);
    hide Inv;
    hide IdAfter;
  }

  /** Slot e is the live one with this id and, with checkperm, is curenv or a child of it. */
  ghost predicate Admitted(s: Table, envid: Int32, checkperm: bool, e: nat)
    requires checkperm ==> s.cur.Some? && s.cur.value < |s.envs|
  {
    && e < |s.envs| && s.envs[e].status != Free && s.envs[e].id == envid
    && (checkperm ==> e == s.cur.value || s.envs[e].parent == s.envs[s.cur.value].id)
  }

  /** envid2env for every id: 0 means curenv, and any other id the one admitted slot, if there is one. */
  lemma LookupTotal(s: Table, envid: Int32, checkperm: bool)
    requires TableInv(s) && (checkperm ==> s.cur.Some?)
    ensures var r := Envid2env(s, envid, checkperm);
      if envid == 0 then r == (s.cur, 0)
      else
        && (forall e: nat :: Admitted(s, envid, checkperm, e) ==> r == (Some(e), 0))
        && ((forall e: nat :: !Admitted(s, envid, checkperm, e)) ==> r == (None, -E_BAD_ENV))
  {
    hide Inv;
    if envid != 0 {
      forall e: nat | Admitted(s, envid, checkperm, e) ensures Envid2env(s, envid, checkperm) == (Some(e), 0) {
        IdShape(e, s.issued[e]);
        hide IdAfter;
      }
      if forall e: nat :: !Admitted(s, envid, checkperm, e) {
        assert !Admitted(s, envid, checkperm, Envx(envid));
      }
    }
  }

  /** Live environments' ids are positive, name their slot, and so differ. */
  lemma LiveIds(s: Table, e: nat, f: nat)
    requires TableInv(s) && Live(s.envs, e) && Live(s.envs, f)
    ensures s.envs[e].id > 0 && Envx(s.envs[e].id) == e
    ensures s.envs[e].id == s.envs[f].id ==> e == f
  {
    IdShape(e, s.issued[e]);
    IdShape(f, s.issued[f]);
  }

  // ---- runs ---------------------------------------------------------------------------------

  datatype Step = Alloc(parent: Int32) | Destroy(e: nat) | Switch(e: nat) | Memory(op: Runs.Op)

  /** An operation on the memory of existing environments. */
  predicate Inner(op: Runs.Op) {
    !op.SetupVm? && !op.Teardown? && !op.MapKernel?
  }

  ghost predicate LegalStep(s: Table, step: Step)
    requires TableInv(s)
  {
    match step
    case Alloc(_) => true
    case Destroy(e) => Live(s.envs, e)
    case Switch(e) => Live(s.envs, e) && (s.cur.Some? ==> Live(s.envs, s.cur.value))
    case Memory(op) => Inner(op) && Runs.Legal(s.vm, op)
  }

  ghost function Apply(s: Table, step: Step): Table
    requires TableInv(s) && LegalStep(s, step)
  {
    match step
    case Alloc(parent) => AllocKeepsTable(s, parent); EnvAlloc(s, parent).0
    case Destroy(e) => EnvFree(s, e)
    case Switch(e) => EnvRun(s, e)
    case Memory(op) => s.(vm := Runs.Apply(s.vm, op))
  }

  lemma MemoryKeepsDirs(s: State, op: Runs.Op)
    requires Inv(s) && Runs.Legal(s, op) && Inner(op)
    ensures Inv(Runs.Apply(s, op)) && Runs.Apply(s, op).vm.dirs == s.vm.dirs
  {
    Runs.StepKeeps(s, op);
    match op
    case Alloc(zero) =>
    case Free(q) =>
    case WalkTo(e, i) => PageTables.WalkCreateKeeps(s, multiset{}, e, i);
    case Insert(e, p, i, j, perm) => PageTables.PageInsertKeeps(s, multiset{}, e, p, i, j, perm);
    case Remove(e, i, j) => PageTables.PageRemoveKeeps(s, multiset{}, e, i, j);
    case DataStore(_, _) =>
    case LowPagesFirst =>
  }

  lemma StepKeepsTable(s: Table, step: Step)
    requires TableInv(s) && LegalStep(s, step)
    ensures TableInv(Apply(s, step))
  {
    match step
    case Alloc(parent) => AllocKeepsTable(s, parent);
    case Destroy(e) => FreeKeepsTable(s, e);
    case Switch(e) => RunKeepsTable(s, e);
    case Memory(op) => MemoryKeepsDirs(s.vm, op);
  }

  /** How a step moves one slot: it stays, changes hands for the next id, or stops being live. */
  lemma StepSlot(s: Table, step: Step, e: nat)
    requires TableInv(s) && LegalStep(s, step) && e < NENV
    ensures var s' := Apply(s, step);
      && |s'.issued| == NENV == |s'.envs|
      && (s'.issued[e] == s.issued[e] || s'.issued[e] == s.issued[e] + 1)
      && (s'.issued[e] == s.issued[e] && Live(s'.envs, e) ==> Live(s.envs, e))
  {
    hide Inv;
    hide Rooted;
    hide Listed;
    hide IdAfter;
    hide NextId;
    hide EnvSetupVm;
    hide Vm.EnvFree;
    hide Runs.Apply;
    hide Runs.Legal;
    if step.Alloc? {
      AllocKeepsTable(s, step.parent);
    }
  }

  ghost predicate LegalRun(s: Table, steps: seq<Step>)
    requires TableInv(s)
    decreases |steps|
  {
    steps == [] || (LegalStep(s, steps[0]) && (StepKeepsTable(s, steps[0]); LegalRun(Apply(s, steps[0]), steps[1..])))
  }

  ghost function Run(s: Table, steps: seq<Step>): Table
    requires TableInv(s) && LegalRun(s, steps)
    decreases |steps|
  {
    if steps == [] then s else (StepKeepsTable(s, steps[0]); Run(Apply(s, steps[0]), steps[1..]))
  }

  lemma {:induction false} RunKeepsTableInv(s: Table, steps: seq<Step>, e: nat)
    requires TableInv(s) && LegalRun(s, steps) && e < NENV
    ensures var s' := Run(s, steps);
      && TableInv(s') && s'.issued[e] >= s.issued[e]
      && (s'.issued[e] == s.issued[e] && Live(s'.envs, e) ==> Live(s.envs, e))
    decreases |steps|
  {
    hide TableInv;
    if steps != [] {
      StepKeepsTable(s, steps[0]);
      StepSlot(s, steps[0], e);
      RunKeepsTableInv(Apply(s, steps[0]), steps[1..], e);
    }
  }

  /**
    A freed environment's id finds its slot again, after any run, exactly when the slot is live and
    has since been allocated a positive multiple of 2^19 - 1 times; until then it is rejected.
   */
  lemma StaleIdRejected(s: Table, steps: seq<Step>, e: nat)
    requires TableInv(s) && e < NENV && !Live(s.envs, e) && s.issued[e] > 0
    requires LegalRun(s, steps)
    ensures var s' := Run(s, steps);
      && TableInv(s') && s'.issued[e] >= s.issued[e]
      && (Envid2env(s', s.envs[e].id, false).1 == 0 <==>
            Live(s'.envs, e) && s'.issued[e] > s.issued[e] && (s'.issued[e] - s.issued[e]) % PERIOD == 0)
      && (s'.issued[e] < s.issued[e] + PERIOD ==> Envid2env(s', s.envs[e].id, false) == (None, -E_BAD_ENV))
  {
    hide TableInv;
    RunKeepsTableInv(s, steps, e);
    hide Run;
    hide LegalRun;
    StaleId(s, Run(s, steps), e);
  }

  lemma StaleId(s: Table, s': Table, e: nat)
    requires TableInv(s) && e < NENV && !Live(s.envs, e) && s.issued[e] > 0
    requires TableInv(s') && s'.issued[e] >= s.issued[e] && (s'.issued[e] == s.issued[e] ==> !Live(s'.envs, e))
    ensures Envid2env(s', s.envs[e].id, false).1 == 0 <==>
      Live(s'.envs, e) && s'.issued[e] > s.issued[e] && (s'.issued[e] - s.issued[e]) % PERIOD == 0
    ensures s'.issued[e] < s.issued[e] + PERIOD ==> Envid2env(s', s.envs[e].id, false) == (None, -E_BAD_ENV)
  {
    hide Inv;
    hide Listed;
    hide Rooted;
    hide Envid2env;
    hide IdAfter;
    IdShape(e, s.issued[e]);
    var envid := s.envs[e].id;
    if Live(s'.envs, e) {
      SameIdExact(e, s'.issued[e], s.issued[e]);
      assert s'.envs[e].id == envid <==> (s'.issued[e] - s.issued[e]) % PERIOD == 0;
    }
    LookupBySlot(s', envid, e);
  }

  lemma LookupBySlot(s: Table, envid: Int32, e: nat)
    requires |s.envs| == NENV && e < NENV && Envx(envid) == e && envid != 0 && (s.cur.Some? ==> s.cur.value < NENV)
    ensures Envid2env(s, envid, false) ==
      if Live(s.envs, e) && s.envs[e].id == envid then (Some(e), 0) else (None, -E_BAD_ENV)
  {
  }

  /** How often a run switches to environment e. */
  function Switches(steps: seq<Step>, e: nat): nat {
    if steps == [] then 0 else (if steps[0] == Switch(e) then 1 else 0) + Switches(steps[1..], e)
  }

  lemma StepRuns(s: Table, step: Step, e: nat)
    requires TableInv(s) && LegalStep(s, step) && e < NENV
    ensures var s' := Apply(s, step);
      && |s'.issued| == NENV == |s'.envs|
      && (s'.issued[e] == s.issued[e] ==>
            && s'.envs[e].runs == Ticks(s.envs[e].runs, if step == Switch(e) then 1 else 0)
            && s'.envs[e].id == s.envs[e].id && s'.envs[e].parent == s.envs[e].parent)
      && (s'.issued[e] != s.issued[e] ==> s'.envs[e].runs == 0 && s'.envs[e].tf == FRESHFRAME)
  {
    hide Inv;
    hide Rooted;
    hide Listed;
    hide IdAfter;
    hide NextId;
    hide EnvSetupVm;
    hide Vm.EnvFree;
    hide Runs.Apply;
    hide Runs.Legal;
    if step.Alloc? {
      AllocKeepsTable(s, step.parent);
    }
  }

  lemma TicksAdd(count: Addr, m: nat, n: nat)
    ensures Ticks(Ticks(count, m), n) == Ticks(count, m + n) && Ticks(count, 0) == count
  {
    var q := (count + m) / 0x1_0000_0000;
    assert count + m + n == q * 0x1_0000_0000 + (count + m) % 0x1_0000_0000 + n;
  }

  /**
    As long as the slot is not allocated again, env_runs counts the switches to it, in 32 bits, and it keeps its
    id and its parent.
   */
  lemma {:induction false} RunsCounted(s: Table, steps: seq<Step>, e: nat)
    requires TableInv(s) && LegalRun(s, steps) && e < NENV == |s.envs|
    ensures var s' := Run(s, steps);
      && TableInv(s') && s'.issued[e] >= s.issued[e]
      && (s'.issued[e] == s.issued[e] ==>
            && s'.envs[e].runs == Ticks(s.envs[e].runs, Switches(steps, e))
            && s'.envs[e].id == s.envs[e].id && s'.envs[e].parent == s.envs[e].parent)
    decreases |steps|
  {
    hide TableInv;
    hide Ticks;
    hide Apply;
    hide LegalStep;
    if steps != [] {
      StepKeepsTable(s, steps[0]);
      StepSlot(s, steps[0], e);
      StepRuns(s, steps[0], e);
      RunsCounted(Apply(s, steps[0]), steps[1..], e);
      TicksAdd(s.envs[e].runs, if steps[0] == Switch(e) then 1 else 0, Switches(steps[1..], e));
    } else {
      TicksAdd(s.envs[e].runs, 0, 0);
    }
  }

  /** A new environment is found by its parent, in any state in which it still lives and the parent is curenv. */
  lemma ChildFound(s: Table, parent: Int32, steps: seq<Step>)
    requires TableInv(s) && s.list != [] && s.list[0] < NENV && s.vm.free != []
    requires (AllocKeepsTable(s, parent); LegalRun(EnvAlloc(s, parent).0, steps))
    ensures var e, s1 := s.list[0], EnvAlloc(s, parent).0; var s' := Run(s1, steps);
      && TableInv(s1) && TableInv(s') && s'.issued[e] >= s1.issued[e]
      && (s'.issued[e] == s1.issued[e] && Live(s'.envs, e) && s'.cur.Some? && s'.envs[s'.cur.value].id == parent ==>
            Envid2env(s', s1.envs[e].id, true) == (Some(e), 0))
  {
    AllocKeepsTable(s, parent);
    var e, s1 := s.list[0], EnvAlloc(s, parent).0;
    assert |s1.envs| == NENV;
    RunsCounted(s1, steps, e);
    var s' := Run(s1, steps);
    assert NewSlot(s, s1, e, parent);
    hide TableInv;
    hide LegalRun;
    hide Run;
    if Live(s'.envs, e) && s'.cur.Some? {
      LiveIds(s', e, e);
      PermissionExact(s', s1.envs[e].id, e);
    }
  }

  // ---- env_init -----------------------------------------------------------------------------

  function Upto(n: nat): (list: seq<nat>)
    ensures |list| == n && forall k :: 0 <= k < n ==> list[k] == k
    ensures forall k: nat :: k in list <==> k < n
  {
    if n == 0 then [] else Upto(n - 1) + [n - 1]
  }

  /** After env_init: every slot free, in order, with id 0. */
  ghost predicate Initialized(s: Table) {
    && |s.envs| == NENV == |s.issued| && s.list == Upto(NENV) && s.cur == None
    && (forall e :: 0 <= e < NENV ==> s.envs[e].status == Free && s.envs[e].id == 0 && s.issued[e] == 0)
  }

  lemma InitKeepsTable(s: Table)
    requires Initialized(s) && Inv(s.vm) && s.vm.vm.dirs == map[]
    ensures TableInv(s)
  {
  }

  /** In every state after env_init and any run, the free list and the ids are as they should be. */
  lemma EveryTable(s: Table, steps: seq<Step>, e: nat)
    requires Initialized(s) && Inv(s.vm) && s.vm.vm.dirs == map[] && e < NENV
    requires (InitKeepsTable(s); LegalRun(s, steps))
    ensures var s' := Run(s, steps);
      && NoDup(s'.list) && |s'.envs| == NENV
      && (e in s'.list <==> s'.envs[e].status == Free)
      && (e in s'.vm.vm.dirs <==> s'.envs[e].status != Free)
      && (s'.envs[e].status != Free ==> s'.envs[e].id > 0 && Envx(s'.envs[e].id) == e)
  {
    InitKeepsTable(s);
    RunKeepsTableInv(s, steps, e);
    var s' := Run(s, steps);
    if Live(s'.envs, e) {
      LiveIds(s', e, e);
    }
  }
}
