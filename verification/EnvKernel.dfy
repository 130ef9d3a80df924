/**
  The environment table of kern/env.c in place: the envs[] array with its intrusive free list, on top
  of the memory system.  Each method follows the function of the same name in `EnvTable`.
 */
module EnvKernel {
  import opened Errors
  import opened Mmu
  import opened VmInvariant
  import opened EnvIds
  import opened EnvTable
  import Vm
  import Kernel

  function At(list: seq<nat>, k: nat): Option<nat> {
    if k < |list| then Some(list[k]) else None
  }

  /** From head, the links visit the slots of list in order, and end. */
  ghost predicate Linked(envs: seq<Env>, head: Option<nat>, list: seq<nat>) {
    head == At(list, 0) && forall k :: 0 <= k < |list| ==> list[k] < |envs| && envs[list[k]].link == At(list, k + 1)
  }

  lemma PopLinked(envs: seq<Env>, envs': seq<Env>, head: Option<nat>, list: seq<nat>)
    requires Linked(envs, head, list) && list != [] && |envs'| == |envs|
    requires forall e :: 0 <= e < |envs| ==> envs'[e].link == envs[e].link
    ensures Linked(envs', envs[list[0]].link, list[1..])
  {
  }

  lemma PushLinked(envs: seq<Env>, envs': seq<Env>, head: Option<nat>, list: seq<nat>, e: nat)
    requires Linked(envs, head, list) && e < |envs| == |envs'| && e !in list
    requires envs'[e].link == head && forall f :: 0 <= f < |envs| && f != e ==> envs'[f] == envs[f]
    ensures Linked(envs', Some(e), [e] + list)
  {
    var list' := [e] + list;
    forall k | 0 <= k < |list'| ensures list'[k] < |envs'| && envs'[list'[k]].link == At(list', k + 1) {
      if k > 0 {
        assert list'[k] == list[k - 1] && list[k - 1] in list;
      }
    }
  }

  lemma HeadFacts(s: Table)
    requires TableInv(s) && s.list != []
    ensures s.list[0] < Vm.NENV == |s.issued| && s.list[0] !in s.vm.vm.dirs && Inv(s.vm)
  {
    HeadIsFree(s.envs, s.list);
    hide Inv;
    hide Listed;
    hide IdAfter;
  }

  lemma LiveFacts(s: Table, e: nat)
    requires TableInv(s) && Live(s.envs, e)
    ensures e < Vm.NENV && e !in s.list && e in s.vm.vm.dirs && Inv(s.vm)
  {
    hide Inv;
    hide IdAfter;
  }

  lemma RootOf(m: Kernel.Machine, e: nat)
    requires m.Valid() && e in m.st.vm.dirs
    ensures e < m.envPgdir.Length && m.envPgdir[e] == Some(m.st.vm.dirs[e])
  {
  }

  lemma NoneLinked(envs: seq<Env>)
    ensures Linked(envs, None, [])
  {
  }

  lemma OneLinked(envs: seq<Env>, e: nat)
    requires e < |envs| && envs[e].link == None
    ensures Linked(envs, Some(e), [e])
  {
  }

  lemma LinkedFrame(envs: seq<Env>, head: Option<nat>, list: seq<nat>, e: nat, env: Env)
    requires Linked(envs, head, list) && e < |envs| && e !in list
    ensures Linked(envs[e := env], head, list)
  {
  }

  lemma SameLinked(envs: seq<Env>, envs': seq<Env>, head: Option<nat>, list: seq<nat>)
    requires Linked(envs, head, list) && |envs'| == |envs|
    requires forall e :: 0 <= e < |envs| ==> envs'[e].link == envs[e].link
    ensures Linked(envs', head, list)
  {
  }

  /** env_alloc's id for slot e. */
  method Generate(id: Int32, e: nat) returns (id': Int32)
    requires e < Vm.NENV
    ensures id' == NextId(id, e)
  {
    var generation := ClearIndex(Add32(id, GENERATION));
    if generation <= 0 {
      generation := GENERATION;
    }
    return generation + e;
  }

  /** A struct Env as mem_init clears it. */
  const CLEARED := Env(None, 0, 0, ENV_TYPE_USER, Free, 0,
                       Trapframe([0, 0, 0, 0, 0, 0, 0, 0], 0, 0, 0, 0, 0, 0, 0, 0, 0))

  /** envs[] and env_free_list. */
  class EnvList {
    const envs: array<Env>
    var envFreeList: Option<nat>
    ghost var list: seq<nat>

    ghost predicate Valid()
      reads this, envs
    {
      envs.Length == Vm.NENV && Linked(envs[..], envFreeList, list)
    }

    /** env_init: every slot free with id 0, on the list in the order of the array. */
    constructor ()
      ensures Valid() && fresh(envs) && list == Upto(Vm.NENV)
      ensures forall e :: 0 <= e < Vm.NENV ==> envs[e].status == Free && envs[e].id == 0
    {
      envs := new Env[Vm.NENV](_ => CLEARED);
      envFreeList := None;
      list := [];
      new;
      EnvInit();
    }

    /** The loops of env_init: each slot is appended at the tail, which a runner finds from the head. */
    method EnvInit()
      requires envs.Length == Vm.NENV && envFreeList == None && list == []
      modifies this, envs
      ensures list == Upto(Vm.NENV) && Valid()
      ensures forall e :: 0 <= e < Vm.NENV ==> envs[e].status == Free && envs[e].id == 0
    {
      hide Linked;
      NoneLinked(envs[..]);
      var firstTime := true;
      for i := 0 to Vm.NENV
        invariant list == Upto(i) && Linked(envs[..], envFreeList, list) && firstTime == (i == 0)
        invariant forall e :: 0 <= e < i ==> envs[e].status == Free && envs[e].id == 0
      {
        LinkedFrame(envs[..], envFreeList, list, i, envs[i].(status := Free, id := 0, link := None));
        envs[i] := envs[i].(status := Free, id := 0, link := None);
        if firstTime {
          envFreeList := Some(i);
          firstTime := false;
          OneLinked(envs[..], i);
          assert Upto(1) == [0];
        } else {
          AppendTail(i);
        }
        list := Upto(i + 1);
      }
    }

    /** The inner loop of env_init. */
    method AppendTail(i: nat)
      requires 0 < i < envs.Length && envs[i].link == None && Linked(envs[..], envFreeList, Upto(i))
      modifies envs
      ensures Linked(envs[..], envFreeList, Upto(i + 1))
      ensures forall e :: 0 <= e < envs.Length ==> envs[e] == old(envs[e]).(link := envs[e].link)
    {
      var runner := envFreeList;
      ghost var k := 0;
      while runner != None
        invariant 0 <= k < i && runner == Some(k)
        invariant envs[..] == old(envs[..])
        decreases i - k
      {
        assert envs[..][Upto(i)[k]].link == At(Upto(i), k + 1);
        if envs[runner.value].link == None {
          envs[runner.value] := envs[runner.value].(link := Some(i));
          break;
        }
        runner := envs[runner.value].link;
        k := k + 1;
      }
    }

    /** The stores of env_alloc once the directory is set up. */
    method TakeHead(e: nat, parent: Int32)
      requires Valid() && envFreeList == Some(e) && e < Vm.NENV
      modifies this, envs
      ensures Valid() && list == old(list)[1..]
      ensures envs[..] == old(envs[..])[e := NewEnv(old(envs[e]), e, parent)]
    {
      var id := Generate(envs[e].id, e);
      ghost var was := envs[..];
      envs[e] := envs[e].(id := id, parent := parent, envType := ENV_TYPE_USER, status := Runnable, runs := 0);
      envs[e] := envs[e].(tf := FRESHFRAME);
      assert list != [] && list[0] == e;
      PopLinked(was, envs[..], envFreeList, list);
      envFreeList := envs[e].link;
      list := list[1..];
    }

    /** The last stores of env_free. */
    method Push(e: nat)
      requires Valid() && e < Vm.NENV && e !in list
      modifies this, envs
      ensures Valid() && list == [e] + old(list)
      ensures envs[..] == old(envs[..])[e := old(envs[e]).(link := At(old(list), 0), status := Free)]
    {
      ghost var was := envs[..];
      envs[e] := envs[e].(status := Free, link := envFreeList);
      PushLinked(was, envs[..], envFreeList, list, e);
      envFreeList := Some(e);
      list := [e] + list;
    }

    /** env_run's stores in an environment. */
    method SetStatus(e: nat, status: Status, runs: Addr)
      requires Valid() && e < Vm.NENV
      modifies envs
      ensures Valid() && envs[..] == old(envs[..])[e := old(envs[e]).(status := status, runs := runs)]
    {
      ghost var was := envs[..];
      envs[e] := envs[e].(status := status, runs := runs);
      SameLinked(was, envs[..], envFreeList, list);
    }
  }

  /** The environments: the table, curenv, and the memory system. */
  class Envs {
    const table: EnvList
    const machine: Kernel.Machine
    var curenv: Option<nat>
    ghost var issued: seq<nat>

    ghost predicate Valid()
      reads this, table, table.envs, machine, machine.pages, machine.mem, machine.envPgdir
    {
      table.Valid() && machine.Valid()
    }

    ghost function Abs(): Table
      reads this, table, table.envs, machine
    {
      Table(table.envs[..], table.list, curenv, issued, machine.st)
    }

    constructor (m: Kernel.Machine)
      requires m.Valid()
      ensures Valid() && fresh(table) && fresh(table.envs) && machine == m && Initialized(Abs()) && Abs().vm == m.st
    {
      hide Upto;
      hide Linked;
      hide m.Valid;
      table := new EnvList();
      machine := m;
      curenv := None;
      issued := seq(Vm.NENV, _ => 0);
    }

    /** env_alloc: 0 and the new environment, -E_NO_FREE_ENV or -E_NO_MEM. */
    method EnvAlloc(parent: Int32) returns (newenv: Option<nat>, r: int)
      requires Valid() && TableInv(Abs())
      modifies this`issued, table, table.envs, machine, machine.pages, machine.mem, machine.envPgdir
      ensures Valid() && TableInv(Abs())
      ensures old(Abs()).list != [] ==> old(Abs()).list[0] < Vm.NENV
      ensures (Abs(), newenv, r) == EnvTable.EnvAlloc(old(Abs()), parent)
    {
      hide TableInv;
      hide Inv;
      hide Vm.EnvSetupVm;
      hide NextId;
      hide machine.Valid;
      AllocKeepsTable(Abs(), parent);
      if table.envFreeList == None {
        return None, -E_NO_FREE_ENV;
      }
      var e := table.envFreeList.value;
      HeadFacts(Abs());
      var setup := machine.EnvSetupVm(e);
      if setup < 0 {
        return None, setup;
      }
      table.TakeHead(e, parent);
      issued := issued[e := issued[e] + 1];
      return Some(e), 0;
    }

    /** env_free */
    method EnvFree(e: nat)
      requires Valid() && TableInv(Abs()) && Live(table.envs[..], e)
      modifies table, table.envs, machine, machine.pages, machine.mem, machine.envPgdir
      ensures Valid() && TableInv(Abs()) && Abs() == EnvTable.EnvFree(old(Abs()), e)
    {
      hide TableInv;
      hide Inv;
      hide Vm.EnvFree;
      hide machine.Valid;
      hide Linked;
      FreeKeepsTable(Abs(), e);
      LiveFacts(Abs(), e);
      machine.EnvFree(e);
      table.Push(e);
    }

    /** env_run, up to the return to user mode: the table, and the directory that it loads into cr3. */
    method EnvRun(e: nat) returns (cr3: nat)
      requires Valid() && TableInv(Abs()) && Live(table.envs[..], e)
      requires curenv.Some? ==> Live(table.envs[..], curenv.value)
      modifies this`curenv, table.envs
      ensures Valid() && TableInv(Abs()) && Abs() == EnvTable.EnvRun(old(Abs()), e)
      ensures e in machine.st.vm.dirs && cr3 == machine.st.vm.dirs[e]
    {
      hide TableInv;
      hide machine.Valid;
      hide Linked;
      RunKeepsTable(Abs(), e);
      LiveFacts(Abs(), e);
      if curenv != None {
        table.SetStatus(curenv.value, Runnable, table.envs[curenv.value].runs);
      }
      curenv := Some(e);
      table.SetStatus(e, Running, Ticks(table.envs[e].runs, 1));
      RootOf(machine, e);
      cr3 := machine.envPgdir[e].value;
    }

    /** envid2env: what it stores through env_store, and 0 or -E_BAD_ENV. */
    method Envid2env(envid: Int32, checkperm: bool) returns (envStore: Option<nat>, r: int)
      requires Valid() && (curenv.Some? ==> curenv.value < Vm.NENV)
      requires checkperm ==> curenv.Some?
      ensures (envStore, r) == EnvTable.Envid2env(Abs(), envid, checkperm)
    {
      if envid == 0 {
        return curenv, 0;
      }
      var e := Envx(envid);
      if table.envs[e].status == Free || table.envs[e].id != envid {
        return None, -E_BAD_ENV;
      }
      if checkperm && Some(e) != curenv && table.envs[e].parent != table.envs[curenv.value].id {
        return None, -E_BAD_ENV;
      }
      return Some(e), 0;
    }
  }
}
