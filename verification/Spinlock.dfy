/**
  The spinlock of lab4/kern/spinlock.c with DEBUG_SPINLOCK, as a state machine over the individual
  loads, stores and xchg instructions of any number of CPUs.  Plain stores go through each CPU's
  store buffer, as on x86: a CPU sees its own buffered stores at once, the others see a store only
  when it is flushed, and xchg waits until the CPU's buffer is empty.
 */
module Spinlock {
  import opened Mmu

  const NPCS := 10

  /** struct spinlock; cpu is None for NULL. */
  datatype Lock = Lock(locked: nat, cpu: Option<nat>, pcs: seq<nat>)

  /** A plain store to the lock's debug fields. */
  datatype Store = Cpu(cpu: Option<nat>) | Pc(i: nat, pc: nat)

  /**
    Where a CPU is.  held: it has returned from spin_lock and not yet released.
    Rest        outside spin_lock and spin_unlock
    LockLoad..  spin_lock, in holding(): about to load locked, then cpu
    Spin        about to xchg(&locked, 1)
    SetCpu      about to store cpu, then pcs[i]
    Unlock..    spin_unlock, in holding()
    ClearPc     about to store pcs[0] = 0, then cpu = 0, then to xchg(&locked, 0)
    Panicked    stopped by the debug check of spin_lock (locking) or spin_unlock
   */
  datatype Where =
    | Rest(held: bool)
    | LockLoadLocked(held: bool) | LockLoadCpu(held: bool) | Spin | SetCpu | SetPcs(i: nat)
    | UnlockLoadLocked(held: bool) | UnlockLoadCpu(held: bool) | ClearPc | ClearCpu | Release
    | Panicked(locking: bool, held: bool)

  datatype Processor = Processor(at: Where, buf: seq<Store>)
  datatype System = System(lock: Lock, cpus: seq<Processor>)

  /**
    Call: CPU c calls spin_lock or spin_unlock.  Exec: its next instruction.  Flush: its oldest store
    reaches memory.
   */
  datatype Step = Call(c: nat, locking: bool) | Exec(c: nat, pc: nat) | Flush(c: nat)

  function Write(lock: Lock, st: Store): Lock {
    match st
    case Cpu(cpu) => lock.(cpu := cpu)
    case Pc(i, pc) => if i < |lock.pcs| then lock.(pcs := lock.pcs[i := pc]) else lock
  }

  /** The lock's cpu field as a CPU with buffer buf loads it. */
  function LoadCpu(cpu: Option<nat>, buf: seq<Store>): Option<nat> {
    if buf == [] then cpu
    else if buf[|buf| - 1].Cpu? then buf[|buf| - 1].cpu
    else LoadCpu(cpu, buf[..|buf| - 1])
  }

  // ---- steps --------------------------------------------------------------------------------

  predicate Enabled(s: System, step: Step) {
    && step.c < |s.cpus|
    && var p := s.cpus[step.c];
      match step
      case Call(_, _) => p.at.Rest?
      case Exec(_, _) => !p.at.Rest? && !p.at.Panicked? && (p.at.Spin? || p.at.Release? ==> p.buf == [])
      case Flush(_) => p.buf != []
  }

  /** The instruction at a CPU's position: where it goes, what it stores, and what xchg writes. */
  function Execute(lock: Lock, p: Processor, c: nat, pc: nat): (Where, seq<Store>, nat)
    requires !p.at.Rest? && !p.at.Panicked?
  {
    match p.at
    case LockLoadLocked(held) => (if lock.locked != 0 then LockLoadCpu(held) else Spin, [], lock.locked)
    case LockLoadCpu(held) =>
      (if LoadCpu(lock.cpu, p.buf) == Some(c) then Panicked(true, held) else Spin, [], lock.locked)
    case Spin => (if lock.locked != 0 then Spin else SetCpu, [], 1)
    case SetCpu => (SetPcs(0), [Cpu(Some(c))], lock.locked)
    case SetPcs(i) => (if i + 1 < NPCS then SetPcs(i + 1) else Rest(true), [Pc(i, pc)], lock.locked)
    case UnlockLoadLocked(held) =>
      (if lock.locked != 0 then UnlockLoadCpu(held) else Panicked(false, held), [], lock.locked)
    case UnlockLoadCpu(held) =>
      (if LoadCpu(lock.cpu, p.buf) == Some(c) then ClearPc else Panicked(false, held), [], lock.locked)
    case ClearPc => (ClearCpu, [Pc(0, 0)], lock.locked)
    case ClearCpu => (Release, [Cpu(None)], lock.locked)
    case Release => (Rest(false), [], 0)
  }

  function Next(s: System, step: Step): System
    requires Enabled(s, step)
  {
    var p := s.cpus[step.c];
    match step
    case Call(c, locking) =>
      s.(cpus := s.cpus[c := p.(at := if locking then LockLoadLocked(p.at.held) else UnlockLoadLocked(p.at.held))])
    case Exec(c, pc) =>
      var (at, stores, locked) := Execute(s.lock, p, c, pc);
      System(s.lock.(locked := locked), s.cpus[c := Processor(at, p.buf + stores)])
    case Flush(c) =>
      System(Write(s.lock, p.buf[0]), s.cpus[c := p.(buf := p.buf[1..])])
  }

  /** After __spin_initlock, with every CPU outside. */
  predicate Init(s: System) {
    && s.lock.locked == 0 && s.lock.cpu == None
    && forall c :: 0 <= c < |s.cpus| ==> s.cpus[c] == Processor(Rest(false), [])
  }

  // ---- the invariant ------------------------------------------------------------------------

  /** Between the xchg that took the lock and the xchg that gives it back. */
  predicate Owns(at: Where) {
    match at
    case Rest(held) => held
    case LockLoadLocked(held) => held
    case LockLoadCpu(held) => held
    case UnlockLoadLocked(held) => held
    case UnlockLoadCpu(held) => held
    case Panicked(_, held) => held
    case Spin => false
    case _ => true
  }

  /** Its ownership is not recorded in cpu yet, or not any more. */
  predicate Unrecorded(at: Where) {
    at.SetCpu? || at.Release?
  }

  predicate MayName(cpu: Option<nat>, c: nat) {
    cpu == None || cpu == Some(c)
  }

  /** While CPU c owns the lock, cpu and every store to it on the way say c or nothing, and c itself reads the truth. */
  ghost predicate OwnerFine(lock: Lock, p: Processor, c: nat) {
    && lock.locked == 1 && MayName(lock.cpu, c)
    && (forall k :: 0 <= k < |p.buf| && p.buf[k].Cpu? ==> MayName(p.buf[k].cpu, c))
    && LoadCpu(lock.cpu, p.buf) == if Unrecorded(p.at) then None else Some(c)
  }

  /** The debug checks have stopped only CPUs that called spin_lock twice or spin_unlock without the lock. */
  predicate StoppedRightly(at: Where) {
    at.Panicked? ==> at.locking == at.held
  }

  ghost predicate InvWith(s: System, owner: Option<nat>) {
    && (forall c :: 0 <= c < |s.cpus| ==> (Owns(s.cpus[c].at) <==> owner == Some(c)))
    && (forall c :: 0 <= c < |s.cpus| && owner != Some(c) ==> s.cpus[c].buf == [])
    && (forall c :: 0 <= c < |s.cpus| ==> StoppedRightly(s.cpus[c].at))
    && match owner
       case None => s.lock.locked == 0 && s.lock.cpu == None
       case Some(o) => o < |s.cpus| && OwnerFine(s.lock, s.cpus[o], o)
  }

  ghost predicate Inv(s: System) {
    exists owner :: InvWith(s, owner)
  }

  /** Flushing changes what memory holds, not what the CPU itself loads. */
  lemma {:induction false} FlushKeepsView(lock: Lock, buf: seq<Store>)
    requires buf != []
    ensures LoadCpu(Write(lock, buf[0]).cpu, buf[1..]) == LoadCpu(lock.cpu, buf)
  {
    if |buf| > 1 && !buf[|buf| - 1].Cpu? {
      FlushKeepsView(lock, buf[..|buf| - 1]);
      assert buf[1..][..|buf| - 2] == buf[..|buf| - 1][1..];
    }
  }

  lemma LoadAfterStore(cpu: Option<nat>, buf: seq<Store>, st: Store)
    ensures LoadCpu(cpu, buf + [st]) == if st.Cpu? then st.cpu else LoadCpu(cpu, buf)
  {
    assert (buf + [st])[..|buf|] == buf;
  }

  lemma EmptyBuffer(cpu: Option<nat>)
    ensures LoadCpu(cpu, []) == cpu
  {
  }

  lemma OwnerExecutes(lock: Lock, p: Processor, c: nat, pc: nat)
    requires !p.at.Rest? && !p.at.Panicked? && (p.at.Spin? || p.at.Release? ==> p.buf == [])
    requires Owns(p.at) && OwnerFine(lock, p, c)
    ensures var (at, stores, locked) := Execute(lock, p, c, pc);
      && StoppedRightly(at)
      && (if Owns(at) then OwnerFine(lock.(locked := locked), Processor(at, p.buf + stores), c)
          else p.buf + stores == [] && locked == 0 && lock.cpu == None)
  {
    hide LoadCpu;
    EmptyBuffer(lock.cpu);
    var (at, stores, locked) := Execute(lock, p, c, pc);
    assert |stores| <= 1;
    if stores == [] {
      assert p.buf + stores == p.buf;
    } else {
      assert stores == [stores[0]];
      LoadAfterStore(lock.cpu, p.buf, stores[0]);
    }
  }

  lemma OtherExecutes(lock: Lock, p: Processor, c: nat, pc: nat)
    requires !p.at.Rest? && !p.at.Panicked? && p.buf == []
    requires !Owns(p.at) && lock.locked <= 1 && lock.cpu != Some(c)
    ensures var (at, stores, locked) := Execute(lock, p, c, pc);
      && StoppedRightly(at) && stores == []
      && (if Owns(at) then lock.locked == 0 && locked == 1 && at == SetCpu else locked == lock.locked)
  {
  }

  function NextOwner(s: System, step: Step, owner: Option<nat>): Option<nat>
    requires Enabled(s, step)
  {
    if Owns(Next(s, step).cpus[step.c].at) then Some(step.c) else if owner == Some(step.c) then None else owner
  }

  lemma StepKeepsWith(s: System, step: Step, owner: Option<nat>)
    requires InvWith(s, owner) && Enabled(s, step)
    ensures InvWith(Next(s, step), NextOwner(s, step, owner))
  {
    var p := s.cpus[step.c];
    match step
    case Call(_, _) =>
    case Exec(c, pc) =>
      if Owns(p.at) {
        OwnerExecutes(s.lock, p, c, pc);
      } else {
        OtherExecutes(s.lock, p, c, pc);
      }
      hide Execute;
    case Flush(_) =>
      FlushKeepsView(s.lock, p.buf);
  }

  lemma StepKeeps(s: System, step: Step)
    requires Inv(s) && Enabled(s, step)
    ensures Inv(Next(s, step))
  {
    var owner :| InvWith(s, owner);
    StepKeepsWith(s, step, owner);
  }

  // ---- runs: any number of CPUs, any interleaving -------------------------------------------

  ghost predicate LegalRun(s: System, steps: seq<Step>)
    decreases |steps|
  {
    steps == [] || (Enabled(s, steps[0]) && LegalRun(Next(s, steps[0]), steps[1..]))
  }

  ghost function Run(s: System, steps: seq<Step>): System
    requires LegalRun(s, steps)
    decreases |steps|
  {
    if steps == [] then s else Run(Next(s, steps[0]), steps[1..])
  }

  lemma {:induction false} RunKeeps(s: System, steps: seq<Step>)
    requires Inv(s) && LegalRun(s, steps)
    ensures Inv(Run(s, steps)) && |Run(s, steps).cpus| == |s.cpus|
    decreases |steps|
  {
    hide Inv;
    if steps != [] {
      StepKeeps(s, steps[0]);
      RunKeeps(Next(s, steps[0]), steps[1..]);
    }
  }

  lemma InitInv(s: System)
    requires Init(s)
    ensures Inv(s)
  {
    assert InvWith(s, None);
  }

  /**
    At most one CPU is between the xchg that takes the lock and the one that gives it back; locked says
    whether one is.
   */
  lemma MutualExclusion(s: System, steps: seq<Step>, c: nat, d: nat)
    requires Init(s) && LegalRun(s, steps)
    requires c < |s.cpus| && d < |s.cpus|
    ensures var s' := Run(s, steps);
      && |s'.cpus| == |s.cpus|
      && (Owns(s'.cpus[c].at) && Owns(s'.cpus[d].at) ==> c == d)
      && (s'.lock.locked == 1 <==> exists o :: 0 <= o < |s'.cpus| && Owns(s'.cpus[o].at))
      && s'.lock.locked <= 1
  {
    InitInv(s);
    RunKeeps(s, steps);
  }

  predicate Moves(step: Step, c: nat) {
    !step.Flush? && step.c == c
  }

  lemma {:induction false} OthersMove(s: System, steps: seq<Step>, c: nat)
    requires LegalRun(s, steps) && c < |s.cpus|
    requires forall step :: step in steps ==> !Moves(step, c)
    ensures |Run(s, steps).cpus| == |s.cpus| && Run(s, steps).cpus[c].at == s.cpus[c].at
    decreases |steps|
  {
    if steps != [] {
      assert !Moves(steps[0], c);
      OthersMove(Next(s, steps[0]), steps[1..], c);
    }
  }

  /**
    holding() loads locked in one state and cpu in a later one, while the other CPUs run.  All the
    same it is true exactly when the CPU that evaluates it owns the lock.
   */
  lemma HoldingExact(s0: System, before: seq<Step>, between: seq<Step>, c: nat)
    requires Init(s0) && LegalRun(s0, before) && c < |s0.cpus|
    requires LegalRun(Run(s0, before), between) && forall step :: step in between ==> !Moves(step, c)
    ensures var s := Run(s0, before); var s' := Run(s, between);
      && |s'.cpus| == |s.cpus| == |s0.cpus|
      && (!Unrecorded(s.cpus[c].at) ==>
            (s.lock.locked != 0 && LoadCpu(s'.lock.cpu, s'.cpus[c].buf) == Some(c) <==> Owns(s.cpus[c].at)))
  {
    InitInv(s0);
    RunKeeps(s0, before);
    var s := Run(s0, before);
    RunKeeps(s, between);
    OthersMove(s, between, c);
    hide Run;
    hide LegalRun;
    HoldingWith(s, Run(s, between), c);
  }

  lemma HoldingWith(s: System, s': System, c: nat)
    requires Inv(s) && Inv(s') && c < |s.cpus| == |s'.cpus| && s'.cpus[c].at == s.cpus[c].at
    ensures !Unrecorded(s.cpus[c].at) ==>
      (s.lock.locked != 0 && LoadCpu(s'.lock.cpu, s'.cpus[c].buf) == Some(c) <==> Owns(s.cpus[c].at))
  {
    var owner' :| InvWith(s', owner');
    assert owner' != Some(c) ==> LoadCpu(s'.lock.cpu, s'.cpus[c].buf) == s'.lock.cpu;
  }

  // ---- taking and giving back ---------------------------------------------------------------

  /** CPU c's next instructions, with these caller pcs, and n flushes of its buffer. */
  function Execs(c: nat, pcs: seq<nat>): (steps: seq<Step>)
    ensures |steps| == |pcs| && forall i :: 0 <= i < |pcs| ==> steps[i] == Exec(c, pcs[i])
  {
    seq(|pcs|, i requires 0 <= i < |pcs| => Exec(c, pcs[i]))
  }

  function Flushes(c: nat, n: nat): (steps: seq<Step>)
    ensures |steps| == n && forall i :: 0 <= i < n ==> steps[i] == Flush(c)
  {
    seq(n, _ => Flush(c))
  }

  /** steps lead from s to s'. */
  ghost predicate Leads(s: System, steps: seq<Step>, s': System) {
    LegalRun(s, steps) && Run(s, steps) == s'
  }

  lemma NoStep(s: System)
    ensures Leads(s, [], s)
  {
  }

  lemma FirstStep(s: System, step: Step, steps: seq<Step>, s': System)
    requires Enabled(s, step) && Leads(Next(s, step), steps, s')
    ensures Leads(s, [step] + steps, s')
  {
    assert ([step] + steps)[1..] == steps;
  }

  lemma {:induction false} ThenLeads(s: System, a: seq<Step>, s1: System, b: seq<Step>, s2: System)
    requires Leads(s, a, s1) && Leads(s1, b, s2)
    ensures Leads(s, a + b, s2)
    decreases |a|
  {
    if a == [] {
      assert a + b == b;
    } else {
      ThenLeads(Next(s, a[0]), a[1..], s1, b, s2);
      FirstStep(s, a[0], a[1..] + b, s2);
      assert [a[0]] + (a[1..] + b) == a + b;
    }
  }

  /** The lock after the stores have reached memory. */
  function WriteAll(lock: Lock, stores: seq<Store>): Lock
    decreases |stores|
  {
    if stores == [] then lock else WriteAll(Write(lock, stores[0]), stores[1..])
  }

  lemma {:induction false} Drains(s: System, c: nat)
    requires c < |s.cpus|
    ensures var buf := s.cpus[c].buf;
      Leads(s, Flushes(c, |buf|), System(WriteAll(s.lock, buf), s.cpus[c := s.cpus[c].(buf := [])]))
    decreases |s.cpus[c].buf|
  {
    var buf := s.cpus[c].buf;
    if buf == [] {
      assert s.cpus[c := s.cpus[c].(buf := [])] == s.cpus;
      NoStep(s);
    } else {
      var s1 := Next(s, Flush(c));
      Drains(s1, c);
      assert s1.cpus[c := s1.cpus[c].(buf := [])] == s.cpus[c := s.cpus[c].(buf := [])];
      FirstStep(s, Flush(c), Flushes(c, |buf| - 1), System(WriteAll(s.lock, buf), s.cpus[c := s.cpus[c].(buf := [])]));
      assert [Flush(c)] + Flushes(c, |buf| - 1) == Flushes(c, |buf|);
    }
  }

  /** The stores of get_caller_pcs from entry i on. */
  function PcStores(pcs: seq<nat>, i: nat): (stores: seq<Store>)
    requires i <= |pcs|
    ensures |stores| == |pcs| - i
    decreases |pcs| - i
  {
    if i == |pcs| then [] else [Pc(i, pcs[i])] + PcStores(pcs, i + 1)
  }

  lemma {:induction false} RecordsPcs(s: System, c: nat, pcs: seq<nat>, i: nat)
    requires c < |s.cpus| && |pcs| == NPCS && i < NPCS && s.cpus[c].at == SetPcs(i)
    ensures Leads(s, Execs(c, pcs[i..]),
                  System(s.lock, s.cpus[c := Processor(Rest(true), s.cpus[c].buf + PcStores(pcs, i))]))
    decreases NPCS - i
  {
    var s1 := Next(s, Exec(c, pcs[i]));
    var s' := System(s.lock, s.cpus[c := Processor(Rest(true), s.cpus[c].buf + PcStores(pcs, i))]);
    assert s1.cpus[c].buf == s.cpus[c].buf + [Pc(i, pcs[i])];
    if i + 1 < NPCS {
      RecordsPcs(s1, c, pcs, i + 1);
      assert s1.cpus[c].buf + PcStores(pcs, i + 1) == s.cpus[c].buf + PcStores(pcs, i);
      assert s1.cpus[c := s'.cpus[c]] == s'.cpus;
    } else {
      assert PcStores(pcs, i) == [Pc(i, pcs[i])];
      assert pcs[i + 1..] == [] && Execs(c, []) == [];
      NoStep(s1);
    }
    FirstStep(s, Exec(c, pcs[i]), Execs(c, pcs[i + 1..]), s');
    assert [Exec(c, pcs[i])] + Execs(c, pcs[i + 1..]) == Execs(c, pcs[i..]);
  }

  lemma {:induction false} PcsWritten(lock: Lock, pcs: seq<nat>, i: nat)
    requires |lock.pcs| == |pcs| && i <= |pcs| && lock.pcs[..i] == pcs[..i]
    ensures WriteAll(lock, PcStores(pcs, i)) == lock.(pcs := pcs)
    decreases |pcs| - i
  {
    if i < |pcs| {
      var lock1 := Write(lock, Pc(i, pcs[i]));
      assert lock1.pcs[..i + 1] == lock.pcs[..i] + [pcs[i]] == pcs[..i + 1];
      PcsWritten(lock1, pcs, i + 1);
      assert PcStores(pcs, i)[1..] == PcStores(pcs, i + 1);
    } else {
      assert lock.pcs == lock.pcs[..i] && pcs == pcs[..i];
    }
  }

  /** The instructions of an undisturbed spin_lock, and of spin_unlock with the flushes that its xchg waits for. */
  function TakeSteps(c: nat, pcs: seq<nat>): seq<Step> {
    [Call(c, true)] + Execs(c, [0, 0, 0]) + Execs(c, pcs) + Flushes(c, NPCS + 1)
  }

  function GiveSteps(c: nat): seq<Step> {
    [Call(c, false)] + Execs(c, [0, 0, 0, 0]) + Flushes(c, 2) + Execs(c, [0])
  }

  /** A free lock is taken: then locked is 1, and cpu and all ten pcs say by whom and from where. */
  lemma TakesFreeLock(s: System, c: nat, pcs: seq<nat>)
    requires c < |s.cpus| && s.cpus[c] == Processor(Rest(false), []) && s.lock.locked == 0
    requires |s.lock.pcs| == |pcs| == 10
    ensures Leads(s, TakeSteps(c, pcs), System(Lock(1, Some(c), pcs), s.cpus[c := Processor(Rest(true), [])]))
  {
    var cs := s.cpus;
    var s4 := System(s.lock.(locked := 1), cs[c := Processor(SetPcs(0), [Cpu(Some(c))])]);
    var s5 := System(s4.lock, cs[c := Processor(Rest(true), [Cpu(Some(c))] + PcStores(pcs, 0))]);
    TakesWord(s, c);
    RecordsPcs(s4, c, pcs, 0);
    assert pcs[0..] == pcs;
    assert s4.cpus[c := s5.cpus[c]] == s5.cpus;
    ThenLeads(s, [Call(c, true)] + Execs(c, [0, 0, 0]), s4, Execs(c, pcs), s5);
    Drains(s5, c);
    var buf := [Cpu(Some(c))] + PcStores(pcs, 0);
    assert buf[1..] == PcStores(pcs, 0);
    PcsWritten(s4.lock.(cpu := Some(c)), pcs, 0);
    assert WriteAll(s5.lock, buf) == Lock(1, Some(c), pcs);
    assert s5.cpus[c := Processor(Rest(true), [])] == cs[c := Processor(Rest(true), [])];
    ThenLeads(s, [Call(c, true)] + Execs(c, [0, 0, 0]) + Execs(c, pcs), s5, Flushes(c, NPCS + 1),
              System(Lock(1, Some(c), pcs), cs[c := Processor(Rest(true), [])]));
  }

  /** Its first four steps: the call, the check's load, the xchg, and the store to cpu. */
  lemma TakesWord(s: System, c: nat)
    requires c < |s.cpus| && s.cpus[c] == Processor(Rest(false), []) && s.lock.locked == 0
    ensures Leads(s, [Call(c, true)] + Execs(c, [0, 0, 0]),
                  System(s.lock.(locked := 1), s.cpus[c := Processor(SetPcs(0), [Cpu(Some(c))])]))
  {
    var cs := s.cpus;
    var s1 := System(s.lock, cs[c := Processor(LockLoadLocked(false), [])]);
    var s2 := System(s.lock, cs[c := Processor(Spin, [])]);
    var s3 := System(s.lock.(locked := 1), cs[c := Processor(SetCpu, [])]);
    var s4 := System(s.lock.(locked := 1), cs[c := Processor(SetPcs(0), [Cpu(Some(c))])]);
    var none: seq<Store> := [];
    assert none + [] == none && none + [Cpu(Some(c))] == [Cpu(Some(c))];
    assert s1.cpus[c := s2.cpus[c]] == s2.cpus && s2.cpus[c := s3.cpus[c]] == s3.cpus;
    assert s3.cpus[c := s4.cpus[c]] == s4.cpus;
    assert Next(s1, Exec(c, 0)) == s2 && Next(s2, Exec(c, 0)) == s3 && Next(s3, Exec(c, 0)) == s4;
    ThreeSteps(s1, s2, s3, s4, c);
    FirstStep(s, Call(c, true), Execs(c, [0, 0, 0]), s4);
  }

  lemma ThreeSteps(s1: System, s2: System, s3: System, s4: System, c: nat)
    requires Enabled(s1, Exec(c, 0)) && s2 == Next(s1, Exec(c, 0))
    requires Enabled(s2, Exec(c, 0)) && s3 == Next(s2, Exec(c, 0))
    requires Enabled(s3, Exec(c, 0)) && s4 == Next(s3, Exec(c, 0))
    ensures Leads(s1, Execs(c, [0, 0, 0]), s4)
  {
    hide Next;
    hide Enabled;
    hide Leads;
    NoStep(s4);
    FirstStep(s3, Exec(c, 0), [], s4);
    FirstStep(s2, Exec(c, 0), [Exec(c, 0)] + [], s4);
    FirstStep(s1, Exec(c, 0), [Exec(c, 0)] + ([Exec(c, 0)] + []), s4);
    assert [Exec(c, 0)] + ([Exec(c, 0)] + ([Exec(c, 0)] + [])) == Execs(c, [0, 0, 0]);
  }

  /** The first five steps of spin_unlock: the call, the check's two loads, and the two stores. */
  lemma ClearsFields(s: System, c: nat)
    requires c < |s.cpus| && s.cpus[c] == Processor(Rest(true), []) && s.lock.locked == 1 && s.lock.cpu == Some(c)
    ensures Leads(s, [Call(c, false)] + Execs(c, [0, 0, 0, 0]),
                  System(s.lock, s.cpus[c := Processor(Release, [Pc(0, 0), Cpu(None)])]))
  {
    var cs, none: seq<Store> := s.cpus, [];
    var s1 := System(s.lock, cs[c := Processor(UnlockLoadLocked(true), [])]);
    var s2 := System(s.lock, cs[c := Processor(UnlockLoadCpu(true), [])]);
    var s3 := System(s.lock, cs[c := Processor(ClearPc, [])]);
    var s4 := System(s.lock, cs[c := Processor(ClearCpu, [Pc(0, 0)])]);
    var s5 := System(s.lock, cs[c := Processor(Release, [Pc(0, 0), Cpu(None)])]);
    assert none + [] == none && none + [Pc(0, 0)] == [Pc(0, 0)] && [Pc(0, 0)] + [Cpu(None)] == [Pc(0, 0), Cpu(None)];
    assert s1.cpus[c := s2.cpus[c]] == s2.cpus && s2.cpus[c := s3.cpus[c]] == s3.cpus;
    assert s3.cpus[c := s4.cpus[c]] == s4.cpus && s4.cpus[c := s5.cpus[c]] == s5.cpus;
    assert Next(s1, Exec(c, 0)) == s2 && Next(s2, Exec(c, 0)) == s3 && Next(s3, Exec(c, 0)) == s4;
    assert Next(s4, Exec(c, 0)) == s5;
    hide Leads;
    ThreeSteps(s2, s3, s4, s5, c);
    FirstStep(s1, Exec(c, 0), Execs(c, [0, 0, 0]), s5);
    assert [Exec(c, 0)] + Execs(c, [0, 0, 0]) == Execs(c, [0, 0, 0, 0]);
    FirstStep(s, Call(c, false), Execs(c, [0, 0, 0, 0]), s5);
  }

  /** Its last: the stores reach memory, and then the xchg. */
  lemma Releases(s: System, c: nat)
    requires c < |s.cpus| && s.cpus[c] == Processor(Release, [Pc(0, 0), Cpu(None)]) && |s.lock.pcs| > 0
    ensures Leads(s, Flushes(c, 2) + Execs(c, [0]),
                  System(Lock(0, None, s.lock.pcs[0 := 0]), s.cpus[c := Processor(Rest(false), [])]))
  {
    var none: seq<Store> := [];
    var s1 := System(s.lock.(cpu := None, pcs := s.lock.pcs[0 := 0]), s.cpus[c := Processor(Release, [])]);
    var s2 := System(Lock(0, None, s.lock.pcs[0 := 0]), s.cpus[c := Processor(Rest(false), [])]);
    Drains(s, c);
    assert [Pc(0, 0), Cpu(None)][1..] == [Cpu(None)] && [Cpu(None)][1..] == none;
    assert none + [] == none && s1.cpus[c := s2.cpus[c]] == s2.cpus;
    assert Next(s1, Exec(c, 0)) == s2;
    hide Next;
    NoStep(s2);
    FirstStep(s1, Exec(c, 0), [], s2);
    assert [Exec(c, 0)] + [] == Execs(c, [0]);
    ThenLeads(s, Flushes(c, 2), s1, Execs(c, [0]), s2);
  }

  /** The holder gives the lock back: then locked is 0, cpu is NULL, and pcs[0] is 0. */
  lemma GivesLockBack(s: System, c: nat)
    requires c < |s.cpus| && s.cpus[c] == Processor(Rest(true), []) && s.lock.locked == 1 && s.lock.cpu == Some(c)
    requires |s.lock.pcs| == 10
    ensures Leads(s, GiveSteps(c),
                  System(Lock(0, None, s.lock.pcs[0 := 0]), s.cpus[c := Processor(Rest(false), [])]))
  {
    var s5 := System(s.lock, s.cpus[c := Processor(Release, [Pc(0, 0), Cpu(None)])]);
    var s7 := System(Lock(0, None, s.lock.pcs[0 := 0]), s.cpus[c := Processor(Rest(false), [])]);
    ClearsFields(s, c);
    Releases(s5, c);
    assert s5.cpus[c := s7.cpus[c]] == s7.cpus;
    hide Leads;
    ThenLeads(s, [Call(c, false)] + Execs(c, [0, 0, 0, 0]), s5, Flushes(c, 2) + Execs(c, [0]), s7);
    assert ([Call(c, false)] + Execs(c, [0, 0, 0, 0])) + (Flushes(c, 2) + Execs(c, [0])) == GiveSteps(c);
  }

  /** A CPU that finds the lock taken spins, and changes nothing. */
  lemma SpinsWhileTaken(s: System, c: nat, pc: nat)
    requires Enabled(s, Exec(c, pc)) && s.cpus[c].at.Spin? && s.lock.locked == 1
    ensures Next(s, Exec(c, pc)) == s
  {
    assert s.cpus[c].buf + [] == s.cpus[c].buf;
    assert s.cpus[c := s.cpus[c]] == s.cpus;
  }

  // ---- the debug panics ---------------------------------------------------------------------

  /** A call is bracketed when spin_lock is called without the lock and spin_unlock with it. */
  predicate Bracketed(s: System, step: Step)
    requires Enabled(s, step)
  {
    step.Call? ==> step.locking != s.cpus[step.c].at.held
  }

  ghost predicate BracketedRun(s: System, steps: seq<Step>)
    requires LegalRun(s, steps)
    decreases |steps|
  {
    steps == [] || (Bracketed(s, steps[0]) && BracketedRun(Next(s, steps[0]), steps[1..]))
  }

  predicate Orderly(at: Where) {
    match at
    case LockLoadLocked(held) => !held
    case LockLoadCpu(held) => !held
    case UnlockLoadLocked(held) => held
    case UnlockLoadCpu(held) => held
    case Panicked(_, _) => false
    case _ => true
  }

  /** The debug check of a call, at its last load: it stops the CPU exactly when the call was not bracketed. */
  lemma ChecksExact(s: System, c: nat, pc: nat)
    requires Inv(s) && Enabled(s, Exec(c, pc))
    ensures var at, at' := s.cpus[c].at, Next(s, Exec(c, pc)).cpus[c].at;
      && (at.LockLoadCpu? ==> (at'.Panicked? <==> at.held))
      && (at.LockLoadLocked? && at.held ==> at' == LockLoadCpu(true))
      && (at.UnlockLoadCpu? ==> (at'.Panicked? <==> !at.held))
      && (at.UnlockLoadLocked? && at.held ==> at' == UnlockLoadCpu(true))
      && (at.LockLoadLocked? && !at.held ==> at' == if s.lock.locked == 0 then Spin else LockLoadCpu(false))
      && (at.LockLoadCpu? && !at.held ==> at' == Spin)
      && (at.UnlockLoadLocked? && !at.held ==>
            at' == if s.lock.locked == 0 then Panicked(false, false) else UnlockLoadCpu(false))
      && (at'.Panicked? ==> at.LockLoadCpu? || at.UnlockLoadLocked? || at.UnlockLoadCpu?)
  {
    HoldingWith(s, s, c);
  }

  lemma {:induction false} OrderlyRun(s: System, steps: seq<Step>)
    requires Inv(s) && LegalRun(s, steps) && BracketedRun(s, steps)
    requires forall c :: 0 <= c < |s.cpus| ==> Orderly(s.cpus[c].at)
    ensures forall c :: 0 <= c < |Run(s, steps).cpus| ==> Orderly(Run(s, steps).cpus[c].at)
    decreases |steps|
  {
    hide Inv;
    if steps != [] {
      var step := steps[0];
      StepKeeps(s, step);
      if step.Exec? {
        ChecksExact(s, step.c, step.pc);
      }
      OrderlyRun(Next(s, step), steps[1..]);
    }
  }

  /** With bracketed use neither debug panic fires, on any CPU, under any interleaving. */
  lemma NoPanic(s: System, steps: seq<Step>, c: nat)
    requires Init(s) && LegalRun(s, steps) && BracketedRun(s, steps) && c < |s.cpus|
    ensures c < |Run(s, steps).cpus| && !Run(s, steps).cpus[c].at.Panicked?
  {
    InitInv(s);
    RunKeeps(s, steps);
    OrderlyRun(s, steps);
  }
}
