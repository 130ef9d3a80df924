/**
  Environment ids: how env_alloc of kern/env.c derives a slot's next id from its last one in 32-bit
  arithmetic, and when an id comes round again.
 */
module EnvIds {
  import opened Mmu
  import opened Vm

  /** `1 << ENVGENSHIFT` */
  const GENERATION := 4096

  /** How many ids a slot has before the first comes round again. */
  const PERIOD := 0x7_FFFF

  /** 32-bit signed addition, which wraps. */
  function Add32(a: Int32, b: Int32): Int32 {
    (a + b + 0x8000_0000) % 0x1_0000_0000 - 0x8000_0000
  }

  /** `x & ~(NENV - 1)` and `x & (NENV - 1)`, in two's complement. */
  function ClearIndex(x: Int32): Int32 {
    x - x % NENV
  }

  function Envx(envid: Int32): nat {
    envid % NENV
  }

  /** The id that env_alloc gives slot e when the slot's last id was id. */
  function NextId(id: Int32, e: nat): Int32
    requires e < NENV
  {
    var generation := ClearIndex(Add32(id, GENERATION));
    if generation <= 0 then GENERATION + e else generation + e
  }

  /** The id of slot e after n allocations of it; env_init sets it to 0. */
  function IdAfter(e: nat, n: nat): Int32
    requires e < NENV
  {
    if n == 0 then 0 else NextId(IdAfter(e, n - 1), e)
  }

  /** In closed form: ids step by 4096 and start over after 2^19 - 1 of them. */
  lemma {:induction false} IdClosedForm(e: nat, n: nat)
    requires e < NENV && n > 0
    ensures IdAfter(e, n) == ((n - 1) % PERIOD + 1) * GENERATION + e
  {
    if n > 1 {
      IdClosedForm(e, n - 1);
      var k := (n - 2) % PERIOD + 1;
      NextGeneration(k, e);
      NextRemainder(n - 2);
    }
  }

  lemma NextRemainder(m: nat)
    ensures (m + 1) % PERIOD == if m % PERIOD == PERIOD - 1 then 0 else m % PERIOD + 1
  {
  }

  lemma SlotBits(k: nat, e: nat)
    requires e < NENV
    ensures (k * NENV + e) % NENV == e
  {
  }

  lemma LowBits(k: nat, e: nat)
    requires e < NENV
    ensures (k * GENERATION + e) % NENV == e
  {
    SlotBits(4 * k, e);
  }

  lemma NextGeneration(k: nat, e: nat)
    requires 1 <= k <= PERIOD && e < NENV
    ensures k * GENERATION + e < 0x8000_0000
    ensures NextId(k * GENERATION + e, e) == (if k == PERIOD then 1 else k + 1) * GENERATION + e
  {
    if k < PERIOD {
      LowBits(k + 1, e);
      assert Add32(k * GENERATION + e, GENERATION) == (k + 1) * GENERATION + e;
    } else {
      assert Add32(k * GENERATION + e, GENERATION) == -0x8000_0000 + e;
    }
  }

  /** Every issued id is positive and carries its slot in the low ten bits. */
  lemma IdShape(e: nat, n: nat)
    requires e < NENV && n > 0
    ensures IdAfter(e, n) > 0 && Envx(IdAfter(e, n)) == e
  {
    IdClosedForm(e, n);
  }

  /** Two allocations of a slot get the same id exactly when their distance is a multiple of 2^19 - 1. */
  lemma SameIdExact(e: nat, n: nat, m: nat)
    requires e < NENV && n > 0 && m > 0
    ensures IdAfter(e, n) == IdAfter(e, m) <==> (n - m) % PERIOD == 0
  {
    IdClosedForm(e, n);
    IdClosedForm(e, m);
    SameRemainder(n - 1, m - 1);
  }

  lemma SameRemainder(a: nat, b: nat)
    ensures a % PERIOD == b % PERIOD <==> (a - b) % PERIOD == 0
  {
    var qa, qb := a / PERIOD, b / PERIOD;
    assert a - b == PERIOD * (qa - qb) + (a % PERIOD - b % PERIOD);
    var d := (a - b) / PERIOD;
  }
}
