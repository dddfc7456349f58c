/** Environments as inc/env.h declares them: their number, their status, and their
    identifiers with the generation arithmetic of env_alloc. */
module EnvIds {
  const NENV: nat := 1024
  const GENERATION: int := 4096        // 1 << ENVGENSHIFT
  const INT_MAX: int := 0x7fff_ffff
  const GENERATIONS: int := 524287     // ids a slot runs through before it repeats

  datatype Status = Free | Runnable | NotRunnable

  function ENVX(envid: int): nat { envid % NENV }

  /** 32-bit signed addition wraps around. */
  function Wrap32(x: int): int { if x > INT_MAX then x - 0x1_0000_0000 else x }

  /** The id that env_alloc gives to slot `slot` whose last id was `id`. */
  function NextId(id: int, slot: nat): int {
    var sum := Wrap32(id + GENERATION);
    var generation := sum - sum % NENV;   // & ~(NENV - 1)
    (if generation <= 0 then GENERATION else generation) + slot
  }

  /** The id of a slot after `k` allocations there; env_init starts it at 0. */
  function IdAfter(slot: nat, k: nat): int {
    if k == 0 then 0 else NextId(IdAfter(slot, k - 1), slot)
  }

  lemma LowBits(m: int, slot: nat)
    requires slot < NENV
    ensures (GENERATION * m + slot) % NENV == slot
  {
    assert GENERATION * m + slot == NENV * (4 * m) + slot;
  }

  lemma NextGeneration(slot: nat, g: nat)
    requires slot < NENV && 0 < g <= GENERATIONS
    ensures NextId(GENERATION * g + slot, slot) == GENERATION * (if g == GENERATIONS then 1 else g + 1) + slot
  {
    LowBits(g + 1, slot);
    LowBits(g + 1 - 0x10_0000, slot);
  }

  lemma FirstId(slot: nat)
    requires slot < NENV
    ensures NextId(0, slot) == GENERATION + slot
  {
    LowBits(1, slot);
  }

  lemma NextTurn(k: nat)
    ensures (k + 1) % GENERATIONS == if k % GENERATIONS == GENERATIONS - 1 then 0 else k % GENERATIONS + 1
  {
  }

  /** The ids of a slot are the multiples of 4096 below 2^31, round and round. */
  lemma {:induction false} IdClosedForm(slot: nat, k: nat)
    requires slot < NENV && k > 0
    ensures IdAfter(slot, k) == GENERATION * (1 + (k - 1) % GENERATIONS) + slot
  {
    hide NextId;
    if k == 1 {
      FirstId(slot);
      assert IdAfter(slot, 0) == 0;
    } else {
      IdClosedForm(slot, k - 1);
      NextGeneration(slot, 1 + (k - 2) % GENERATIONS);
      NextTurn(k - 2);
    }
  }

  /** Ids are positive 32-bit numbers that name their slot. */
  lemma IdNamesSlot(slot: nat, k: nat)
    requires slot < NENV && k > 0
    ensures 0 < IdAfter(slot, k) <= INT_MAX && ENVX(IdAfter(slot, k)) == slot
  {
    IdClosedForm(slot, k);
    LowBits(1 + (k - 1) % GENERATIONS, slot);
  }

  /** An id comes back for its slot after every 524287 allocations there, and
      not before. */
  lemma IdReissued(slot: nat, j: nat, k: nat)
    requires slot < NENV && 0 < j < k
    ensures IdAfter(slot, j) == IdAfter(slot, k) <==> (k - j) % GENERATIONS == 0
  {
    hide IdAfter;
    IdClosedForm(slot, j);
    IdClosedForm(slot, k);
    SameRemainder(j - 1, k - 1);
  }

  lemma SameRemainder(x: nat, y: nat)
    requires x <= y
    ensures x % GENERATIONS == y % GENERATIONS <==> (y - x) % GENERATIONS == 0
  {
    var q := y / GENERATIONS - x / GENERATIONS;
    assert y - x == GENERATIONS * q + (y % GENERATIONS - x % GENERATIONS);
  }
}
