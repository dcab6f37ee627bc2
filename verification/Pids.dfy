/** Generation-stamped process ids: one id per thread lifetime, and a dead id stays dead. */
module Pids {
  import opened Basics
  import opened Scheduler
  import opened SchedulerRuns
  import opened SchedulerTheorems
  import Bits

  /** Generations from here on lose their top bits in a 64-bit pid. */
  const GENERATION_LIMIT: nat := 0x100_0000_0000_0000

  /** `(generation << 8) | slot` in 64 bits. */
  function PackPid(slot: nat, generation: nat): nat {
    Bits.Or(generation * 256 % U64_LIMIT, slot)
  }

  function UnpackPid(pid: nat): (nat, nat) {
    (Bits.And(pid, 0xFF), pid / 256)
  }

  /** What a pid keeps of a generation. */
  function Stamp(generation: nat): (r: nat)
    ensures r == generation <==> generation < GENERATION_LIMIT
  {
    generation % GENERATION_LIMIT
  }

  /** Packing keeps the slot and the stamp. */
  lemma PackedPid(slot: nat, generation: nat)
    requires slot < 256
    ensures PackPid(slot, generation) == Stamp(generation) * 256 + slot
    ensures UnpackPid(PackPid(slot, generation)) == (slot, Stamp(generation))
  {
    hide Bits.Or, Bits.And, Bits.Pow2;
    Bits.Pow2Values();
    var g, q := Stamp(generation), generation / GENERATION_LIMIT;
    assert generation * 256 == q * U64_LIMIT + g * 256;
    Bits.RemainderUnique(generation * 256, U64_LIMIT, q, g * 256);
    Bits.OrShifted(g, slot, 8);
    var pid := g * 256 + slot;
    Bits.RemainderUnique(pid, 256, g, slot);
    Bits.AndLowMask(pid, 8);
  }

  /** Two lifetimes share a pid exactly when they are in the same slot and their generations agree
      modulo 2^56. */
  lemma SharedPid(slot1: nat, gen1: nat, slot2: nat, gen2: nat)
    requires slot1 < 256 && slot2 < 256
    ensures PackPid(slot1, gen1) == PackPid(slot2, gen2) <==>
            slot1 == slot2 && Stamp(gen1) == Stamp(gen2)
  {
    PackedPid(slot1, gen1);
    PackedPid(slot2, gen2);
    hide PackPid, UnpackPid, Stamp;
  }

  predicate ThreadAlive(s: Sched, pid: nat)
    requires Shaped(s)
  {
    var (slot, generation) := UnpackPid(pid);
    slot < MAX_THREADS && s.threads[slot].Some? && s.gens[slot] == generation
  }

  /** The lifetime of `generation` in `slot` is going on. */
  predicate Living(s: Sched, slot: nat, generation: nat)
    requires Shaped(s)
  {
    Occupied(s, slot) && s.gens[slot] == generation
  }

  /** A pid answers for its own lifetime, for every generation that fits. */
  lemma AliveIsLiving(s: Sched, slot: nat, generation: nat)
    requires Shaped(s) && slot < MAX_THREADS && generation < GENERATION_LIMIT
    ensures ThreadAlive(s, PackPid(slot, generation)) <==> Living(s, slot, generation)
  {
    PackedPid(slot, generation);
    hide PackPid, UnpackPid, Stamp;
  }

  /** The pid `spawn_isolated` and `spawn_user` return is alive at once, exactly while generations fit. */
  lemma NewPidIsAlive(s: Sched, t: Thread)
    requires Shaped(s) && Spawn(s, t).Some?
    ensures var (s', id) := Spawn(s, t).value;
            ThreadAlive(s', PackPid(id, s'.gens[id])) <==> s'.gens[id] < GENERATION_LIMIT
  {
    var (s', id) := Spawn(s, t).value;
    PackedPid(id, s'.gens[id]);
    hide PackPid, UnpackPid, Stamp;
  }

  // ---------------------------------------------------------------- one step

  /** A step starts a generation only in a free slot, and ends one only by reaping. */
  lemma GenerationStep(k: Kern, step: Step, k': Kern, i: nat)
    requires Inv(k) && Next(k, step, k') && i < MAX_THREADS
    ensures Framed(k')
    ensures k.s.gens[i] <= k'.s.gens[i]
    ensures k'.s.gens[i] != k.s.gens[i] ==> step.Launch? && k.s.threads[i].None? && Spawn(k.s, step.t).value.1 == i
    ensures k.s.threads[i].None? && k'.s.threads[i].Some? ==> k.s.gens[i] < k'.s.gens[i]
    ensures k.s.threads[i].Some? && k'.s.threads[i].None? ==> step == Take && k.s.zombie == Some(i)
  {
    StepKeeps(k, step, k');
    hide ActsOk, TableOk, ResourcesOk, ZombieOk, WellFormed;
  }

  /** A lifetime that is over, or was never started, but whose generation was reached. */
  predicate Over(s: Sched, slot: nat, generation: nat)
    requires Shaped(s)
  {
    slot < MAX_THREADS && generation <= s.gens[slot] && !Living(s, slot, generation)
  }

  // ---------------------------------------------------------------- runs

  /** An issued pid that stops being alive stays dead in every later state. */
  lemma {:induction false} DeadStaysDead(ks: seq<Kern>, steps: seq<Step>, i: nat, j: nat, slot: nat, generation: nat)
    requires Run(ks, steps) && Inv(ks[0]) && i <= j < |ks| && generation < GENERATION_LIMIT
    requires Framed(ks[i]) && Over(ks[i].s, slot, generation)
    ensures Framed(ks[j]) && Over(ks[j].s, slot, generation)
    ensures !ThreadAlive(ks[j].s, PackPid(slot, generation))
    decreases j - i
  {
    hide Inv, Next, PackPid, ThreadAlive;
    if i < j {
      DeadStaysDead(ks, steps, i, j - 1, slot, generation);
      RunKeeps(ks, steps, j - 1);
      GenerationStep(ks[j - 1], steps[j - 1], ks[j], slot);
    }
    AliveIsLiving(ks[j].s, slot, generation);
  }

  /** The generation a launch starts. */
  function LaunchedAt(k: Kern, step: Step): (nat, nat)
    requires Framed(k) && step.Launch? && Spawn(k.s, step.t).Some?
  {
    var (s', id) := Spawn(k.s, step.t).value;
    (id, s'.gens[id])
  }

  lemma {:induction false} GenerationsGrow(ks: seq<Kern>, steps: seq<Step>, i: nat, j: nat, slot: nat)
    requires Run(ks, steps) && Inv(ks[0]) && i <= j < |ks| && slot < MAX_THREADS
    ensures Framed(ks[i]) && Framed(ks[j]) && ks[i].s.gens[slot] <= ks[j].s.gens[slot]
    decreases j - i
  {
    RunKeeps(ks, steps, i);
    hide Inv, Next;
    if i < j {
      GenerationsGrow(ks, steps, i, j - 1, slot);
      RunKeeps(ks, steps, j - 1);
      GenerationStep(ks[j - 1], steps[j - 1], ks[j], slot);
    }
  }

  /** Two launches of one run get different pids as long as generations fit. */
  lemma PidsDiffer(ks: seq<Kern>, steps: seq<Step>, i: nat, j: nat)
    requires Run(ks, steps) && Inv(ks[0]) && i < j < |steps| && steps[i].Launch? && steps[j].Launch?
    ensures Framed(ks[i]) && Framed(ks[j]) && Spawn(ks[i].s, steps[i].t).Some? && Spawn(ks[j].s, steps[j].t).Some?
    ensures var (slot1, gen1) := LaunchedAt(ks[i], steps[i]);
            var (slot2, gen2) := LaunchedAt(ks[j], steps[j]);
            gen1 < GENERATION_LIMIT && gen2 < GENERATION_LIMIT ==> PackPid(slot1, gen1) != PackPid(slot2, gen2)
  {
    LaunchGeneration(ks, steps, i);
    LaunchGeneration(ks, steps, j);
    hide Inv, Next, Spawn;
    var (slot1, gen1) := LaunchedAt(ks[i], steps[i]);
    var (slot2, gen2) := LaunchedAt(ks[j], steps[j]);
    GenerationsGrow(ks, steps, i + 1, j, slot2);
    SharedPid(slot1, gen1, slot2, gen2);
    hide PackPid, Stamp;
  }

  lemma LaunchGeneration(ks: seq<Kern>, steps: seq<Step>, i: nat)
    requires Run(ks, steps) && Inv(ks[0]) && i < |steps| && steps[i].Launch?
    ensures Framed(ks[i]) && Framed(ks[i + 1]) && Spawn(ks[i].s, steps[i].t).Some?
    ensures var (slot, generation) := LaunchedAt(ks[i], steps[i]);
            slot < MAX_THREADS && ks[i + 1].s.gens[slot] == generation == ks[i].s.gens[slot] + 1
  {
    RunKeeps(ks, steps, i);
    assert Next(ks[i], steps[i], ks[i + 1]);
    hide WellFormed, ActsOk, TableOk, ResourcesOk, ZombieOk;
  }

  /** `sys_wait` returns 0 when it saw the pid alive and later not alive; then that very thread was
      reaped in between. */
  lemma {:induction false} WaitedUntilReaped(ks: seq<Kern>, steps: seq<Step>, i: nat, j: nat, slot: nat,
                                             generation: nat) returns (l: nat)
    requires Run(ks, steps) && Inv(ks[0]) && i <= j < |ks| && generation < GENERATION_LIMIT && slot < MAX_THREADS
    requires Framed(ks[i]) && Framed(ks[j])
    requires ThreadAlive(ks[i].s, PackPid(slot, generation)) && !ThreadAlive(ks[j].s, PackPid(slot, generation))
    ensures i <= l < j && steps[l] == Take && Framed(ks[l])
    ensures Living(ks[l].s, slot, generation) && ks[l].s.zombie == Some(slot)
    decreases j - i
  {
    hide Inv, Next, PackPid, ThreadAlive;
    AliveIsLiving(ks[i].s, slot, generation);
    AliveIsLiving(ks[j].s, slot, generation);
    assert i < j;
    RunKeeps(ks, steps, j - 1);
    InvFramed(ks[j - 1]);
    AliveIsLiving(ks[j - 1].s, slot, generation);
    if Living(ks[j - 1].s, slot, generation) {
      GenerationStep(ks[j - 1], steps[j - 1], ks[j], slot);
      l := j - 1;
    } else {
      l := WaitedUntilReaped(ks, steps, i, j - 1, slot, generation);
    }
  }
}
