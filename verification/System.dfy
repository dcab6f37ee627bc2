/** Threads and memory together: every address space belongs to exactly one thread record or is still being
    built, a reaped thread's space is torn down with that thread's own stack as the borrowed range, and in
    the end nothing is leaked. */
module System {
  import opened Basics
  import opened Frames
  import opened Paging
  import opened AddressSpace
  import opened Scheduler
  import SR = SchedulerRuns
  import ST = SchedulerTheorems
  import P = Partition
  import Context
  import Mapping

  /** `building` are the address spaces `elf::load` and `spawn_isolated_inner` are working on. */
  datatype Kernel = Kernel(k: SR.Kern, w: P.World, building: set<Frame>)

  function StackRange(t: Thread): Range {
    Range(t.stack, t.stack + Context.STACK_SIZE)
  }

  ghost predicate HasThread(k: SR.Kern, t: Thread)
    requires SR.Framed(k)
  {
    exists h :: SR.Record(k, h) == Some(t)
  }

  /** A thread with an address space has it registered, with its own kernel stack as the borrowed range. */
  predicate Registered(w: P.World, t: Thread) {
    t.table.Some? ==> t.table.value in w.spaces && w.spaces[t.table.value] == StackRange(t)
  }

  /** The spaces are those of the threads plus those being built. */
  predicate SpaceOk(s: Kernel, r: Frame) {
    (r in s.w.spaces <==> r in s.building || SR.AddressSpace(r) in s.k.live)
    && !(r in s.building && SR.AddressSpace(r) in s.k.live)
  }

  ghost predicate Inv(m: P.Machine, s: Kernel) {
    && SR.Inv(s.k) && P.Inv(m, s.w) && s.k.s.kernel == m.kernel
    && (forall t: Thread :: HasThread(s.k, t) ==> Registered(s.w, t))
    && (forall r: Frame :: SpaceOk(s, r))
  }

  datatype Step =
    | Schedule(step: SR.Step)
    | Reap
    | Launch(t: Thread)
    | Build(work: P.Step)

  /** The address space a memory step works on, if it is not the kernel's own. */
  function Site(work: P.Step): Option<Frame> {
    match work
    case Hold => None
    case KernelMap(_, _) => None
    case Create => None
    case Map(r, _, _, _) => Some(r)
    case Share(r) => Some(r)
    case Begin(r, _) => Some(r)
    case Destroy(r) => Some(r)
  }

  predicate DyingWithSpace(k: SR.Kern) {
    SR.Framed(k) && !SR.InOwnCode(k) && SR.Top(k).phase.Forced? && SR.Top(k).phase.dead.table.Some?
  }

  /** `Reap` is the part of `reap_zombie` that frees a thread with an address space; a launched isolated
      thread takes over a finished space; all other memory work is on spaces being built, `Destroy` being
      the cleanup of a refused load. */
  ghost predicate Next(m: P.Machine, s: Kernel, step: Step, s': Kernel) {
    match step
    case Schedule(sched) =>
      && SR.Next(s.k, sched, s'.k) && s'.w == s.w && s'.building == s.building
      && (sched.Launch? ==> sched.t.table.None?) && (sched.Free? ==> !DyingWithSpace(s.k))
    case Reap =>
      && DyingWithSpace(s.k) && SR.Next(s.k, SR.Free, s'.k) && s'.building == s.building
      && P.Next(m, s.w, P.Destroy(SR.Top(s.k).phase.dead.table.value), s'.w)
    case Launch(t) =>
      && t.table.Some? && t.table.value in s.building && Registered(s.w, t)
      && SR.Next(s.k, SR.Launch(t), s'.k) && s'.w == s.w && s'.building == s.building - {t.table.value}
    case Build(work) =>
      && P.Next(m, s.w, work, s'.w) && s'.k == s.k
      && (Site(work).Some? ==> Site(work).value in s.building)
      && s'.building == (if work.Create? then s.building + {s.w.phys.pool[0]}
                         else if work.Destroy? then s.building - {work.root} else s.building)
  }

  // ---------------------------------------------------------------- where thread records come from

  /** A scheduler step creates no thread record but the one it launches. */
  lemma RecordOrigin(k: SR.Kern, step: SR.Step, k': SR.Kern, t: Thread)
    requires SR.Inv(k) && SR.Next(k, step, k') && SR.Framed(k') && HasThread(k', t)
    ensures HasThread(k, t) || step == SR.Launch(t)
  {
    var h :| SR.Record(k', h) == Some(t);
    var c, top := k.s.current, |SR.Mine(k)| - 1;
    hide SR.ActsOk, SR.TableOk, SR.ZombieOk, SR.ResourcesOk, WellFormed;
    if step.Take? && h == SR.InFlight(c, top) {
      assert SR.Record(k, SR.InTable(k.s.zombie.value)) == Some(t);
    } else if step.Launch? && h == SR.InTable(Spawn(k.s, step.t).value.1) {
      assert step == SR.Launch(t);
    } else {
      assert SR.Record(k, h) == Some(t);
    }
  }

  /** The live resources change only when a thread is launched or freed. */
  lemma LiveChange(k: SR.Kern, step: SR.Step, k': SR.Kern)
    requires SR.Next(k, step, k')
    ensures k'.live == if step.Launch? then k.live + SR.ResourcesOf(step.t)
                       else if step.Free? then k.live - SR.ResourcesOf(SR.Top(k).phase.dead) else k.live
    ensures k'.s.kernel == k.s.kernel
  {
  }

  lemma SpacesUnchanged(k: SR.Kern, step: SR.Step, k': SR.Kern, r: Frame)
    requires SR.Next(k, step, k') && (step.Launch? ==> step.t.table.None?) && (step.Free? ==> !DyingWithSpace(k))
    ensures SR.AddressSpace(r) in k'.live <==> SR.AddressSpace(r) in k.live
  {
    LiveChange(k, step, k');
  }

  lemma ScheduleStep(m: P.Machine, s: Kernel, step: Step, s': Kernel)
    requires Inv(m, s) && Next(m, s, step, s') && step.Schedule?
    ensures Inv(m, s')
  {
    hide SR.Inv, P.Inv, SR.Next, Registered;
    SR.StepKeeps(s.k, step.step, s'.k);
    LiveChange(s.k, step.step, s'.k);
    SR.InvFramed(s'.k);
    forall t: Thread | HasThread(s'.k, t)
      ensures Registered(s'.w, t)
    {
      RecordOrigin(s.k, step.step, s'.k, t);
      if t.table.None? {
        NoTable(s'.w, t);
      }
    }
    forall r: Frame
      ensures SpaceOk(s', r)
    {
      assert SpaceOk(s, r);
      SpacesUnchanged(s.k, step.step, s'.k, r);
    }
  }

  lemma NoTable(w: P.World, t: Thread)
    requires t.table.None?
    ensures Registered(w, t)
  {
  }

  lemma LaunchStep(m: P.Machine, s: Kernel, step: Step, s': Kernel)
    requires Inv(m, s) && Next(m, s, step, s') && step.Launch?
    ensures Inv(m, s')
  {
    hide SR.Inv, P.Inv, SR.Next, Registered;
    SR.StepKeeps(s.k, SR.Launch(step.t), s'.k);
    LiveChange(s.k, SR.Launch(step.t), s'.k);
    SR.InvFramed(s'.k);
    forall t: Thread | HasThread(s'.k, t)
      ensures Registered(s'.w, t)
    {
      RecordOrigin(s.k, SR.Launch(step.t), s'.k, t);
    }
    forall r: Frame
      ensures SpaceOk(s', r)
    {
      assert SpaceOk(s, r);
    }
  }

  /** Nobody else holds what a dying thread gives back. */
  lemma DyingAlone(k: SR.Kern, k': SR.Kern, t: Thread)
    requires SR.Inv(k) && DyingWithSpace(k) && SR.Next(k, SR.Free, k') && SR.Framed(k') && HasThread(k', t)
    ensures t.table != SR.Top(k).phase.dead.table
  {
    hide SR.ActsOk, SR.TableOk, SR.ZombieOk, WellFormed;
    var dead := SR.Top(k).phase.dead;
    var me := SR.InFlight(k.s.current, |SR.Mine(k)| - 1);
    var h :| SR.Record(k', h) == Some(t);
    assert h != me && SR.Record(k, h) == Some(t);
    assert SR.Holds(k, me, SR.AddressSpace(dead.table.value));
    ST.HeldOnce(k, me, h, SR.AddressSpace(dead.table.value));
  }

  lemma ReapStep(m: P.Machine, s: Kernel, step: Step, s': Kernel)
    requires Inv(m, s) && Next(m, s, step, s') && step.Reap?
    ensures Inv(m, s')
  {
    hide SR.Inv, P.Inv, SR.Next;
    var dead := SR.Top(s.k).phase.dead;
    SR.StepKeeps(s.k, SR.Free, s'.k);
    P.StepInv(m, s.w, P.Destroy(dead.table.value), s'.w);
    LiveChange(s.k, SR.Free, s'.k);
    SR.InvFramed(s'.k);
    DyingRegistered(s);
    forall t: Thread | HasThread(s'.k, t)
      ensures Registered(s'.w, t)
    {
      RecordOrigin(s.k, SR.Free, s'.k, t);
      DyingAlone(s.k, s'.k, t);
      assert Registered(s.w, t);
    }
    forall r: Frame
      ensures SpaceOk(s', r)
    {
      assert SpaceOk(s, r);
      assert SR.AddressSpace(r) in SR.ResourcesOf(dead) <==> dead.table == Some(r);
    }
  }

  /** The record being reaped is one of the threads, and its space is live. */
  lemma DyingRegistered(s: Kernel)
    requires SR.Inv(s.k) && DyingWithSpace(s.k)
    ensures HasThread(s.k, SR.Top(s.k).phase.dead) && SR.AddressSpace(SR.Top(s.k).phase.dead.table.value) in s.k.live
  {
    hide SR.ActsOk, SR.TableOk, SR.ZombieOk, WellFormed;
    var me := SR.InFlight(s.k.s.current, |SR.Mine(s.k)| - 1);
    assert SR.Record(s.k, me) == Some(SR.Top(s.k).phase.dead);
    assert SR.Holds(s.k, me, SR.AddressSpace(SR.Top(s.k).phase.dead.table.value));
  }

  /** A memory step leaves every address space but its own, and the one it creates, as it was. */
  lemma OtherSpaces(m: P.Machine, w: P.World, work: P.Step, w': P.World, r: Frame)
    requires P.Inv(m, w) && P.Next(m, w, work, w')
    ensures work.Create? ==> w.phys.pool != [] && w.phys.pool[0] !in w.spaces
    ensures Site(work) != Some(r) && !(work.Create? && r == w.phys.pool[0]) ==>
              (r in w'.spaces <==> r in w.spaces) && (r in w.spaces ==> w'.spaces[r] == w.spaces[r])
    ensures Site(work) == Some(r) ==> r in w.spaces && (r in w'.spaces <==> !work.Destroy?)
    ensures work.Create? ==> w.phys.pool[0] in w'.spaces
  {
    if work.Create? {
      P.PoolHeadUnowned(m, w);
    }
    hide P.Inv;
  }

  lemma BuildStep(m: P.Machine, s: Kernel, step: Step, s': Kernel)
    requires Inv(m, s) && Next(m, s, step, s') && step.Build?
    ensures Inv(m, s')
  {
    hide SR.Inv, P.Inv, P.Next;
    P.StepInv(m, s.w, step.work, s'.w);
    SR.InvFramed(s'.k);
    forall r: Frame
      ensures SpaceOk(s', r)
    {
      OtherSpaces(m, s.w, step.work, s'.w, r);
      assert SpaceOk(s, r);
    }
    forall t: Thread | HasThread(s'.k, t)
      ensures Registered(s'.w, t)
    {
      assert Registered(s.w, t);
      if t.table.Some? {
        ThreadSpaceLive(s.k, t);
        assert SpaceOk(s, t.table.value);
        OtherSpaces(m, s.w, step.work, s'.w, t.table.value);
      }
    }
  }

  lemma ThreadSpaceLive(k: SR.Kern, t: Thread)
    requires SR.Inv(k) && HasThread(k, t) && t.table.Some?
    ensures SR.AddressSpace(t.table.value) in k.live
  {
    hide SR.ActsOk, SR.TableOk, SR.ZombieOk, WellFormed;
    var h :| SR.Record(k, h) == Some(t);
    assert SR.Holds(k, h, SR.AddressSpace(t.table.value));
  }

  lemma StepKeeps(m: P.Machine, s: Kernel, step: Step, s': Kernel)
    requires Inv(m, s) && Next(m, s, step, s')
    ensures Inv(m, s')
  {
    hide Inv, Next;
    match step
    case Schedule(_) => ScheduleStep(m, s, step, s');
    case Reap => ReapStep(m, s, step, s');
    case Launch(_) => LaunchStep(m, s, step, s');
    case Build(_) => BuildStep(m, s, step, s');
  }

  // ---------------------------------------------------------------- runs

  ghost predicate Run(m: P.Machine, ss: seq<Kernel>, steps: seq<Step>) {
    && |ss| == |steps| + 1
    && forall i :: 0 <= i < |steps| ==> Next(m, ss[i], steps[i], ss[i + 1])
  }

  lemma {:induction false} RunKeeps(m: P.Machine, ss: seq<Kernel>, steps: seq<Step>, j: nat)
    requires Run(m, ss, steps) && Inv(m, ss[0]) && j < |ss|
    ensures Inv(m, ss[j])
  {
    hide Inv, Next;
    if j > 0 {
      RunKeeps(m, ss, steps, j - 1);
      StepKeeps(m, ss[j - 1], steps[j - 1], ss[j]);
    }
  }

  /** In every run: once no thread with an address space is left and no space is being built, every usable
      frame is available again or held by the kernel itself. */
  lemma NothingLeaked(m: P.Machine, ss: seq<Kernel>, steps: seq<Step>, j: nat, x: Frame)
    requires Run(m, ss, steps) && Inv(m, ss[0]) && j < |ss| && ss[j].building == {}
    requires SR.Framed(ss[j].k) && forall t: Thread :: HasThread(ss[j].k, t) ==> t.table.None?
    ensures x in m.usable <==> x in ss[j].w.phys.pool || x in ss[j].w.held
  {
    RunKeeps(m, ss, steps, j);
    hide Run, Next;
    var s := ss[j];
    forall r: Frame
      ensures r !in s.w.spaces
    {
      assert SpaceOk(s, r);
      NoSpaceLive(s.k, r);
    }
    hide Inv, Owned;
    EmptyPartition(m, s.w, x);
  }

  lemma NoSpaceLive(k: SR.Kern, r: Frame)
    requires SR.Inv(k) && forall t: Thread :: HasThread(k, t) ==> t.table.None?
    ensures SR.AddressSpace(r) !in k.live
  {
    hide SR.ActsOk, SR.TableOk, SR.ZombieOk, WellFormed;
    forall h
      ensures !SR.Holds(k, h, SR.AddressSpace(r))
    {
      if SR.Record(k, h).Some? {
        assert HasThread(k, SR.Record(k, h).value);
      }
    }
  }

  lemma EmptyPartition(m: P.Machine, w: P.World, x: Frame)
    requires P.Inv(m, w) && forall r: Frame :: r !in w.spaces
    ensures x in m.usable <==> x in w.phys.pool || x in w.held
  {
    hide Owned;
  }

  /** When the boot loader hands over: one thread, no address space, every usable frame available. */
  lemma {:induction false} BootKeeps(m: P.Machine, boot: Thread, mem: Memory, regions: seq<Region>)
    requires boot.table == None
    requires Mapping.TableTree(mem, m.kernel)
    requires forall j, k :: 0 <= j < k < |regions| ==> !Overlap(regions[j], regions[k])
    requires m.usable == Elements(FlatFrom(regions, 0))
    requires forall q, t :: Mapping.Names(mem, m.kernel, q, t) ==> t !in m.usable
    requires forall q, x :: |q| == 4 && Private(m.off, q) && Walk(mem, m.kernel, q) == Some(x) ==> x !in m.usable
    ensures Inv(m, Kernel(ST.Boot(boot, m.kernel), P.World(Mapping.Phys(mem, FlatFrom(regions, 0)), {}, map[]), {}))
  {
    hide SR.Inv, P.Inv, FlatFrom, Mapping.TableTree, Mapping.Names, Overlap, Walk;
    ST.BootInv(boot, m.kernel);
    P.BootInv(m, mem, regions);
    var s := Kernel(ST.Boot(boot, m.kernel), P.World(Mapping.Phys(mem, FlatFrom(regions, 0)), {}, map[]), {});
    forall t: Thread | HasThread(s.k, t)
      ensures Registered(s.w, t)
    {
      var h :| SR.Record(s.k, h) == Some(t);
      assert t == boot;
    }
    forall r: Frame
      ensures SpaceOk(s, r)
    {
    }
  }
}
