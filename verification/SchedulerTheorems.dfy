/** What every run of the scheduler keeps, and exactly which calls need interrupts off. */
module SchedulerTheorems {
  import opened Basics
  import opened Frames
  import opened Scheduler
  import opened SchedulerRuns

  ghost predicate Run(ks: seq<Kern>, steps: seq<Step>) {
    && |ks| == |steps| + 1
    && forall i :: 0 <= i < |steps| ==> Next(ks[i], steps[i], ks[i + 1])
  }

  /** The state `init` sets up: the boot thread runs under the kernel's table and nothing else exists. */
  function Boot(boot: Thread, kernel: Frame): Kern {
    Kern(Sched(seq(MAX_THREADS, i => if i == 0 then Some(boot) else None), [], 0, None,
               seq(MAX_THREADS, i => if i == 0 then 1 else 0), kernel),
         seq(MAX_THREADS, _ => []), kernel, ResourcesOf(boot))
  }

  lemma BootInv(boot: Thread, kernel: Frame)
    requires boot.table == None
    ensures Inv(Boot(boot, kernel)) && ThreeRoles(Boot(boot, kernel).s)
  {
    var k := Boot(boot, kernel);
    forall h, x
      ensures Holds(k, h, x) <==> h == InTable(0) && x in ResourcesOf(boot)
    {
    }
    forall x
      ensures x in k.live <==> exists h :: Holds(k, h, x)
    {
      assert x in k.live ==> Holds(k, InTable(0), x);
    }
  }

  lemma {:induction false} RunKeeps(ks: seq<Kern>, steps: seq<Step>, j: nat)
    requires Run(ks, steps) && Inv(ks[0]) && j < |ks|
    ensures Inv(ks[j])
  {
    hide Inv, Next;
    if j > 0 {
      RunKeeps(ks, steps, j - 1);
      StepKeeps(ks[j - 1], steps[j - 1], ks[j]);
    }
  }

  // ---------------------------------------------------------------- no failure

  /** The step an activation takes next. */
  function Continue(k: Kern): Step
    requires Framed(k) && !InOwnCode(k)
  {
    match Top(k).phase
    case Entered => if Top(k).kind == Heap then Borrow else Take
    case Took(_) => Force
    case Forced(_) => Free
    case Reaped => Decide
    case Borrowed(_) => Return
  }

  /** No activation ever gets stuck in "ready queue full", "no other thread left to run", "the boot
      thread can't exit" or "missing from thread table": its next step is always possible. */
  lemma NoFailure(k: Kern) returns (k': Kern)
    requires Inv(k) && !InOwnCode(k)
    ensures Next(k, Continue(k), k')
    ensures |k.s.queue| < MAX_THREADS
    ensures Occupied(k.s, k.s.current) && forall i :: i in k.s.queue ==> Occupied(k.s, i)
    ensures k.s.zombie.Some? ==> k.s.zombie.value != 0 && Occupied(k.s, k.s.zombie.value)
  {
    QueueBound(k.s);
    assert ActOk(k, k.s.current, |Mine(k)| - 1);
    forall i | i in k.s.queue
      ensures Occupied(k.s, i)
    {
      assert Waiting(k.s, i);
    }
    hide ActsOk, ResourcesOk;
    match Top(k).phase
    case Entered =>
      if Top(k).kind == Heap {
        k' := Move(k, Borrowed(k.cr3)).(cr3 := k.s.kernel);
      } else {
        var (s', dead) := TakeZombie(k.s);
        k' := Move(k, if dead.None? then Reaped else Took(dead.value)).(s := s');
      }
    case Took(dead) =>
      k' := Move(k, Forced(dead)).(cr3 := k.s.kernel);
    case Forced(dead) =>
      k' := Move(k, Reaped).(live := k.live - ResourcesOf(dead));
    case Borrowed(saved) =>
      k' := Pop(k).(cr3 := saved);
    case Reaped =>
      if Top(k).kind == Exit {
        ExitKeeps(k.s);
        var s' := ExitNext(k.s).value;
        k' := k.(acts := k.acts[k.s.current := []]).(s := s', cr3 := TableOf(s', s'.current));
      } else if k.s.queue == [] {
        k' := Pop(k);
      } else {
        SwitchKeeps(k.s);
        var s' := SwitchNext(k.s).value;
        k' := Pop(k).(s := s', cr3 := TableOf(s', s'.current));
      }
  }

  // ---------------------------------------------------------------- page tables

  /** Back in its own code a thread runs under its own table, although reaping forces the kernel's. */
  lemma OwnCodeUnderOwnTable(ks: seq<Kern>, steps: seq<Step>, j: nat)
    requires Run(ks, steps) && Inv(ks[0]) && j < |ks|
    ensures Framed(ks[j]) && Occupied(ks[j].s, ks[j].s.current)
    ensures InOwnCode(ks[j]) ==> ks[j].cr3 == TableOf(ks[j].s, ks[j].s.current)
  {
    hide Next, ActsOk, ResourcesOk, ZombieOk;
    RunKeeps(ks, steps, j);
  }

  predicate TouchesHeap(k: Kern)
    requires Framed(k)
  {
    !InOwnCode(k) && (Top(k).phase.Forced? || Top(k).phase.Borrowed?)
  }

  /** The one unprotected access: reaping with interrupts on, in a thread with its own table. */
  predicate Exposed(k: Kern)
    requires Framed(k) && Occupied(k.s, k.s.current)
  {
    !InOwnCode(k) && Top(k).phase.Forced? && Top(k).ifOn && TableOf(k.s, k.s.current) != k.s.kernel
  }

  /** Every other access to the heap happens under the kernel's table. */
  lemma HeapUnderKernelTable(ks: seq<Kern>, steps: seq<Step>, j: nat)
    requires Run(ks, steps) && Inv(ks[0]) && j < |ks|
    ensures Framed(ks[j]) && Occupied(ks[j].s, ks[j].s.current)
    ensures TouchesHeap(ks[j]) && !Exposed(ks[j]) ==> ks[j].cr3 == ks[j].s.kernel
    ensures j < |steps| && steps[j].Launch? ==> ks[j].cr3 == ks[j].s.kernel
  {
    RunKeeps(ks, steps, j);
    hide Inv, ActsOk, ResourcesOk, ZombieOk, WellFormed;
    HeapTable(ks[j]);
    if j < |steps| {
      assert Next(ks[j], steps[j], ks[j + 1]);
    }
  }

  lemma HeapTable(k: Kern)
    requires Inv(k)
    ensures Framed(k) && Occupied(k.s, k.s.current)
    ensures TouchesHeap(k) && !Exposed(k) ==> k.cr3 == k.s.kernel
    ensures !InOwnCode(k) && Top(k).phase.Borrowed? ==> k.cr3 == k.s.kernel
  {
    hide ActsOk, ResourcesOk, ZombieOk;
  }

  // ---------------------------------------------------------------- preemption in the middle of reaping

  ghost predicate Reaches(k: Kern, k': Kern) {
    exists ks, steps :: Run(ks, steps) && ks[0] == k && ks[|steps|] == k'
  }

  lemma ReachesByStep(k: Kern, step: Step, k': Kern)
    requires Next(k, step, k')
    ensures Reaches(k, k')
  {
    assert Run([k, k'], [step]);
  }

  lemma ReachesThrough(k: Kern, m: Kern, k': Kern)
    requires Reaches(k, m) && Reaches(m, k')
    ensures Reaches(k, k')
  {
    hide Next;
    var ks, steps :| Run(ks, steps) && ks[0] == k && ks[|steps|] == m;
    var ls, more :| Run(ls, more) && ls[0] == m && ls[|more|] == k';
    var all, path := ks + ls[1..], steps + more;
    forall i | 0 <= i < |path|
      ensures Next(all[i], path[i], all[i + 1])
    {
      if i >= |steps| {
        assert Next(ls[i - |steps|], more[i - |steps|], ls[i - |steps| + 1]);
      }
    }
    assert Run(all, path);
  }

  /** What a whole timer interrupt does to the state it interrupts. */
  ghost predicate Ticked(k: Kern, k': Kern) {
    && k'.acts == k.acts && k'.s.kernel == k.s.kernel && k'.s.zombie.None?
    && k.s.queue != [] && k'.s.current == k.s.queue[0] && k'.s.queue == k.s.queue[1..] + [k.s.current]
    && |k'.s.threads| == |k.s.threads|
    && (forall i: nat :: i < |k.s.threads| && (Waiting(k.s, i) || i == k.s.current) ==>
        k'.s.threads[i] == k.s.threads[i])
  }

  lemma PushMove(k: Kern, a: Act, k': Kern, phase: Phase)
    requires Framed(k) && Framed(k') && k'.acts == Push(k, a).acts && k'.s.current == k.s.current
    ensures Move(k', phase).acts == k.acts[k.s.current := Mine(k) + [a.(phase := phase)]]
  {
    assert Mine(k')[|Mine(k)| := a.(phase := phase)] == Mine(k) + [a.(phase := phase)];
  }

  lemma MoveMove(k: Kern, p: Phase, k': Kern, q: Phase)
    requires Framed(k) && !InOwnCode(k) && Framed(k') && k'.acts == Move(k, p).acts && k'.s.current == k.s.current
    ensures Move(k', q).acts == Move(k, q).acts
  {
    var n := |Mine(k)| - 1;
    assert Mine(k)[n := Top(k).(phase := p)][n := Top(k).(phase := q)] == Mine(k)[n := Top(k).(phase := q)];
  }

  lemma MoveNowhere(k: Kern)
    requires Framed(k) && !InOwnCode(k)
    ensures Move(k, Top(k).phase) == k
  {
    assert Mine(k)[|Mine(k)| - 1 := Top(k)] == Mine(k);
    assert k.acts[k.s.current := Mine(k)] == k.acts;
  }

  lemma RunTick(k: Kern) returns (k': Kern)
    requires Inv(k) && Interruptible(k) && k.s.queue != []
    ensures Reaches(k, k') && Inv(k') && Ticked(k, k')
    ensures k'.cr3 == TableOf(k'.s, k'.s.current)
    ensures k.s.zombie.None? ==> k'.s == SwitchNext(k.s).value && k'.live == k.live
  {
    hide Reaches, ActsOk, ResourcesOk, TableOk, ZombieOk, WellFormed;
    var entry := Act(Yield, false, Entered);
    var a := Push(k, entry);
    PushKeeps(k, entry);
    ReachesByStep(k, Tick, a);
    var b := RunTake(a);
    ReachesThrough(k, a, b);
    hide Inv;
    var c := RunReap(b);
    ReachesThrough(k, b, c);
    PushMove(k, entry, a, Reaped);
    MoveMove(a, Top(b).phase, b, Reaped);
    k' := RunDecide(k, c);
    ReachesThrough(k, c, k');
  }

  lemma RunTake(a: Kern) returns (b: Kern)
    requires Inv(a) && At(a, Entered) && Top(a).kind != Heap
    ensures Reaches(a, b) && Inv(b) && b.s == TakeZombie(a.s).0 && b.live == a.live
    ensures !InOwnCode(b) && (Top(b).phase.Reaped? || Top(b).phase.Took?)
    ensures b.acts == Move(a, Top(b).phase).acts && (a.s.zombie.None? <==> Top(b).phase.Reaped?)
  {
    b := NoFailure(a);
    hide Inv;
    TakeStep(a, b);
    ReachesByStep(a, Take, b);
  }

  /** The remaining steps of `reap_zombie`. */
  lemma RunReap(b: Kern) returns (c: Kern)
    requires Inv(b) && !InOwnCode(b) && (Top(b).phase.Reaped? || Top(b).phase.Took?)
    ensures Reaches(b, c) && Inv(c) && c.s == b.s && c.acts == Move(b, Reaped).acts
    ensures Top(b).phase.Reaped? ==> c == b
  {
    assert Framed(b);
    hide Inv;
    if Top(b).phase.Reaped? {
      c := b;
      assert Run([b], []);
      MoveNowhere(b);
    } else {
      var m := NoFailure(b);
      ForceStep(b, m);
      c := RunFree(m);
      ReachesByStep(b, Force, m);
      ReachesThrough(b, m, c);
      MoveMove(b, Top(m).phase, m, Reaped);
    }
  }

  lemma RunFree(m: Kern) returns (c: Kern)
    requires Inv(m) && !InOwnCode(m) && Top(m).phase.Forced?
    ensures Reaches(m, c) && Inv(c) && c.s == m.s && c.acts == Move(m, Reaped).acts
  {
    hide Inv;
    c := NoFailure(m);
    FreeStep(m, c);
    ReachesByStep(m, Free, c);
  }

  lemma RunDecide(k: Kern, c: Kern) returns (k': Kern)
    requires Inv(k) && k.s.queue != [] && Inv(c) && c.s == TakeZombie(k.s).0
    requires c.acts == k.acts[k.s.current := Mine(k) + [Act(Yield, false, Reaped)]]
    ensures Reaches(c, k') && Inv(k') && Ticked(k, k')
    ensures k'.cr3 == TableOf(k'.s, k'.s.current)
    ensures k.s.zombie.None? ==> k'.s == SwitchNext(k.s).value && k'.live == c.live
  {
    k' := NoFailure(c);
    YieldStep(c, k');
    hide Inv;
    ReachesByStep(c, Decide, k');
    assert k'.acts == k.acts;
  }

  /** A waiting thread can be interrupted as soon as it runs again. */
  lemma WaitingInterruptible(k: Kern, k': Kern)
    requires Inv(k) && Ticked(k, k') && Inv(k')
    ensures Interruptible(k')
  {
    var c := k'.s.current;
    assert Waiting(k.s, c);
    if k.acts[c] != [] {
      assert ActOk(k, c, |k.acts[c]| - 1);
    }
  }

  /** Timer interrupts alone bring the thread at queue position `p` back, under its own table and with
      its activations as it left them. */
  lemma {:induction false} RunTicksUntil(k: Kern, p: nat) returns (k': Kern)
    requires Inv(k) && Interruptible(k) && p < |k.s.queue|
    ensures Reaches(k, k') && Inv(k') && k'.acts == k.acts && k'.s.kernel == k.s.kernel
    ensures k'.s.current == k.s.queue[p] && Occupied(k.s, k.s.queue[p])
    ensures k'.s.threads[k.s.queue[p]] == k.s.threads[k.s.queue[p]]
    ensures k'.cr3 == TableOf(k'.s, k'.s.current)
    decreases p
  {
    var t := k.s.queue[p];
    assert Waiting(k.s, t);
    k' := RunTick(k);
    if p > 0 {
      var m := k';
      WaitingInterruptible(k, m);
      assert m.s.queue[p - 1] == t;
      hide Inv;
      k' := RunTicksUntil(m, p - 1);
      ReachesThrough(k, m, k');
    }
  }

  /** One timer interrupt sends the running thread to the back of the queue. */
  lemma RunTickAway(k: Kern) returns (m: Kern)
    requires Inv(k) && Interruptible(k) && k.s.queue != []
    ensures Reaches(k, m) && Inv(m) && Interruptible(m) && m.acts == k.acts && m.s.kernel == k.s.kernel
    ensures m.s.queue != [] && m.s.queue[|m.s.queue| - 1] == k.s.current
    ensures m.s.threads[k.s.current] == k.s.threads[k.s.current]
  {
    hide WellFormed, ActsOk, TableOk, ZombieOk, ResourcesOk, Reaches;
    m := RunTick(k);
    WaitingInterruptible(k, m);
  }

  lemma StillExposed(k: Kern, k': Kern)
    requires Framed(k) && Framed(k') && Occupied(k.s, k.s.current) && Exposed(k)
    requires k'.acts == k.acts && k'.s.current == k.s.current && k'.s.kernel == k.s.kernel
    requires k'.s.threads[k.s.current] == k.s.threads[k.s.current] && k'.cr3 == TableOf(k'.s, k'.s.current)
    ensures TouchesHeap(k') && k'.cr3 != k'.s.kernel
  {
    assert Mine(k') == Mine(k);
  }

  /** Whenever a thread with its own table reaps with interrupts on, some timing of the timer interrupt
      makes it touch the heap under that table, where the heap is not mapped. */
  lemma ExposedReaperFaults(k: Kern) returns (k': Kern)
    requires Inv(k) && Exposed(k)
    ensures Reaches(k, k') && Inv(k') && k'.s.current == k.s.current && k'.acts == k.acts
    ensures TouchesHeap(k') && k'.cr3 != k'.s.kernel
  {
    assert 0 in k.s.queue;
    hide WellFormed, ActsOk, TableOk, ZombieOk, ResourcesOk, Reaches;
    var m := RunTickAway(k);
    k' := RunTicksUntil(m, |m.s.queue| - 1);
    ReachesThrough(k, m, k');
    hide TouchesHeap, Exposed, TableOf;
    StillExposed(k, k');
  }

  // ---------------------------------------------------------------- roles

  /** A step keeps the three roles complete unless it is an exit while a zombie is still pending. */
  lemma RolesStep(k: Kern, step: Step, k': Kern)
    requires Inv(k) && Next(k, step, k')
    ensures ThreeRoles(k'.s) <==> ThreeRoles(k.s) && !(step == Decide && Top(k).kind == Exit && k.s.zombie.Some?)
  {
    hide ActsOk, TableOk, ResourcesOk, ZombieOk, ThreeRoles, WellFormed;
    match step
    case Take => TakeKeeps(k.s);
    case Decide =>
      if Top(k).kind == Exit {
        ExitKeeps(k.s);
      } else if SwitchNext(k.s).Some? {
        SwitchKeeps(k.s);
      }
    case Launch(t) => SpawnKeeps(k.s, t);
    case _ =>
  }

  predicate ExitOff(a: Act) {
    a.kind == Exit ==> !a.ifOn
  }

  ghost predicate ExitsOff(k: Kern)
    requires Framed(k)
  {
    forall i: nat, d: nat :: i < MAX_THREADS && d < |k.acts[i]| ==> ExitOff(k.acts[i][d])
  }

  lemma ExitsOffStep(k: Kern, step: Step, k': Kern)
    requires Inv(k) && Next(k, step, k') && ExitsOff(k) && step != Call(Exit, true)
    ensures Framed(k') && ExitsOff(k')
  {
    StepKeeps(k, step, k');
    hide ActsOk, TableOk, ResourcesOk, ZombieOk, WellFormed;
    forall i: nat, d: nat | i < MAX_THREADS && d < |k'.acts[i]|
      ensures ExitOff(k'.acts[i][d])
    {
      if d < |k.acts[i]| {
        assert ExitOff(k.acts[i][d]);
      }
    }
  }

  /** When every exit is called with interrupts off, as from a system call, every occupied slot has one
      of the three roles in every state, and no exit finds a zombie pending. */
  lemma {:induction false} ThreeRolesKept(ks: seq<Kern>, steps: seq<Step>, j: nat)
    requires Run(ks, steps) && Inv(ks[0]) && ExitsOff(ks[0]) && ThreeRoles(ks[0].s) && j < |ks|
    requires forall i :: 0 <= i < j ==> steps[i] != Call(Exit, true)
    ensures Inv(ks[j]) && ExitsOff(ks[j]) && ThreeRoles(ks[j].s)
    ensures At(ks[j], Reaped) && Top(ks[j]).kind == Exit ==> ks[j].s.zombie.None?
  {
    hide ActsOk, TableOk, ResourcesOk, ThreeRoles, WellFormed;
    if j > 0 {
      var k, k' := ks[j - 1], ks[j];
      ThreeRolesKept(ks, steps, j - 1);
      assert Next(k, steps[j - 1], k');
      StepKeeps(k, steps[j - 1], k');
      ExitsOffStep(k, steps[j - 1], k');
      RolesStep(k, steps[j - 1], k');
    }
    ExitOffNow(ks[j]);
  }

  lemma ExitOffNow(k: Kern)
    requires Inv(k) && ExitsOff(k)
    ensures At(k, Reaped) && Top(k).kind == Exit ==> k.s.zombie.None?
  {
    hide ActsOk, TableOk, ResourcesOk, WellFormed;
    if At(k, Reaped) && Top(k).kind == Exit {
      assert ExitOff(k.acts[k.s.current][|Mine(k)| - 1]);
    }
  }

  // ---------------------------------------------------------------- exits with interrupts on

  lemma RunExitEntry(k: Kern) returns (k': Kern)
    requires Inv(k) && InOwnCode(k) && k.s.current != 0 && k.s.zombie.None?
    ensures Reaches(k, k') && Inv(k') && k'.s == k.s && k'.acts == k.acts[k.s.current := [Act(Exit, true, Reaped)]]
  {
    hide ActsOk, TableOk, ResourcesOk, ZombieOk, WellFormed, Reaches;
    var entry := Act(Exit, true, Entered);
    var a := Push(k, entry);
    PushKeeps(k, entry);
    ReachesByStep(k, Call(Exit, true), a);
    k' := RunTake(a);
    ReachesThrough(k, a, k');
    PushMove(k, entry, a, Reaped);
    assert Mine(k) + [Act(Exit, true, Reaped)] == [Act(Exit, true, Reaped)];
  }

  lemma RunExitDecide(k: Kern) returns (k': Kern)
    requires Inv(k) && At(k, Reaped) && Top(k).kind == Exit
    ensures Reaches(k, k') && Inv(k') && k.s.current != 0 && ExitNext(k.s) == Some(k'.s)
    ensures k'.acts == k.acts[k.s.current := []]
  {
    k' := NoFailure(k);
    ExitStep(k, k');
    hide Inv;
    ReachesByStep(k, Decide, k');
  }

  lemma RunLaunch(k: Kern, t: Thread, id: nat) returns (k': Kern)
    requires Inv(k) && InOwnCode(k) && k.cr3 == k.s.kernel && ResourcesOf(t) !! k.live && t.table != Some(k.s.kernel)
    requires 0 < id < MAX_THREADS && k.s.threads[id].None? && forall j :: 0 <= j < id ==> k.s.threads[j].Some?
    ensures Reaches(k, k') && Inv(k') && k'.acts == k.acts && k'.cr3 == k.cr3 && k'.live == k.live + ResourcesOf(t)
    ensures k'.s == k.s.(threads := k.s.threads[id := Some(t)], gens := k.s.gens[id := k.s.gens[id] + 1],
                         queue := k.s.queue + [id])
  {
    hide ActsOk, TableOk, ResourcesOk, ZombieOk, WellFormed;
    assert Spawn(k.s, t).Some? && Spawn(k.s, t).value.1 == id;
    k' := k.(s := Spawn(k.s, t).value.0, live := k.live + ResourcesOf(t));
    LaunchStep(k, k', t);
    ReachesByStep(k, Launch(t), k');
  }

  lemma RunSetup(boot: Thread, a: Thread, b: Thread, kernel: Frame) returns (k: Kern)
    requires boot.table == None && a.table == None && b.table != Some(kernel)
    requires a.stack != boot.stack && b.stack != boot.stack && a.stack != b.stack
    ensures Reaches(Boot(boot, kernel), k) && Inv(k)
    ensures k.s.current == 0 && k.s.queue == [1, 2] && k.s.zombie.None? && k.acts == Boot(boot, kernel).acts
    ensures Occupied(k.s, 1) && Occupied(k.s, 2) && k.s.threads[2] == Some(b) && k.s.kernel == kernel
  {
    hide ActsOk, TableOk, ResourcesOk, ZombieOk, WellFormed, Reaches;
    var z := Boot(boot, kernel);
    BootInv(boot, kernel);
    var m := RunLaunch(z, a, 1);
    k := RunLaunch(m, b, 2);
    ReachesThrough(z, m, k);
  }

  /** The two timer interrupts that bring the other of two kernel threads in front of the boot thread. */
  lemma RunTwoTicks(k: Kern, x: nat, y: nat, z: nat) returns (k': Kern)
    requires Inv(k) && Interruptible(k) && k.s.zombie.None? && k.s.current == x && k.s.queue == [y, z]
    ensures Reaches(k, k') && Inv(k') && k'.acts == k.acts && k'.s.zombie.None?
    ensures k'.s.current == z && k'.s.queue == [x, y] && k'.s.threads == k.s.threads
  {
    hide ActsOk, TableOk, ResourcesOk, ZombieOk, WellFormed, Reaches;
    var m := RunTick(k);
    WaitingInterruptible(k, m);
    k' := RunTick(m);
    ReachesThrough(k, m, k');
  }

  /** Two kernel threads that exit with interrupts on, the second preempted after it reaped: its exit
      overwrites the pending zombie, and slot 1 stays occupied without any role. */
  lemma InterruptedExitLosesSlot(boot: Thread, a: Thread, b: Thread, kernel: Frame) returns (k: Kern)
    requires boot.table == None && a.table == None && b.table == None
    requires a.stack != boot.stack && b.stack != boot.stack && a.stack != b.stack
    ensures Reaches(Boot(boot, kernel), k) && Inv(k)
    ensures Occupied(k.s, 1) && !HasRole(k.s, 1) && !ThreeRoles(k.s)
  {
    hide ActsOk, TableOk, ResourcesOk, ZombieOk, WellFormed, Reaches;
    var start := Boot(boot, kernel);
    var k0 := RunSetup(boot, a, b, kernel);
    var k1 := RunTwoTicks(k0, 0, 1, 2);
    ReachesThrough(start, k0, k1);
    var k2 := RunExitEntry(k1);
    ReachesThrough(start, k1, k2);
    var k3 := RunTwoTicks(k2, 2, 0, 1);
    ReachesThrough(start, k2, k3);
    var k4 := RunExitEntry(k3);
    ReachesThrough(start, k3, k4);
    var k5 := RunExitDecide(k4);
    ReachesThrough(start, k4, k5);
    k := RunExitDecide(k5);
    ReachesThrough(start, k5, k);
    assert Occupied(k.s, 1) && !HasRole(k.s, 1);
  }

  lemma LostStep(k: Kern, step: Step, k': Kern, i: nat)
    requires Inv(k) && Next(k, step, k') && Occupied(k.s, i) && !HasRole(k.s, i)
    ensures Occupied(k'.s, i) && !HasRole(k'.s, i) && k'.s.threads[i] == k.s.threads[i]
  {
    hide ActsOk, TableOk, ResourcesOk, ZombieOk, WellFormed;
  }

  /** A slot that lost its role is lost for good: in every later state of every run it is still occupied, by
      the same thread, without a role. */
  lemma {:induction false} LostForever(ks: seq<Kern>, steps: seq<Step>, i: nat, j: nat, slot: nat)
    requires Run(ks, steps) && Inv(ks[0]) && i <= j < |ks| && Occupied(ks[i].s, slot) && !HasRole(ks[i].s, slot)
    ensures Occupied(ks[j].s, slot) && !HasRole(ks[j].s, slot) && ks[j].s.threads[slot] == ks[i].s.threads[slot]
    decreases j - i
  {
    hide Inv, Next;
    if i < j {
      LostForever(ks, steps, i, j - 1, slot);
      RunKeeps(ks, steps, j - 1);
      LostStep(ks[j - 1], steps[j - 1], ks[j], slot);
    }
  }

  // ---------------------------------------------------------------- an exposed reaper

  /** A thread that calls exit with interrupts on while a zombie is pending reaches the reaper's middle. */
  lemma RunExitForced(k: Kern) returns (k': Kern)
    requires Inv(k) && InOwnCode(k) && k.s.current != 0 && k.s.zombie.Some?
    ensures Reaches(k, k') && Inv(k') && !InOwnCode(k') && Top(k').phase.Forced? && Top(k').ifOn
    ensures k'.s == TakeZombie(k.s).0
  {
    hide ActsOk, TableOk, ResourcesOk, ZombieOk, WellFormed, Reaches;
    var entry := Act(Exit, true, Entered);
    var a := Push(k, entry);
    PushKeeps(k, entry);
    ReachesByStep(k, Call(Exit, true), a);
    var b := RunTake(a);
    ReachesThrough(k, a, b);
    k' := RunForce(b);
    ReachesThrough(k, b, k');
  }

  lemma RunForce(b: Kern) returns (c: Kern)
    requires Inv(b) && !InOwnCode(b) && Top(b).phase.Took?
    ensures Reaches(b, c) && Inv(c) && c.s == b.s && !InOwnCode(c)
    ensures Top(c) == Top(b).(phase := Forced(Top(b).phase.dead))
  {
    c := NoFailure(b);
    ForceStep(b, c);
    hide Inv;
    ReachesByStep(b, Force, c);
  }

  /** A run from boot that exposes the reaper: a kernel thread exits, and the isolated thread that runs next
      calls exit with interrupts on. From there the fault follows. */
  lemma ExposedReaperReached(boot: Thread, a: Thread, b: Thread, kernel: Frame) returns (k: Kern, k': Kern)
    requires boot.table == None && a.table == None && b.table.Some? && b.table != Some(kernel)
    requires a.stack != boot.stack && b.stack != boot.stack && a.stack != b.stack
    ensures Reaches(Boot(boot, kernel), k) && Inv(k) && Exposed(k)
    ensures Reaches(Boot(boot, kernel), k') && Inv(k') && TouchesHeap(k') && k'.cr3 != k'.s.kernel
  {
    var start := Boot(boot, kernel);
    hide ActsOk, TableOk, ResourcesOk, ZombieOk, WellFormed, Reaches;
    var k0 := RunSetup(boot, a, b, kernel);
    var k1 := RunTick(k0);
    ReachesThrough(start, k0, k1);
    var k2 := RunExitEntry(k1);
    ReachesThrough(start, k1, k2);
    var k3 := RunExitDecide(k2);
    ReachesThrough(start, k2, k3);
    k := RunExitForced(k3);
    ReachesThrough(start, k3, k);
    assert k.s.threads[2] == Some(b);
    k' := ExposedReaperFaults(k);
    ReachesThrough(start, k, k');
  }

  // ---------------------------------------------------------------- reaping

  /** What is being freed is still live, belongs to no thread in the table and to no other reaper, and is
      not the table loaded in CR3. */
  lemma FreedIsUnused(k: Kern)
    requires Inv(k) && !InOwnCode(k) && Top(k).phase.Forced?
    ensures var dead := Top(k).phase.dead;
            && ResourcesOf(dead) <= k.live && dead.table != Some(k.cr3)
            && (forall i: nat :: i < MAX_THREADS && k.s.threads[i].Some? ==>
                ResourcesOf(k.s.threads[i].value) !! ResourcesOf(dead))
            && (forall i, d, x ::
                  InFlight(i, d) != InFlight(k.s.current, |Mine(k)| - 1) && Holds(k, InFlight(i, d), x) ==>
                    x !in ResourcesOf(dead))
  {
    hide ActsOk, ZombieOk;
    var dead := Top(k).phase.dead;
    var me := InFlight(k.s.current, |Mine(k)| - 1);
    assert Record(k, me) == Some(dead);
    forall x | x in ResourcesOf(dead)
      ensures x in k.live
    {
      assert Holds(k, me, x);
    }
    forall i: nat, x | i < MAX_THREADS && k.s.threads[i].Some? && x in ResourcesOf(k.s.threads[i].value)
      ensures x !in ResourcesOf(dead)
    {
      HeldOnce(k, InTable(i), me, x);
    }
    forall i, d, x | InFlight(i, d) != me && Holds(k, InFlight(i, d), x)
      ensures x !in ResourcesOf(dead)
    {
      HeldOnce(k, InFlight(i, d), me, x);
    }
    assert k.cr3 == k.s.kernel || AddressSpace(k.cr3) in ResourcesOf(k.s.threads[k.s.current].value);
  }

  lemma HeldOnce(k: Kern, h: Holder, me: Holder, x: Resource)
    requires Framed(k) && ResourcesOk(k) && h != me && Holds(k, h, x)
    ensures !Holds(k, me, x)
  {
  }

  /** With interrupts off a zombie is reaped before the next scheduling decision. */
  lemma {:induction false} ReapedBeforeDecision(ks: seq<Kern>, steps: seq<Step>, i: nat, j: nat, z: nat)
    returns (l: nat)
    requires Run(ks, steps) && i <= j < |steps| && Inv(ks[i]) && ks[i].s.zombie == Some(z)
    requires forall m :: i <= m < j ==> steps[m] != Decide
    requires steps[j] == Decide && Framed(ks[j]) && !InOwnCode(ks[j]) && !Top(ks[j]).ifOn
    ensures i <= l < j && steps[l] == Take && !Occupied(ks[l + 1].s, z)
    decreases j - i
  {
    hide ActsOk, TableOk, ResourcesOk, WellFormed;
    assert Next(ks[i], steps[i], ks[i + 1]);
    assert i < j by {
      DecisionTop(ks[i]);
    }
    StepKeeps(ks[i], steps[i], ks[i + 1]);
    if steps[i] == Take {
      l := i;
    } else {
      l := ReapedBeforeDecision(ks, steps, i + 1, j, z);
    }
  }

  lemma DecisionTop(k: Kern)
    requires Inv(k)
    ensures At(k, Reaped) && !Top(k).ifOn ==> k.s.zombie.None?
  {
    if At(k, Reaped) {
      assert ActOk(k, k.s.current, |Mine(k)| - 1);
    }
  }

  // ---------------------------------------------------------------- fairness

  /** How many scheduling decisions the first `j` steps contain. */
  function Decisions(steps: seq<Step>, j: nat): nat
    requires j <= |steps|
  {
    if j == 0 then 0 else Decisions(steps, j - 1) + if steps[j - 1] == Decide then 1 else 0
  }

  lemma QueueStep(k: Kern, step: Step, k': Kern, p: nat)
    requires Inv(k) && Next(k, step, k') && p < |k.s.queue|
    ensures step != Decide ==> p < |k'.s.queue| && k'.s.queue[p] == k.s.queue[p]
    ensures step == Decide && p > 0 ==> p - 1 < |k'.s.queue| && k'.s.queue[p - 1] == k.s.queue[p]
    ensures step == Decide && p == 0 ==> k'.s.current == k.s.queue[0]
  {
    hide ActsOk, TableOk, ResourcesOk, ZombieOk, WellFormed;
  }

  /** Round robin: a waiting thread moves up by one at every scheduling decision, whatever else happens. */
  lemma {:induction false} MovesUp(ks: seq<Kern>, steps: seq<Step>, j: nat, p: nat)
    requires Run(ks, steps) && Inv(ks[0]) && j < |ks| && p < |ks[0].s.queue| && Decisions(steps, j) <= p
    ensures p - Decisions(steps, j) < |ks[j].s.queue|
    ensures ks[j].s.queue[p - Decisions(steps, j)] == ks[0].s.queue[p]
  {
    hide Inv, Next;
    if j > 0 {
      MovesUp(ks, steps, j - 1, p);
      RunKeeps(ks, steps, j - 1);
      QueueStep(ks[j - 1], steps[j - 1], ks[j], p - Decisions(steps, j - 1));
    }
  }

  /** The thread at position `p` runs after exactly `p + 1` decisions, at most 15. */
  lemma RoundRobin(ks: seq<Kern>, steps: seq<Step>, j: nat, p: nat)
    requires Run(ks, steps) && Inv(ks[0]) && j < |steps| && p < |ks[0].s.queue|
    requires Decisions(steps, j) == p && steps[j] == Decide
    ensures ks[j + 1].s.current == ks[0].s.queue[p]
    ensures Decisions(steps, j + 1) == p + 1 <= 15
  {
    QueueBound(ks[0].s);
    hide Inv, Next;
    MovesUp(ks, steps, j, p);
    RunKeeps(ks, steps, j);
    QueueStep(ks[j], steps[j], ks[j + 1], 0);
  }
}
