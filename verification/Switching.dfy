/** The scheduler and the processor as one machine: each step of the scheduler is a step of the machine that
    saves and restores contexts, and they agree on the running thread and on CR3 (src/scheduler/mod.rs and
    src/scheduler/context.rs). */
module Switching {
  import opened Basics
  import opened Scheduler
  import SR = SchedulerRuns
  import ST = SchedulerTheorems
  import CR = ContextRuns
  import Context

  datatype Joint = Joint(k: SR.Kern, cpu: CR.Sys)

  /** The slots of the threads that run or wait to run. */
  ghost function Runnable(s: Sched): set<nat> {
    Elements(s.queue) + {s.current}
  }

  function StackOf(t: Thread): CR.Area {
    CR.Area(t.stack, t.stack + Context.STACK_SIZE)
  }

  /** The processor keeps thread `i` on its own stack, the boot loader's for the boot thread, and under its own
      table. */
  ghost predicate Kept(j: Joint, i: nat) {
    Occupied(j.k.s, i) ==>
      && i in j.cpu.stacks && (i != 0 ==> j.cpu.stacks[i] == StackOf(j.k.s.threads[i].value))
      && i in j.cpu.tables && j.cpu.tables[i] == TableOf(j.k.s, i)
  }

  /** Scheduler and processor agree: on who runs, under which table, and on the threads' stacks and tables. */
  ghost predicate Agree(m: CR.Machine, j: Joint) {
    && |m.slots| == MAX_THREADS && m.kernel == j.k.s.kernel
    && j.cpu.current == j.k.s.current && j.cpu.cr3 == j.k.cr3
    && j.cpu.live == Runnable(j.k.s)
    && (forall i :: i in j.cpu.live ==> Kept(j, i))
  }

  ghost predicate Inv(m: CR.Machine, j: Joint) {
    SR.Inv(j.k) && CR.Inv(m, j.cpu) && Agree(m, j)
  }

  /** `Own` is the running thread's own code; `Do` is a step of the scheduler with what the processor does. */
  datatype Step = Own(work: CR.Step) | Do(sched: SR.Step, act: CR.Step)

  /** What the processor does in a scheduler step: `switch_to` for a decision that changes the current thread,
      CR3 writes where the kernel's table is borrowed or given back, the hand-built frame of a launched
      thread, and for the rest only the running thread's own work. */
  ghost predicate Fits(k: SR.Kern, sched: SR.Step, act: CR.Step, k': SR.Kern) {
    match sched
    case Decide =>
      if k'.s.current == k.s.current then act.Work?
      else SR.Framed(k) && !SR.InOwnCode(k) && act == CR.Switch(k'.s.current, SR.Top(k).kind == SR.Exit)
    case Force => act == CR.Force
    case Borrow => act == CR.Force
    case Return => act == if k'.cr3 == k.s.kernel then CR.Force else CR.Restore
    case Launch(t) =>
      && act.Start? && SR.Framed(k) && Spawn(k.s, t).Some? && act.t == Spawn(k.s, t).value.1
      && act.stack == StackOf(t) && act.table == if t.table.Some? then t.table.value else k.s.kernel
    case _ => act.Work?
  }

  ghost predicate Next(m: CR.Machine, j: Joint, step: Step, j': Joint) {
    match step
    case Own(work) => work.Work? && CR.Next(m, j.cpu, work, j'.cpu) && j'.k == j.k
    case Do(sched, act) => SR.Next(j.k, sched, j'.k) && CR.Next(m, j.cpu, act, j'.cpu) && Fits(j.k, sched, act, j'.k)
  }

  /** After `init` the boot thread runs on the boot loader's stack under the kernel's table, and both machines
      agree. */
  lemma BootInv(m: CR.Machine, boot: Thread, cpu: CR.Sys)
    requires boot.table == None && NoDup(m.slots) && |m.slots| == MAX_THREADS
    requires cpu.current == 0 && cpu.live == {0} && cpu.cr3 == m.kernel
    requires 0 in cpu.stacks && CR.Slotted(m, cpu.stacks[0]) && cpu.tables == map[0 := m.kernel]
    ensures Inv(m, Joint(ST.Boot(boot, m.kernel), cpu))
  {
    ST.BootInv(boot, m.kernel);
    CR.StartInv(m, cpu);
    hide SR.Inv, CR.Inv;
    assert Runnable(ST.Boot(boot, m.kernel).s) == {0};
  }

  // ---------------------------------------------------------------- the machines stay together

  lemma QueuedWaits(s: Sched, i: nat)
    requires WellFormed(s) && i in s.queue
    ensures Waiting(s, i)
  {
  }

  /** The runnable threads after a scheduling decision. */
  lemma DecidedRunnable(s: Sched)
    requires WellFormed(s)
    ensures SwitchNext(s).Some? ==>
              SwitchNext(s).value.current != s.current && Runnable(SwitchNext(s).value) == Runnable(s)
    ensures ExitNext(s).Some? ==>
              ExitNext(s).value.current != s.current && Runnable(ExitNext(s).value) == Runnable(s) - {s.current}
  {
    if s.queue != [] {
      var head := s.queue[0];
      QueuedWaits(s, head);
      assert s.queue == [head] + s.queue[1..];
      forall i | i in s.queue
        ensures i != s.current
      {
        QueuedWaits(s, i);
      }
    }
  }

  lemma TakenRunnable(s: Sched, i: nat)
    requires WellFormed(s) && i in Runnable(s)
    ensures var s' := TakeZombie(s).0;
            Occupied(s, i) && Occupied(s', i) && s'.threads[i] == s.threads[i] && Runnable(s') == Runnable(s)
  {
    if i != s.current {
      QueuedWaits(s, i);
    }
  }

  lemma LaunchedRunnable(s: Sched, t: Thread)
    requires WellFormed(s) && Spawn(s, t).Some?
    ensures var (s', id) := Spawn(s, t).value;
            && Runnable(s') == Runnable(s) + {id} && id !in Runnable(s) && s'.current == s.current
            && (forall i :: i in Runnable(s) ==> Occupied(s, i) && s'.threads[i] == s.threads[i])
  {
    var (s', id) := Spawn(s, t).value;
    assert s'.queue[|s.queue|] == id;
    forall i | i in Runnable(s)
      ensures Occupied(s, i)
    {
      if i != s.current {
        QueuedWaits(s, i);
      }
    }
    assert forall i :: i in s'.queue <==> i in s.queue || i == id;
  }

  /** What a decision does to the scheduler: nothing, or another thread under its table. */
  lemma Decided(k: SR.Kern, k': SR.Kern)
    requires SR.Inv(k) && SR.Next(k, SR.Decide, k')
    ensures SR.Framed(k) && !SR.InOwnCode(k) && k'.s.threads == k.s.threads && k'.s.kernel == k.s.kernel
    ensures k'.s.current == k.s.current ==> k'.s == k.s && k'.cr3 == k.cr3
    ensures k'.s.current != k.s.current ==>
              && k'.s.current in Runnable(k.s) && Occupied(k'.s, k'.s.current)
              && k'.cr3 == TableOf(k'.s, k'.s.current)
              && Runnable(k'.s) == if SR.Top(k).kind == SR.Exit then Runnable(k.s) - {k.s.current} else Runnable(k.s)
  {
    DecidedRunnable(k.s);
    HeadRunnable(k.s);
    hide SR.ActsOk, SR.TableOk, SR.ZombieOk, SR.ResourcesOk, WellFormed, Runnable;
  }

  /** What the processor's steps do to what is compared. */
  lemma Acted(m: CR.Machine, s: CR.Sys, act: CR.Step, s': CR.Sys)
    requires CR.Next(m, s, act, s') && !act.Start?
    ensures s'.stacks == s.stacks && s'.tables == s.tables
    ensures s'.current == if act.Switch? then act.to else s.current
    ensures s'.live == if act.Switch? && act.exit then s.live - {s.current} else s.live
    ensures act.Work? ==> s'.cr3 == s.cr3
    ensures act.Force? ==> s'.cr3 == m.kernel
    ensures act.Restore? ==> s.current in s.tables && s'.cr3 == s.tables[s.current]
    ensures act.Switch? ==> act.to in s.tables && s'.cr3 == s.tables[act.to]
  {
    hide Context.HasFrame, Context.SaveFrame;
  }

  lemma DecideAgrees(m: CR.Machine, j: Joint, step: Step, j': Joint)
    requires Inv(m, j) && Next(m, j, step, j') && step.Do? && step.sched.Decide?
    ensures Agree(m, j')
  {
    hide SR.Inv, CR.Inv, SR.Next, CR.Next, Runnable;
    Decided(j.k, j'.k);
    Acted(m, j.cpu, step.act, j'.cpu);
    forall i | i in j'.cpu.live
      ensures Kept(j', i)
    {
      assert Kept(j, i);
    }
    if j'.k.s.current != j.k.s.current {
      assert Kept(j, j'.k.s.current);
    }
  }

  lemma TakeAgrees(m: CR.Machine, j: Joint, step: Step, j': Joint)
    requires Inv(m, j) && Next(m, j, step, j') && step.Do? && step.sched.Take?
    ensures Agree(m, j')
  {
    hide SR.ActsOk, SR.TableOk, SR.ZombieOk, SR.ResourcesOk, Runnable, CR.Inv, WellFormed;
    TakenRunnable(j.k.s, j.k.s.current) by {
      CurrentRunnable(j.k.s);
    }
    forall i | i in j'.cpu.live
      ensures Kept(j', i)
    {
      assert Kept(j, i);
      TakenRunnable(j.k.s, i);
    }
  }

  lemma CurrentRunnable(s: Sched)
    ensures s.current in Runnable(s)
  {
  }

  lemma LaunchAgrees(m: CR.Machine, j: Joint, step: Step, j': Joint)
    requires Inv(m, j) && Next(m, j, step, j') && step.Do? && step.sched.Launch?
    ensures Agree(m, j')
  {
    hide SR.ActsOk, SR.TableOk, SR.ZombieOk, SR.ResourcesOk, Runnable, CR.Inv, WellFormed, CR.Parked;
    LaunchedRunnable(j.k.s, step.sched.t);
    forall i | i in j'.cpu.live
      ensures Kept(j', i)
    {
      if i != step.act.t {
        assert Kept(j, i);
      }
    }
  }

  /** The other steps leave the threads alone, and CR3 as they say. */
  lemma Unscheduled(k: SR.Kern, step: SR.Step, k': SR.Kern)
    requires SR.Inv(k) && SR.Next(k, step, k') && !step.Decide? && !step.Take? && !step.Launch?
    ensures k'.s == k.s && Occupied(k.s, k.s.current)
    ensures step.Force? || step.Borrow? ==> k'.cr3 == k.s.kernel
    ensures step.Return? ==> k'.cr3 == k.s.kernel || k'.cr3 == TableOf(k.s, k.s.current)
    ensures !step.Force? && !step.Borrow? && !step.Return? ==> k'.cr3 == k.cr3
  {
    hide SR.ActsOk, SR.ZombieOk, SR.ResourcesOk;
  }

  lemma OtherAgrees(m: CR.Machine, j: Joint, step: Step, j': Joint)
    requires Inv(m, j) && Next(m, j, step, j') && step.Do?
    requires !step.sched.Decide? && !step.sched.Take? && !step.sched.Launch?
    ensures Agree(m, j')
  {
    hide SR.Inv, CR.Inv, SR.Next, CR.Next, Runnable;
    Unscheduled(j.k, step.sched, j'.k);
    Acted(m, j.cpu, step.act, j'.cpu);
    CurrentRunnable(j.k.s);
    assert Kept(j, j.k.s.current);
    forall i | i in j'.cpu.live
      ensures Kept(j', i)
    {
      assert Kept(j, i);
    }
  }

  lemma OwnAgrees(m: CR.Machine, j: Joint, step: Step, j': Joint)
    requires Inv(m, j) && Next(m, j, step, j') && step.Own?
    ensures Agree(m, j')
  {
    hide SR.Inv, CR.Inv, CR.Next, Runnable;
    Acted(m, j.cpu, step.work, j'.cpu);
    forall i | i in j'.cpu.live
      ensures Kept(j', i)
    {
      assert Kept(j, i);
    }
  }

  /** Every step of scheduler and processor together keeps both invariants and their agreement: in particular
      CR3 after a decision is the table that `switch_to` loaded, the one of the thread made current. */
  lemma StepKeeps(m: CR.Machine, j: Joint, step: Step, j': Joint)
    requires Inv(m, j) && Next(m, j, step, j')
    ensures Inv(m, j')
  {
    if step.Do? && step.sched.Decide? {
      DecideAgrees(m, j, step, j');
    } else if step.Do? && step.sched.Take? {
      TakeAgrees(m, j, step, j');
    } else if step.Do? && step.sched.Launch? {
      LaunchAgrees(m, j, step, j');
    } else if step.Do? {
      OtherAgrees(m, j, step, j');
    } else {
      OwnAgrees(m, j, step, j');
    }
    hide SR.Inv, CR.Inv, SR.Next, CR.Next, Agree, Fits;
    if step.Do? {
      SR.StepKeeps(j.k, step.sched, j'.k);
      CR.StepKeeps(m, j.cpu, step.act, j'.cpu);
    } else {
      CR.StepKeeps(m, j.cpu, step.work, j'.cpu);
    }
  }

  /** A decision for another thread can always be carried out by `switch_to`: that thread is suspended on its
      stack, and the caller, with its return address on its own stack, has room for a frame. */
  lemma DecisionSwitches(m: CR.Machine, j: Joint, k': SR.Kern) returns (act: CR.Step, j': Joint)
    requires Inv(m, j) && SR.Next(j.k, SR.Decide, k') && k'.s.current != j.k.s.current && CR.Ready(j.cpu)
    ensures Next(m, j, Do(SR.Decide, act), j') && j'.k == k' && act.Switch? && act.to == k'.s.current
    ensures j'.cpu.cr3 == TableOf(k'.s, k'.s.current)
  {
    hide SR.Inv, CR.Inv, SR.Next, CR.Next, Runnable, CR.Ready;
    Decided(j.k, k');
    var to, exit := k'.s.current, SR.Top(j.k).kind == SR.Exit;
    var c := RunnableParked(m, j, to);
    act := CR.Switch(to, exit);
    var cpu := SwitchedCpu(m, j.cpu, to, exit, c);
    Acted(m, j.cpu, act, cpu);
    j' := Joint(k', cpu);
  }

  lemma RunnableParked(m: CR.Machine, j: Joint, i: nat) returns (c: Context.Resume)
    requires Inv(m, j) && i in Runnable(j.k.s) && i != j.k.s.current
    ensures i in j.cpu.live && Kept(j, i) && CR.Parked(m, j.cpu, i, c)
  {
    hide SR.Inv, Runnable, CR.Laid;
    assert CR.IsParked(m, j.cpu, i);
    c :| CR.Parked(m, j.cpu, i, c);
  }

  lemma HeadRunnable(s: Sched)
    requires WellFormed(s)
    ensures s.queue != [] ==> s.queue[0] in Runnable(s) && Occupied(s, s.queue[0])
  {
    if s.queue != [] {
      QueuedWaits(s, s.queue[0]);
    }
  }

  lemma SwitchedCpu(m: CR.Machine, s: CR.Sys, to: nat, exit: bool, c: Context.Resume) returns (s': CR.Sys)
    requires CR.Inv(m, s) && CR.Ready(s) && to in s.live && to != s.current && CR.Parked(m, s, to, c)
    ensures CR.Next(m, s, CR.Switch(to, exit), s')
  {
    hide CR.IsParked, Context.HasFrame, Context.SaveFrame;
    var mem := Context.SaveFrame(s.mem, s.regs, s.rsp, m.slots[s.current]);
    s' := CR.Sys(c.regs, c.rip, c.rsp, s.tables[to], mem, to, if exit then s.live - {s.current} else s.live, s.stacks,
                 s.tables);
    assert CR.Slotted(m, s.stacks[s.current]) && CR.Slotted(m, s.stacks[to])
           && CR.Apart(s.stacks[s.current], s.stacks[to]);
    Context.SavedFrame(s.mem, s.regs, s.rsp, m.slots[s.current]);
    Context.FrameElsewhere(s.mem, mem, s.mem[m.slots[to]], c);
  }

  /** A launched thread whose 64 KiB stack, apart from the others, holds a frame as `BuildInitialStack` leaves it
      starts on that stack, in the slot the scheduler gave it, under its own table or the kernel's. */
  lemma LaunchStarts(m: CR.Machine, j: Joint, t: Thread, k': SR.Kern, c: Context.Resume, out: Context.Words, sp: nat)
    returns (id: nat, act: CR.Step, j': Joint)
    requires Inv(m, j) && SR.Next(j.k, SR.Launch(t), k') && CR.Slotted(m, CR.Area(t.stack, t.stack + 65536))
    requires forall u :: u in j.cpu.live && u in j.cpu.stacks ==>
               CR.Apart(CR.Area(t.stack, t.stack + 65536), j.cpu.stacks[u])
    requires Context.HasFrame(out, sp, c) && t.stack <= sp && sp + 56 <= t.stack + 65536
    requires Context.Outside(j.cpu.mem, out, t.stack)
    ensures Next(m, j, Do(SR.Launch(t), act), j') && j'.k == k' && act.Start? && act.t == id && act.entry == c
    ensures id < |m.slots| && act.mem == out[m.slots[id] := sp] && k'.s.threads[id] == Some(t)
    ensures j'.cpu.stacks[id] == CR.Area(t.stack, t.stack + 65536)
    ensures j'.cpu.tables[id] == if t.table.Some? then t.table.value else j.k.s.kernel
  {
    hide SR.ActsOk, SR.TableOk, SR.ZombieOk, SR.ResourcesOk, WellFormed, CR.Inv, Context.HasFrame, Context.Outside,
         Runnable, CR.Next;
    LaunchedRunnable(j.k.s, t);
    id := Spawn(j.k.s, t).value.1;
    var table := if t.table.Some? then t.table.value else j.k.s.kernel;
    var stack, mem := CR.Area(t.stack, t.stack + 65536), out[m.slots[id] := sp];
    act := CR.Start(id, stack, table, mem, c);
    var cpu := j.cpu.(mem := mem, live := j.cpu.live + {id}, stacks := j.cpu.stacks[id := stack],
                      tables := j.cpu.tables[id := table]);
    CR.BuiltIsStart(m, j.cpu, id, t.stack, table, c, out, sp);
    j' := Joint(k', cpu);
  }

  // ---------------------------------------------------------------- runs

  ghost predicate Run(m: CR.Machine, js: seq<Joint>, steps: seq<Step>) {
    && |js| == |steps| + 1
    && forall i :: 0 <= i < |steps| ==> Next(m, js[i], steps[i], js[i + 1])
  }

  lemma {:induction false} RunKeeps(m: CR.Machine, js: seq<Joint>, steps: seq<Step>, i: nat)
    requires Run(m, js, steps) && Inv(m, js[0]) && i < |js|
    ensures Inv(m, js[i])
  {
    hide Inv, Next;
    if i > 0 {
      RunKeeps(m, js, steps, i - 1);
      StepKeeps(m, js[i - 1], steps[i - 1], js[i]);
    }
  }

  function Act(step: Step): CR.Step {
    match step
    case Own(work) => work
    case Do(_, act) => act
  }

  function Cpus(js: seq<Joint>): (ss: seq<CR.Sys>)
    ensures |ss| == |js| && forall i :: 0 <= i < |js| ==> ss[i] == js[i].cpu
  {
    seq(|js|, i requires 0 <= i < |js| => js[i].cpu)
  }

  function Acts(steps: seq<Step>): (acts: seq<CR.Step>)
    ensures |acts| == |steps| && forall i :: 0 <= i < |steps| ==> acts[i] == Act(steps[i])
  {
    seq(|steps|, i requires 0 <= i < |steps| => Act(steps[i]))
  }

  /** Seen from the processor, a run is a run of contexts. */
  lemma ProcessorRun(m: CR.Machine, js: seq<Joint>, steps: seq<Step>)
    requires Run(m, js, steps)
    ensures CR.Run(m, Cpus(js), Acts(steps))
  {
    hide CR.Next, SR.Next, Fits;
    forall i | 0 <= i < |steps|
      ensures CR.Next(m, Cpus(js)[i], Acts(steps)[i], Cpus(js)[i + 1])
    {
      assert Next(m, js[i], steps[i], js[i + 1]);
    }
  }

  /** Over every run of scheduler and processor: a thread that the scheduler takes off the processor at step
      `i`, other than by its exit, and next makes current at step `n` continues with exactly the registers,
      stack pointer and return address it had, under the table the scheduler has for it. */
  lemma RescheduledExactly(m: CR.Machine, js: seq<Joint>, steps: seq<Step>, i: nat, n: nat)
    requires Run(m, js, steps) && Inv(m, js[0]) && i < n < |steps|
    requires steps[i].Do? && steps[i].sched.Decide? && js[i + 1].k.s.current != js[i].k.s.current
    requires SR.Framed(js[i].k) && !SR.InOwnCode(js[i].k) && SR.Top(js[i].k).kind != SR.Exit
    requires steps[n].Do? && steps[n].sched.Decide? && js[n + 1].k.s.current == js[i].k.s.current
    requires forall l :: i < l <= n ==> js[l].k.s.current != js[i].k.s.current
    ensures var was, now, t := js[i].cpu, js[n + 1].cpu, js[i].k.s.current;
            && was.rsp in was.mem && Context.Resume(now.regs, now.rip, now.rsp) == CR.Here(was)
            && Occupied(js[n + 1].k.s, t) && now.cr3 == TableOf(js[n + 1].k.s, t) == js[n + 1].k.cr3
  {
    hide SR.Inv, CR.Inv, CR.Next, SR.Next, Kept, Runnable, Fits, Cpus, Acts;
    ProcessorRun(m, js, steps);
    RunKeeps(m, js, steps, n);
    assert Next(m, js[i], steps[i], js[i + 1]) && Next(m, js[n], steps[n], js[n + 1]);
    SwitchAct(m, js[i], steps[i], js[i + 1]);
    SwitchAct(m, js[n], steps[n], js[n + 1]);
    Decided(js[n].k, js[n + 1].k);
    SameCurrent(m, js, steps);
    hide Next, Run, CR.Run, Inv;
    CR.ResumedExactly(m, Cpus(js), Acts(steps), i, n);
  }

  /** Over every run of scheduler and processor: a thread launched with six zero words and then the trampoline's
      address at its saved stack pointer begins at the trampoline, with its registers zero and under the
      table the scheduler has for it, when the scheduler first makes it current. */
  lemma LaunchedBegins(m: CR.Machine, js: seq<Joint>, steps: seq<Step>, i: nat, n: nat, sp: nat, trampoline: nat)
    requires Run(m, js, steps) && Inv(m, js[0]) && i < n < |steps|
    requires steps[i].Do? && steps[i].sched.Launch? && steps[i].act.Start?
    requires steps[n].Do? && steps[n].sched.Decide? && js[n + 1].k.s.current == steps[i].act.t
    requires forall l :: i < l <= n ==> js[l].k.s.current != steps[i].act.t
    requires var mem, t := steps[i].act.mem, steps[i].act.t;
             && t < |m.slots| && m.slots[t] in mem && mem[m.slots[t]] == sp
             && sp + 48 in mem && mem[sp + 48] == trampoline
             && forall k: nat :: k < 6 ==> sp + 8 * k in mem && mem[sp + 8 * k] == 0
    ensures var now, t := js[n + 1].cpu, steps[i].act.t;
            && now.rip == trampoline && now.regs == Context.Regs(0, 0, 0, 0, 0, 0) && now.rsp == sp + 56
            && Occupied(js[n + 1].k.s, t) && now.cr3 == TableOf(js[n + 1].k.s, t)
  {
    hide SR.Inv, CR.Inv, CR.Next, SR.Next, Kept, Runnable, Fits, Cpus, Acts;
    ProcessorRun(m, js, steps);
    RunKeeps(m, js, steps, n);
    assert Next(m, js[n], steps[n], js[n + 1]);
    SwitchAct(m, js[n], steps[n], js[n + 1]);
    Decided(js[n].k, js[n + 1].k);
    SameCurrent(m, js, steps);
    hide Next, Run, CR.Run, Inv;
    CR.StartsAtTrampoline(m, Cpus(js), Acts(steps), i, n, sp, trampoline);
  }

  lemma SameCurrent(m: CR.Machine, js: seq<Joint>, steps: seq<Step>)
    requires Run(m, js, steps) && Inv(m, js[0])
    ensures CR.Inv(m, js[0].cpu)
    ensures forall l :: 0 <= l < |js| ==> js[l].cpu.current == js[l].k.s.current && js[l].cpu.cr3 == js[l].k.cr3
  {
    hide Next, SR.Inv, CR.Inv;
    forall l | 0 <= l < |js|
      ensures js[l].cpu.current == js[l].k.s.current && js[l].cpu.cr3 == js[l].k.cr3
    {
      RunKeeps(m, js, steps, l);
    }
  }

  lemma SwitchAct(m: CR.Machine, j: Joint, step: Step, j': Joint)
    requires Next(m, j, step, j') && step.Do? && step.sched.Decide? && j'.k.s.current != j.k.s.current
    ensures SR.Framed(j.k) && !SR.InOwnCode(j.k)
    ensures Act(step) == CR.Switch(j'.k.s.current, SR.Top(j.k).kind == SR.Exit)
  {
    hide SR.Next, CR.Next;
  }
}
