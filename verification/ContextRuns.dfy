/** Any sequence of context switches resumes every thread exactly as it left. */
module ContextRuns {
  import opened Basics
  import opened Frames
  import opened Context

  datatype Area = Area(lo: nat, hi: nat) {
    predicate Contains(a: nat) {
      lo <= a < hi
    }
  }

  predicate Apart(x: Area, y: Area) {
    x.hi <= y.lo || y.hi <= x.lo
  }

  /** `slots[t]` is the address of thread `t`'s saved stack pointer. */
  datatype Machine = Machine(slots: seq<nat>, kernel: Frame)

  datatype Sys = Sys(regs: Regs, rip: nat, rsp: nat, cr3: Frame, mem: Words, current: nat,
                     live: set<nat>, stacks: map<nat, Area>, tables: map<nat, Frame>)

  /** How the running thread continues if it calls `switch_to` now, its return address on the stack. */
  function Here(s: Sys): Resume
    requires s.rsp in s.mem
  {
    Resume(s.regs, s.mem[s.rsp], s.rsp + 8)
  }

  /** Thread `t` is suspended in its own stack, to continue as `c`. */
  predicate Parked(m: Machine, s: Sys, t: nat, c: Resume) {
    && t < |m.slots| && t in s.stacks && m.slots[t] in s.mem
    && s.stacks[t].lo <= s.mem[m.slots[t]] && s.mem[m.slots[t]] + 56 <= s.stacks[t].hi
    && HasFrame(s.mem, s.mem[m.slots[t]], c)
  }

  ghost predicate IsParked(m: Machine, s: Sys, t: nat) {
    exists c :: Parked(m, s, t, c)
  }

  /** The running thread has room for a saved frame below its return address. */
  predicate Ready(s: Sys) {
    && s.current in s.stacks && s.rsp in s.mem
    && s.stacks[s.current].lo + 48 <= s.rsp && s.rsp + 8 <= s.stacks[s.current].hi
  }

  predicate Slotted(m: Machine, x: Area) {
    forall i :: 0 <= i < |m.slots| ==> !x.Contains(m.slots[i])
  }

  /** Live threads have pairwise disjoint stacks, none of which holds a saved stack pointer. */
  ghost predicate Laid(m: Machine, s: Sys) {
    && NoDup(m.slots)
    && (forall t :: t in s.live ==> t < |m.slots| && t in s.stacks && t in s.tables && Slotted(m, s.stacks[t]))
    && (forall t, u :: t in s.live && u in s.live && t != u ==> Apart(s.stacks[t], s.stacks[u]))
  }

  ghost predicate Inv(m: Machine, s: Sys) {
    && Laid(m, s)
    && s.current in s.live
    && (forall t :: t in s.live && t != s.current ==> IsParked(m, s, t))
    && (s.cr3 == s.tables[s.current] || s.cr3 == m.kernel)
  }

  datatype Step =
    | Work(regs: Regs, rip: nat, rsp: nat, mem: Words)
    | Force
    | Restore
    | Switch(to: nat, exit: bool)
    | Start(t: nat, stack: Area, table: Frame, mem: Words, entry: Resume)

  /** `a` belongs to a thread other than the running one, or to the saved stack pointers. */
  ghost predicate Foreign(m: Machine, s: Sys, a: nat) {
    a in m.slots || exists t :: t in s.live && t != s.current && t in s.stacks && s.stacks[t].Contains(a)
  }

  /** `Work` is the running thread's own code, which writes neither other threads' stacks nor the saved
      stack pointers; `Force` loads the kernel's table, as `reap_zombie` and the system calls do, and `Restore`
      the thread's own again; `Switch` is `switch_to`, for good when the caller exits; `Start` is a new
      thread's hand-built frame on a fresh stack. */
  ghost predicate Next(m: Machine, s: Sys, step: Step, s': Sys) {
    match step
    case Work(regs, rip, rsp, mem) =>
      && (forall a :: Foreign(m, s, a) ==> Keeps(s.mem, mem, a))
      && s' == s.(regs := regs, rip := rip, rsp := rsp, mem := mem)
    case Force => s' == s.(cr3 := m.kernel)
    case Restore => s.current in s.tables && s' == s.(cr3 := s.tables[s.current])
    case Switch(t, exit) =>
      && t in s.live && t != s.current && t < |m.slots| && s.current < |m.slots| && t in s.tables
      && Ready(s) && m.slots[t] in s.mem
      && s'.mem == SaveFrame(s.mem, s.regs, s.rsp, m.slots[s.current])
      && HasFrame(s'.mem, s.mem[m.slots[t]], Resume(s'.regs, s'.rip, s'.rsp))
      && s'.cr3 == s.tables[t] && s'.current == t
      && s'.live == (if exit then s.live - {s.current} else s.live)
      && s'.stacks == s.stacks && s'.tables == s.tables
    case Start(t, stack, table, mem, entry) =>
      && t !in s.live && t < |m.slots| && Slotted(m, stack)
      && (forall u :: u in s.live && u in s.stacks ==> Apart(stack, s.stacks[u]))
      && (forall a :: a != m.slots[t] && !stack.Contains(a) ==> Keeps(s.mem, mem, a))
      && s' == s.(mem := mem, live := s.live + {t}, stacks := s.stacks[t := stack], tables := s.tables[t := table])
      && Parked(m, s', t, entry)
  }

  /** One running thread whose stack holds no saved stack pointer is a state to start from. */
  lemma StartInv(m: Machine, s: Sys)
    requires NoDup(m.slots) && s.live == {s.current} && s.current < |m.slots|
    requires s.current in s.stacks && s.current in s.tables && Slotted(m, s.stacks[s.current])
    requires s.cr3 == s.tables[s.current]
    ensures Inv(m, s)
  {
  }

  // ---------------------------------------------------------------- one step

  /** A suspended thread's context survives every step that does not resume it. */
  lemma ParkedKept(m: Machine, s: Sys, step: Step, s': Sys, t: nat, c: Resume)
    requires Inv(m, s) && Next(m, s, step, s') && t in s.live && t != s.current && t != s'.current && Parked(m, s, t, c)
    ensures Parked(m, s', t, c) && t in s'.live && s'.stacks[t] == s.stacks[t] && t in s'.tables
    ensures s'.tables[t] == s.tables[t]
  {
    hide HasFrame, SaveFrame, IsParked;
    var sp := s.mem[m.slots[t]];
    forall a | s.stacks[t].Contains(a) || a == m.slots[t]
      ensures Keeps(s.mem, s'.mem, a)
    {
      match step
      case Work(regs, rip, rsp, mem) =>
        assert Foreign(m, s, a);
      case Force =>
      case Restore =>
      case Switch(u, exit) =>
        SwitchKeepsWord(m, s, s', u, exit, t, a);
      case Start(u, stack, table, mem, entry) =>
        assert Apart(stack, s.stacks[t]) && Slotted(m, stack) && Slotted(m, s.stacks[t]);
    }
    assert Keeps(s.mem, s'.mem, m.slots[t]);
    FrameElsewhere(s.mem, s'.mem, sp, c);
  }

  lemma SwitchKeepsWord(m: Machine, s: Sys, s': Sys, u: nat, exit: bool, t: nat, a: nat)
    requires Inv(m, s) && Next(m, s, Switch(u, exit), s') && t in s.live && t != s.current
    requires s.stacks[t].Contains(a) || a == m.slots[t]
    ensures Keeps(s.mem, s'.mem, a)
  {
    hide HasFrame, IsParked;
    assert Apart(s.stacks[s.current], s.stacks[t]);
    assert Slotted(m, s.stacks[t]) && Slotted(m, s.stacks[s.current]);
    SavedFrame(s.mem, s.regs, s.rsp, m.slots[s.current]);
  }

  /** A switch leaves the caller suspended exactly where it called, and resumes the other thread exactly
      as it was suspended, under its own table. */
  lemma SwitchResumes(m: Machine, s: Sys, step: Step, s': Sys, c: Resume)
    requires Inv(m, s) && Next(m, s, step, s') && step.Switch? && Parked(m, s, step.to, c)
    ensures Parked(m, s', s.current, Here(s))
    ensures Resume(s'.regs, s'.rip, s'.rsp) == c && s'.cr3 == s.tables[step.to]
  {
    hide SaveFrame, IsParked, HasFrame;
    var t := step.to;
    assert Slotted(m, s.stacks[s.current]) && Slotted(m, s.stacks[t]) && Apart(s.stacks[s.current], s.stacks[t]);
    SavedFrame(s.mem, s.regs, s.rsp, m.slots[s.current]);
    StackSlot(s.mem, s.regs, s.rsp, m.slots[s.current]);
    forall a | s.stacks[t].Contains(a)
      ensures Keeps(s.mem, s'.mem, a)
    {
      SwitchKeepsWord(m, s, s', t, step.exit, t, a);
    }
    FrameElsewhere(s.mem, s'.mem, s.mem[m.slots[t]], c);
    FrameUnique(s'.mem, s.mem[m.slots[t]], c, Resume(s'.regs, s'.rip, s'.rsp));
  }

  lemma StackSlot(mem: Words, regs: Regs, rsp: nat, slot: nat)
    requires rsp >= 48
    ensures slot in SaveFrame(mem, regs, rsp, slot) && SaveFrame(mem, regs, rsp, slot)[slot] == rsp - 48
  {
  }

  lemma OthersParked(m: Machine, s: Sys, step: Step, s': Sys, t: nat)
    requires Inv(m, s) && Next(m, s, step, s') && t in s'.live && t != s'.current
    ensures IsParked(m, s', t)
  {
    hide HasFrame, SaveFrame;
    if t in s.live && t != s.current {
      assert IsParked(m, s, t);
      var c :| Parked(m, s, t, c);
      ParkedKept(m, s, step, s', t, c);
    } else if t == s.current {
      assert IsParked(m, s, step.to);
      var c :| Parked(m, s, step.to, c);
      SwitchResumes(m, s, step, s', c);
    } else {
      assert Parked(m, s', t, step.entry);
    }
  }

  lemma LaidKept(m: Machine, s: Sys, step: Step, s': Sys)
    requires Laid(m, s) && Next(m, s, step, s')
    ensures Laid(m, s')
  {
    hide HasFrame, SaveFrame, Parked, Foreign, Slotted, Keeps, Ready;
    if step.Start? {
      forall t, u | t in s'.live && u in s'.live && t != u
        ensures Apart(s'.stacks[t], s'.stacks[u])
      {
      }
    }
  }

  lemma StepKeeps(m: Machine, s: Sys, step: Step, s': Sys)
    requires Inv(m, s) && Next(m, s, step, s')
    ensures Inv(m, s')
  {
    LaidKept(m, s, step, s');
    hide HasFrame, SaveFrame, Parked, IsParked, Foreign, Slotted, Keeps, Ready, Laid;
    forall t | t in s'.live && t != s'.current
      ensures IsParked(m, s', t)
    {
      OthersParked(m, s, step, s', t);
    }
  }

  // ---------------------------------------------------------------- runs

  ghost predicate Run(m: Machine, ss: seq<Sys>, steps: seq<Step>) {
    && |ss| == |steps| + 1
    && forall i :: 0 <= i < |steps| ==> Next(m, ss[i], steps[i], ss[i + 1])
  }

  lemma {:induction false} RunKeeps(m: Machine, ss: seq<Sys>, steps: seq<Step>, j: nat)
    requires Run(m, ss, steps) && Inv(m, ss[0]) && j < |ss|
    ensures Inv(m, ss[j])
  {
    hide Inv, Next;
    if j > 0 {
      RunKeeps(m, ss, steps, j - 1);
      StepKeeps(m, ss[j - 1], steps[j - 1], ss[j]);
    }
  }

  /** While a thread is not running, its context stays where it was saved. */
  lemma {:induction false} StaysParked(m: Machine, ss: seq<Sys>, steps: seq<Step>, i: nat, j: nat, t: nat, c: Resume)
    requires Run(m, ss, steps) && Inv(m, ss[0]) && i <= j < |ss|
    requires t in ss[i].live && Parked(m, ss[i], t, c) && t in ss[i].tables
    requires forall k :: i <= k <= j ==> ss[k].current != t
    ensures t in ss[j].live && Parked(m, ss[j], t, c) && t in ss[j].tables && ss[j].tables[t] == ss[i].tables[t]
    decreases j - i
  {
    hide Inv, Next, Parked;
    if i < j {
      StaysParked(m, ss, steps, i, j - 1, t, c);
      RunKeeps(m, ss, steps, j - 1);
      ParkedKept(m, ss[j - 1], steps[j - 1], ss[j], t, c);
    }
  }

  /** A thread that is switched away from at step `i` and next resumed at step `j` continues with exactly
      the registers, stack pointer and return address it had, under its own table, whatever ran in
      between. */
  lemma ResumedExactly(m: Machine, ss: seq<Sys>, steps: seq<Step>, i: nat, j: nat)
    requires Run(m, ss, steps) && Inv(m, ss[0]) && i < j < |steps|
    requires steps[i].Switch? && !steps[i].exit && steps[j].Switch? && steps[j].to == ss[i].current
    requires forall k :: i < k <= j ==> ss[k].current != ss[i].current
    ensures ss[i].rsp in ss[i].mem && Resume(ss[j + 1].regs, ss[j + 1].rip, ss[j + 1].rsp) == Here(ss[i])
    ensures ss[j + 1].current == ss[i].current && ss[i].current in ss[i].tables
    ensures ss[j + 1].cr3 == ss[i].tables[ss[i].current]
  {
    var t := ss[i].current;
    RunKeeps(m, ss, steps, i);
    RunKeeps(m, ss, steps, j);
    assert Next(m, ss[i], steps[i], ss[i + 1]);
    assert Next(m, ss[j], steps[j], ss[j + 1]);
    var c :| Parked(m, ss[i], steps[i].to, c);
    hide HasFrame, SaveFrame;
    SwitchResumes(m, ss[i], steps[i], ss[i + 1], c);
    hide Inv, Parked;
    StaysParked(m, ss, steps, i + 1, j, t, Here(ss[i]));
    SwitchResumes(m, ss[j], steps[j], ss[j + 1], Here(ss[i]));
  }

  /** A thread started at step `i` and first switched to at step `j` begins as its hand-built frame says, under
      its own table, whatever ran in between. */
  lemma StartsAsBuilt(m: Machine, ss: seq<Sys>, steps: seq<Step>, i: nat, j: nat)
    requires Run(m, ss, steps) && Inv(m, ss[0]) && i < j < |steps|
    requires steps[i].Start? && steps[j].Switch? && steps[j].to == steps[i].t
    requires forall k :: i < k <= j ==> ss[k].current != steps[i].t
    ensures Resume(ss[j + 1].regs, ss[j + 1].rip, ss[j + 1].rsp) == steps[i].entry
    ensures ss[j + 1].current == steps[i].t && ss[j + 1].cr3 == steps[i].table
  {
    RunKeeps(m, ss, steps, j);
    assert Next(m, ss[i], steps[i], ss[i + 1]);
    assert Next(m, ss[j], steps[j], ss[j + 1]);
    hide HasFrame, SaveFrame, Inv, Parked;
    StaysParked(m, ss, steps, i + 1, j, steps[i].t, steps[i].entry);
    SwitchResumes(m, ss[j], steps[j], ss[j + 1], steps[i].entry);
  }

  /** A thread whose saved stack pointer leads to six zero words and then the trampoline's address, when it is
      started, begins at the trampoline with its registers zero when it is first switched to, above those
      words and under its own table, whatever ran in between. */
  lemma StartsAtTrampoline(m: Machine, ss: seq<Sys>, steps: seq<Step>, i: nat, j: nat, sp: nat, trampoline: nat)
    requires Run(m, ss, steps) && Inv(m, ss[0]) && i < j < |steps|
    requires steps[i].Start? && steps[j].Switch? && steps[j].to == steps[i].t
    requires forall k :: i < k <= j ==> ss[k].current != steps[i].t
    requires var mem, t := steps[i].mem, steps[i].t;
             && t < |m.slots| && m.slots[t] in mem && mem[m.slots[t]] == sp
             && sp + 48 in mem && mem[sp + 48] == trampoline
             && forall k: nat :: k < 6 ==> sp + 8 * k in mem && mem[sp + 8 * k] == 0
    ensures ss[j + 1].rip == trampoline && ss[j + 1].regs == Regs(0, 0, 0, 0, 0, 0) && ss[j + 1].rsp == sp + 56
    ensures ss[j + 1].current == steps[i].t && ss[j + 1].cr3 == steps[i].table
  {
    assert Next(m, ss[i], steps[i], ss[i + 1]);
    var mem := steps[i].mem;
    assert HasFrame(mem, sp, steps[i].entry);
    assert mem[sp + 8 * 0] == 0 && mem[sp + 8 * 1] == 0 && mem[sp + 8 * 2] == 0;
    assert mem[sp + 8 * 3] == 0 && mem[sp + 8 * 4] == 0 && mem[sp + 8 * 5] == 0;
    hide Next, Inv;
    StartsAsBuilt(m, ss, steps, i, j);
  }

  /** What `BuildInitialStack` leaves, with the new stack pointer stored in the thread's record, is the start
      of a thread with the context read back from it. */
  lemma BuiltIsStart(m: Machine, s: Sys, t: nat, base: nat, table: Frame, c: Resume, out: Words, sp: nat)
    requires t !in s.live && t < |m.slots| && Slotted(m, Area(base, base + STACK_SIZE))
    requires forall u :: u in s.live && u in s.stacks ==> Apart(Area(base, base + STACK_SIZE), s.stacks[u])
    requires HasFrame(out, sp, c) && base <= sp && sp + 56 <= base + STACK_SIZE
    requires Outside(s.mem, out, base)
    ensures var stack := Area(base, base + STACK_SIZE);
            var mem := out[m.slots[t] := sp];
            Next(m, s, Start(t, stack, table, mem, c),
                 s.(mem := mem, live := s.live + {t}, stacks := s.stacks[t := stack], tables := s.tables[t := table]))
  {
    var stack := Area(base, base + STACK_SIZE);
    var mem := out[m.slots[t] := sp];
    assert !stack.Contains(m.slots[t]);
    forall a: nat | sp <= a < sp + 56
      ensures Keeps(out, mem, a)
    {
      assert stack.Contains(a);
    }
    FrameElsewhere(out, mem, sp, c);
    hide HasFrame;
    forall a: nat | a != m.slots[t] && !stack.Contains(a)
      ensures Keeps(s.mem, mem, a)
    {
      assert Keeps(s.mem, out, a);
    }
  }

  /** An address of thread `u`'s stack is mapped in its own table and in the kernel's. */
  predicate Seen(m: Machine, s: Sys, view: (Frame, nat) -> bool, u: nat, a: nat) {
    u in s.tables ==> view(s.tables[u], a) && view(m.kernel, a)
  }

  /** Every address a switch touches is mapped under the table loaded at that moment, when each live
      stack is mapped in its own thread's table and in the kernel's: this is what `Processor.SwitchTo` asks. */
  lemma SwitchAllowed(m: Machine, s: Sys, t: nat, c: Resume, view: (Frame, nat) -> bool)
    requires Inv(m, s) && Ready(s) && t in s.live && t != s.current && Parked(m, s, t, c)
    requires forall u, a :: u in s.live && u in s.stacks && s.stacks[u].Contains(a) ==> Seen(m, s, view, u, a)
    requires forall i, f :: 0 <= i < |m.slots| ==> view(f, m.slots[i])
    ensures var slot, sp := m.slots[s.current], s.mem[m.slots[t]];
            && s.rsp >= 48 && !(s.rsp - 48 <= slot <= s.rsp) && !(sp <= slot < sp + 56)
            && (s.rsp <= sp || sp + 56 <= s.rsp - 48) && HasFrame(s.mem, sp, c)
            && (forall a :: s.rsp - 48 <= a < s.rsp || a == slot ==> view(s.cr3, a))
            && (forall a :: sp <= a < sp + 56 ==> view(s.tables[t], a))
  {
    hide HasFrame, IsParked;
    assert Slotted(m, s.stacks[s.current]) && Slotted(m, s.stacks[t]) && Apart(s.stacks[s.current], s.stacks[t]);
    var slot, sp := m.slots[s.current], s.mem[m.slots[t]];
    forall a | s.rsp - 48 <= a < s.rsp
      ensures view(s.cr3, a)
    {
      assert Seen(m, s, view, s.current, a);
    }
    forall a | sp <= a < sp + 56
      ensures view(s.tables[t], a)
    {
      assert Seen(m, s, view, t, a);
    }
    assert !s.stacks[s.current].Contains(slot) && !s.stacks[t].Contains(slot);
  }
}
