/** The scheduler under arbitrary interleaving with interrupts: `reap_zombie`, the scheduling decision and
    every borrowing of the kernel's page table are separate steps, and a timer or keyboard interrupt can
    arrive between any two of them while interrupts are on. */
module SchedulerRuns {
  import opened Basics
  import opened Frames
  import opened Scheduler

  /** What a thread is inside of: `schedule`, `exit_current_thread`, or code that borrows the kernel's
      table to reach the heap (`with_current_thread`, the system calls, the keyboard handler). */
  datatype Kind = Yield | Exit | Heap

  datatype Phase =
    | Entered
    | Took(dead: Thread)
    | Forced(dead: Thread)
    | Reaped
    | Borrowed(saved: Frame)

  /** One activation; `ifOn` says whether it runs with interrupts enabled. */
  datatype Act = Act(kind: Kind, ifOn: bool, phase: Phase)

  datatype Resource = Stack(base: nat) | AddressSpace(root: Frame)

  /** `acts[i]` is the stack of activations of the thread in slot `i`, innermost last; none means the
      thread is in its own code. `live` are the stacks and address spaces not given back. */
  datatype Kern = Kern(s: Sched, acts: seq<seq<Act>>, cr3: Frame, live: set<Resource>)

  predicate Framed(k: Kern) {
    Shaped(k.s) && |k.acts| == MAX_THREADS
  }

  function Mine(k: Kern): seq<Act>
    requires Framed(k)
  {
    k.acts[k.s.current]
  }

  predicate InOwnCode(k: Kern)
    requires Framed(k)
  {
    Mine(k) == []
  }

  function Top(k: Kern): Act
    requires Framed(k) && !InOwnCode(k)
  {
    Mine(k)[|Mine(k)| - 1]
  }

  predicate Interruptible(k: Kern)
    requires Framed(k)
  {
    InOwnCode(k) || Top(k).ifOn
  }

  function Push(k: Kern, a: Act): Kern
    requires Framed(k)
  {
    k.(acts := k.acts[k.s.current := Mine(k) + [a]])
  }

  function Pop(k: Kern): Kern
    requires Framed(k) && !InOwnCode(k)
  {
    k.(acts := k.acts[k.s.current := Mine(k)[..|Mine(k)| - 1]])
  }

  function Move(k: Kern, phase: Phase): Kern
    requires Framed(k) && !InOwnCode(k)
  {
    k.(acts := k.acts[k.s.current := Mine(k)[|Mine(k)| - 1 := Top(k).(phase := phase)]])
  }

  function ResourcesOf(t: Thread): set<Resource> {
    {Stack(t.stack)} + if t.table.Some? then {AddressSpace(t.table.value)} else {}
  }

  datatype Step =
    | Call(kind: Kind, ifOn: bool)
    | Tick
    | KeyIrq
    | Take
    | Force
    | Free
    | Decide
    | Borrow
    | Return
    | Launch(t: Thread)

  predicate At(k: Kern, phase: Phase)
    requires Framed(k)
  {
    !InOwnCode(k) && Top(k).phase == phase
  }

  /** Switching to the thread that `s'` makes current loads that thread's table. */
  predicate Switched(k: Kern, s': Sched, k': Kern) {
    Occupied(s', s'.current) && k' == k.(s := s', cr3 := TableOf(s', s'.current))
  }

  ghost predicate Next(k: Kern, step: Step, k': Kern) {
    Framed(k) &&
    match step
    case Call(kind, ifOn) =>
      && InOwnCode(k) && (kind == Exit ==> k.s.current != 0) && (kind == Heap ==> !ifOn)
      && k' == Push(k, Act(kind, ifOn, Entered))
    case Tick => Interruptible(k) && k' == Push(k, Act(Yield, false, Entered))
    case KeyIrq => Interruptible(k) && k' == Push(k, Act(Heap, false, Entered))
    case Take =>
      && At(k, Entered) && Top(k).kind != Heap
      && var (s', dead) := TakeZombie(k.s);
      k' == Move(k, if dead.None? then Reaped else Took(dead.value)).(s := s')
    case Force =>
      && !InOwnCode(k) && Top(k).phase.Took?
      && k' == Move(k, Forced(Top(k).phase.dead)).(cr3 := k.s.kernel)
    case Free =>
      && !InOwnCode(k) && Top(k).phase.Forced?
      && k' == Move(k, Reaped).(live := k.live - ResourcesOf(Top(k).phase.dead))
    case Decide =>
      && At(k, Reaped)
      && (if Top(k).kind == Exit then
            ExitNext(k.s).Some? && Switched(k.(acts := k.acts[k.s.current := []]), ExitNext(k.s).value, k')
          else if SwitchNext(k.s).Some? then Switched(Pop(k), SwitchNext(k.s).value, k')
          else k' == Pop(k))
    case Borrow =>
      && At(k, Entered) && Top(k).kind == Heap
      && k' == Move(k, Borrowed(k.cr3)).(cr3 := k.s.kernel)
    case Return =>
      && !InOwnCode(k) && Top(k).phase.Borrowed?
      && k' == Pop(k).(cr3 := Top(k).phase.saved)
    case Launch(t) =>
      && ((InOwnCode(k) && k.cr3 == k.s.kernel) || (!InOwnCode(k) && Top(k).phase.Borrowed?))
      && ResourcesOf(t) !! k.live && t.table != Some(k.s.kernel)
      && Spawn(k.s, t).Some?
      && k' == k.(s := Spawn(k.s, t).value.0, live := k.live + ResourcesOf(t))
  }

  // ---------------------------------------------------------------- the invariant

  /** Only the innermost activation of the running thread can have interrupts off or the kernel's table
      borrowed; exits are called from own code. */
  predicate ActOk(k: Kern, i: nat, d: nat)
    requires Framed(k) && i < MAX_THREADS && d < |k.acts[i]|
  {
    var a := k.acts[i][d];
    && (i != k.s.current || d < |k.acts[i]| - 1 ==> a.ifOn && a.kind != Heap)
    && (a.kind == Exit ==> d == 0 && i != 0)
    && (a.kind == Heap ==> !a.ifOn && (a.phase.Entered? || a.phase.Borrowed?))
    && (a.kind != Heap ==> !a.phase.Borrowed?)
  }

  ghost predicate ActsOk(k: Kern)
    requires Framed(k)
  {
    forall i: nat, d: nat :: i < MAX_THREADS && d < |k.acts[i]| ==> ActOk(k, i, d)
  }

  /** Threads with an activation still run or wait to run. */
  predicate SeatOk(k: Kern, i: nat)
    requires Framed(k) && i < MAX_THREADS
  {
    k.acts[i] != [] ==> i == k.s.current || i in k.s.queue
  }

  ghost predicate TableOk(k: Kern)
    requires Framed(k) && Occupied(k.s, k.s.current)
  {
    var own := TableOf(k.s, k.s.current);
    && (k.cr3 == own || k.cr3 == k.s.kernel)
    && (InOwnCode(k) ==> k.cr3 == own)
    && (!InOwnCode(k) ==>
      && (Top(k).phase.Borrowed? ==>
            && k.cr3 == k.s.kernel && (Top(k).phase.saved == own || Top(k).phase.saved == k.s.kernel)
            && (|Mine(k)| == 1 ==> Top(k).phase.saved == own))
      && (Top(k).kind == Heap && Top(k).phase.Entered? && |Mine(k)| == 1 ==> k.cr3 == own)
      && (!Top(k).ifOn && Top(k).phase.Forced? ==> k.cr3 == k.s.kernel))
  }

  /** With interrupts off, nothing exits between this activation's reaping and its decision. */
  ghost predicate ZombieOk(k: Kern)
    requires Framed(k)
  {
    !InOwnCode(k) && Top(k).kind != Heap && !Top(k).ifOn && !Top(k).phase.Entered? ==> k.s.zombie.None?
  }

  /** Where a thread record is: still in the table, or taken out of it by the reaper of slot `i`. */
  datatype Holder = InTable(i: nat) | InFlight(i: nat, d: nat)

  function Record(k: Kern, h: Holder): Option<Thread>
    requires Framed(k)
  {
    match h
    case InTable(i) => if i < MAX_THREADS then k.s.threads[i] else None
    case InFlight(i, d) =>
      if i < MAX_THREADS && d < |k.acts[i]| && (k.acts[i][d].phase.Took? || k.acts[i][d].phase.Forced?)
      then Some(k.acts[i][d].phase.dead) else None
  }

  predicate Holds(k: Kern, h: Holder, x: Resource)
    requires Framed(k)
  {
    Record(k, h).Some? && x in ResourcesOf(Record(k, h).value)
  }

  /** Every live resource has exactly one holder. */
  ghost predicate ResourcesOk(k: Kern)
    requires Framed(k)
  {
    && (forall h1, h2, x :: Holds(k, h1, x) && Holds(k, h2, x) ==> h1 == h2)
    && (forall x :: x in k.live <==> exists h :: Holds(k, h, x))
    && AddressSpace(k.s.kernel) !in k.live
  }

  /** Everything but the resources. */
  ghost predicate Core(k: Kern) {
    && Framed(k) && WellFormed(k.s)
    && ActsOk(k)
    && (forall i: nat :: i < MAX_THREADS ==> SeatOk(k, i))
    && TableOk(k) && ZombieOk(k)
  }

  ghost predicate Inv(k: Kern) {
    Core(k) && ResourcesOk(k)
  }

  lemma InvFramed(k: Kern)
    requires Inv(k)
    ensures Framed(k)
  {
  }

  // ---------------------------------------------------------------- resources move, never split

  lemma RecordsSame(k: Kern, k': Kern)
    requires Framed(k) && Framed(k') && ResourcesOk(k)
    requires k'.live == k.live && k'.s.kernel == k.s.kernel
    requires forall h :: Record(k', h) == Record(k, h)
    ensures ResourcesOk(k')
  {
    forall h, x
      ensures Holds(k', h, x) <==> Holds(k, h, x)
    {
    }
  }

  lemma RecordMoved(k: Kern, k': Kern, from: Holder, to: Holder)
    requires Framed(k) && Framed(k') && ResourcesOk(k)
    requires k'.live == k.live && k'.s.kernel == k.s.kernel && from != to
    requires Record(k', to) == Record(k, from) && Record(k', from).None? && Record(k, to).None?
    requires forall h :: h != from && h != to ==> Record(k', h) == Record(k, h)
    ensures ResourcesOk(k')
  {
    forall h, x
      ensures Holds(k', h, x) <==> h != from && Holds(k, if h == to then from else h, x)
    {
    }
    forall x
      ensures x in k'.live <==> exists h :: Holds(k', h, x)
    {
      if x in k.live {
        var h :| Holds(k, h, x);
        assert Holds(k', if h == from then to else h, x);
      }
    }
  }

  lemma RecordDropped(k: Kern, k': Kern, gone: Holder)
    requires Framed(k) && Framed(k') && ResourcesOk(k)
    requires Record(k, gone).Some? && Record(k', gone).None?
    requires k'.live == k.live - ResourcesOf(Record(k, gone).value) && k'.s.kernel == k.s.kernel
    requires forall h :: h != gone ==> Record(k', h) == Record(k, h)
    ensures ResourcesOk(k')
  {
    forall h, x
      ensures Holds(k', h, x) <==> h != gone && Holds(k, h, x)
    {
    }
    forall x
      ensures x in k'.live <==> exists h :: Holds(k', h, x)
    {
      if x in k'.live {
        var h :| Holds(k, h, x);
        assert Holds(k', h, x);
      } else if x in k.live {
        assert Holds(k, gone, x);
      }
    }
  }

  lemma RecordAdded(k: Kern, k': Kern, added: Holder, t: Thread)
    requires Framed(k) && Framed(k') && ResourcesOk(k)
    requires Record(k, added).None? && Record(k', added) == Some(t)
    requires ResourcesOf(t) !! k.live && k'.live == k.live + ResourcesOf(t)
    requires k'.s.kernel == k.s.kernel && t.table != Some(k.s.kernel)
    requires forall h :: h != added ==> Record(k', h) == Record(k, h)
    ensures ResourcesOk(k')
  {
    forall h, x
      ensures Holds(k', h, x) <==> Holds(k, h, x) || (h == added && x in ResourcesOf(t))
      ensures Holds(k, h, x) ==> x in k.live
    {
    }
    forall x
      ensures x in k'.live <==> exists h :: Holds(k', h, x)
    {
      if x in k.live {
        var h :| Holds(k, h, x);
        assert Holds(k', h, x);
      } else if x in ResourcesOf(t) {
        assert Holds(k', added, x);
      }
    }
  }

  // ---------------------------------------------------------------- every step keeps the invariant

  lemma PushKeeps(k: Kern, a: Act)
    requires Inv(k) && a.phase.Entered?
    requires if a.kind == Exit then InOwnCode(k) && k.s.current != 0 else Interruptible(k)
    requires a.kind == Heap ==> !a.ifOn
    ensures Inv(Push(k, a))
  {
    var k' := Push(k, a);
    forall i: nat, d: nat | i < MAX_THREADS && d < |k'.acts[i]|
      ensures ActOk(k', i, d)
    {
      if d < |k.acts[i]| {
        assert ActOk(k, i, d);
      }
    }
    forall i: nat | i < MAX_THREADS
      ensures SeatOk(k', i)
    {
      assert SeatOk(k, i);
    }
    forall h
      ensures Record(k', h) == Record(k, h)
    {
    }
    RecordsSame(k, k');
  }

  /** Advancing the innermost activation to another phase of its kind. */
  lemma MoveActs(k: Kern, phase: Phase, k': Kern)
    requires Framed(k) && ActsOk(k) && !InOwnCode(k) && (forall i: nat :: i < MAX_THREADS ==> SeatOk(k, i))
    requires Framed(k') && k'.acts == Move(k, phase).acts && k'.s.current == k.s.current && k'.s.queue == k.s.queue
    requires if Top(k).kind == Heap then phase.Entered? || phase.Borrowed? else !phase.Borrowed?
    ensures ActsOk(k') && (forall i: nat :: i < MAX_THREADS ==> SeatOk(k', i))
    ensures !InOwnCode(k') && Top(k') == Top(k).(phase := phase) && |Mine(k')| == |Mine(k)|
  {
    forall i: nat, d: nat | i < MAX_THREADS && d < |k'.acts[i]|
      ensures ActOk(k', i, d)
    {
      assert ActOk(k, i, d);
    }
    forall i: nat | i < MAX_THREADS
      ensures SeatOk(k', i)
    {
      assert SeatOk(k, i);
    }
  }

  lemma TakeStep(k: Kern, k': Kern)
    requires Inv(k) && Next(k, Take, k')
    ensures Inv(k')
    ensures k.s.zombie.Some? ==> Top(k').phase == Took(k.s.threads[k.s.zombie.value].value)
  {
    TakeKeeps(k.s);
    var (s', dead) := TakeZombie(k.s);
    MoveActs(k, Top(k').phase, k');
    hide WellFormed, ActsOk;
    var flight := InFlight(k.s.current, |Mine(k)| - 1);
    if dead.None? {
      forall h
        ensures Record(k', h) == Record(k, h)
      {
      }
      RecordsSame(k, k');
    } else {
      RecordMoved(k, k', InTable(k.s.zombie.value), flight);
    }
  }

  lemma ForceStep(k: Kern, k': Kern)
    requires Inv(k) && Next(k, Force, k')
    ensures Inv(k')
  {
    assert ActOk(k, k.s.current, |Mine(k)| - 1);
    MoveActs(k, Top(k').phase, k');
    hide WellFormed, ActsOk;
    forall h
      ensures Record(k', h) == Record(k, h)
    {
    }
    RecordsSame(k, k');
  }

  lemma FreeStep(k: Kern, k': Kern)
    requires Inv(k) && Next(k, Free, k')
    ensures Inv(k')
  {
    assert ActOk(k, k.s.current, |Mine(k)| - 1);
    MoveActs(k, Reaped, k');
    hide WellFormed, ActsOk;
    RecordDropped(k, k', InFlight(k.s.current, |Mine(k)| - 1));
  }

  lemma BorrowStep(k: Kern, k': Kern)
    requires Inv(k) && Next(k, Borrow, k')
    ensures Inv(k')
  {
    MoveActs(k, Borrowed(k.cr3), k');
    hide WellFormed, ActsOk;
    forall h
      ensures Record(k', h) == Record(k, h)
    {
    }
    RecordsSame(k, k');
  }

  /** Leaving the innermost activation, when it holds no record. */
  lemma PopActs(k: Kern, k': Kern)
    requires Core(k) && !InOwnCode(k) && (Top(k).phase.Reaped? || Top(k).phase.Borrowed?)
    requires Framed(k') && k'.acts == Pop(k).acts && k'.s.threads == k.s.threads
    requires k'.s.current == k.s.current || k.s.current in k'.s.queue
    requires forall i :: i in k.s.queue ==> i == k'.s.current || i in k'.s.queue
    ensures ActsOk(k') && (forall i: nat :: i < MAX_THREADS ==> SeatOk(k', i))
    ensures forall h :: Record(k', h) == Record(k, h)
    ensures InOwnCode(k') || (Top(k').ifOn && Top(k').kind != Heap && !Top(k').phase.Borrowed?)
  {
    hide WellFormed;
    forall i: nat, d: nat | i < MAX_THREADS && d < |k'.acts[i]|
      ensures ActOk(k', i, d) && k'.acts[i][d].ifOn && k'.acts[i][d].kind != Heap && !k'.acts[i][d].phase.Borrowed?
    {
      assert ActOk(k, i, d);
    }
    forall i: nat | i < MAX_THREADS
      ensures SeatOk(k', i)
    {
      assert SeatOk(k, i);
    }
  }

  lemma ReturnStep(k: Kern, k': Kern)
    requires Inv(k) && Next(k, Return, k')
    ensures Inv(k')
  {
    PopActs(k, k');
    hide WellFormed, ActsOk;
    RecordsSame(k, k');
  }

  /** `schedule`'s decision: rotate, or return to the boot thread. */
  lemma YieldStep(k: Kern, k': Kern)
    requires Inv(k) && Next(k, Decide, k') && Top(k).kind != Exit
    ensures Inv(k')
  {
    if k.s.queue == [] {
      IdleIsBoot(k.s);
    } else {
      SwitchKeeps(k.s);
      assert k'.s.queue[|k'.s.queue| - 1] == k.s.current;
      assert k.s.queue == [k.s.queue[0]] + k.s.queue[1..];
    }
    PopActs(k, k');
    hide WellFormed, ActsOk;
    RecordsSame(k, k');
  }

  lemma ExitStep(k: Kern, k': Kern)
    requires Inv(k) && Next(k, Decide, k') && Top(k).kind == Exit
    ensures Inv(k')
  {
    assert ActOk(k, k.s.current, |Mine(k)| - 1);
    assert Mine(k)[..0] == [];
    ExitKeeps(k.s);
    assert k.s.queue == [k.s.queue[0]] + k.s.queue[1..];
    ExitActs(k, k');
    hide WellFormed, ActsOk;
    RecordsSame(k, k');
  }

  lemma ExitActs(k: Kern, k': Kern)
    requires Core(k) && !InOwnCode(k) && Top(k).phase.Reaped? && |Mine(k)| == 1
    requires Framed(k') && k'.acts == k.acts[k.s.current := []] && k'.s.threads == k.s.threads
    requires forall i :: i in k.s.queue ==> i == k'.s.current || i in k'.s.queue
    ensures ActsOk(k') && (forall i: nat :: i < MAX_THREADS ==> SeatOk(k', i))
    ensures forall h :: Record(k', h) == Record(k, h)
    ensures InOwnCode(k') || (Top(k').ifOn && Top(k').kind != Heap && !Top(k').phase.Borrowed?)
  {
    hide WellFormed;
    forall i: nat, d: nat | i < MAX_THREADS && d < |k'.acts[i]|
      ensures ActOk(k', i, d) && k'.acts[i][d].ifOn && k'.acts[i][d].kind != Heap && !k'.acts[i][d].phase.Borrowed?
    {
      assert ActOk(k, i, d);
    }
    forall i: nat | i < MAX_THREADS
      ensures SeatOk(k', i)
    {
      assert SeatOk(k, i);
    }
  }

  lemma LaunchStep(k: Kern, k': Kern, t: Thread)
    requires Inv(k) && Next(k, Launch(t), k')
    ensures Inv(k')
  {
    SpawnKeeps(k.s, t);
    var id := Spawn(k.s, t).value.1;
    LaunchActs(k, k');
    hide WellFormed, ActsOk;
    RecordAdded(k, k', InTable(id), t);
  }

  lemma LaunchActs(k: Kern, k': Kern)
    requires Core(k) && Framed(k') && k'.acts == k.acts && k'.s.current == k.s.current
    requires forall i :: i in k.s.queue ==> i in k'.s.queue
    ensures ActsOk(k') && (forall i: nat :: i < MAX_THREADS ==> SeatOk(k', i))
  {
    hide WellFormed;
    forall i: nat, d: nat | i < MAX_THREADS && d < |k'.acts[i]|
      ensures ActOk(k', i, d)
    {
      assert ActOk(k, i, d);
    }
    forall i: nat | i < MAX_THREADS
      ensures SeatOk(k', i)
    {
      assert SeatOk(k, i);
    }
  }

  /** Every step of every interleaving keeps the invariant. */
  lemma StepKeeps(k: Kern, step: Step, k': Kern)
    requires Inv(k) && Next(k, step, k')
    ensures Inv(k')
  {
    hide Inv;
    match step
    case Call(kind, ifOn) => PushKeeps(k, Act(kind, ifOn, Entered));
    case Tick => PushKeeps(k, Act(Yield, false, Entered));
    case KeyIrq => PushKeeps(k, Act(Heap, false, Entered));
    case Take => TakeStep(k, k');
    case Force => ForceStep(k, k');
    case Free => FreeStep(k, k');
    case Decide =>
      if Top(k).kind == Exit {
        ExitStep(k, k');
      } else {
        YieldStep(k, k');
      }
    case Borrow => BorrowStep(k, k');
    case Return => ReturnStep(k, k');
    case Launch(t) => LaunchStep(k, k', t);
  }
}
