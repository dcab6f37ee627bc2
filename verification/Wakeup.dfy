/** The keyboard wakeup protocol: interrupts push scancodes and wake the reader task, the executor polls
    ready tasks and halts when there are none. A keyboard interrupt can arrive between any two steps. */
module Wakeup {
  import opened Basics

  const SCANCODE_CAPACITY: nat := 100
  const MAX_QUEUED_TASKS: nat := 128

  /** Where the executor is: looking for a task, inside the reader's `poll_next` before its first pop, before
      registering the waker, before its second pop, before dropping the waker again, decoding a scancode,
      polling another task, or halted. */
  datatype Pc =
    | Looking | First | Registering | Second
    | Taking(code: byte) | Decoding(code: byte) | Other(task: nat) | Halted

  /** `waker` says whether the reader's waker is registered. */
  datatype State = State(scan: seq<byte>, waker: bool, ready: seq<nat>, tasks: set<nat>, pc: Pc)

  datatype Step =
    | KeyIrq(code: byte)
    | Wake(task: nat)
    | Resume
    | PopTask
    | FirstPop
    | Register
    | SecondPop
    | TakeWaker
    | Decode
    | Finish(done: bool)
    | Sleep

  /** `TaskWaker::wake_task`: a wakeup that finds the ready queue full is dropped. */
  function Woken(ready: seq<nat>, task: nat): (r: seq<nat>)
    ensures |ready| <= MAX_QUEUED_TASKS ==> |r| <= MAX_QUEUED_TASKS
    ensures forall t :: t in ready ==> t in r
    ensures forall t :: t in r ==> t in ready || t == task
  {
    if |ready| < MAX_QUEUED_TASKS then ready + [task] else ready
  }

  /** `add_scancode` in the interrupt handler, which also ends a halt. */
  function Arrived(s: State, reader: nat, code: byte): State {
    var awake := s.(pc := if s.pc.Halted? then Looking else s.pc);
    if |s.scan| < SCANCODE_CAPACITY then
      awake.(scan := s.scan + [code], waker := false, ready := if s.waker then Woken(s.ready, reader) else s.ready)
    else awake
  }

  ghost predicate Next(reader: nat, s: State, step: Step, s': State) {
    match step
    case KeyIrq(code) => s' == Arrived(s, reader, code)
    case Wake(t) => t != reader && s' == s.(ready := Woken(s.ready, t), pc := if s.pc.Halted? then Looking else s.pc)
    case Resume => s.pc.Halted? && s' == s.(pc := Looking)
    case PopTask =>
      && s.pc.Looking? && s.ready != []
      && var t := s.ready[0];
      s' == s.(ready := s.ready[1..], pc := if t !in s.tasks then Looking else if t == reader then First else Other(t))
    case FirstPop =>
      && s.pc.First?
      && s' == if s.scan == [] then s.(pc := Registering) else s.(scan := s.scan[1..], pc := Decoding(s.scan[0]))
    case Register => s.pc.Registering? && s' == s.(waker := true, pc := Second)
    case SecondPop =>
      && s.pc.Second?
      && s' == if s.scan == [] then s.(pc := Looking) else s.(scan := s.scan[1..], pc := Taking(s.scan[0]))
    case TakeWaker => s.pc.Taking? && s' == s.(waker := false, pc := Decoding(s.pc.code))
    case Decode => s.pc.Decoding? && s' == s.(pc := First)
    case Finish(done) =>
      s.pc.Other? && s' == s.(tasks := if done then s.tasks - {s.pc.task} else s.tasks, pc := Looking)
    case Sleep => s.pc.Looking? && s' == if s.ready == [] then s.(pc := Halted) else s
  }

  /** The reader is being polled. */
  predicate MidPoll(pc: Pc) {
    pc.First? || pc.Registering? || pc.Second? || pc.Taking? || pc.Decoding?
  }

  /** The reader will look at the scancode queue again without another wakeup. */
  predicate WillLook(reader: nat, s: State) {
    reader in s.ready || MidPoll(s.pc)
  }

  ghost predicate Inv(reader: nat, s: State) {
    && |s.scan| <= SCANCODE_CAPACITY && |s.ready| <= MAX_QUEUED_TASKS
    && reader in s.tasks && s.pc != Other(reader)
    && (!WillLook(reader, s) ==> s.scan == [] && s.waker)
    && (s.pc.Second? && s.scan == [] ==> s.waker || reader in s.ready)
  }

  /** `Executor::spawn` of the reader and then `run`: the reader is queued. */
  lemma StartInv(reader: nat, tasks: set<nat>)
    requires reader in tasks
    ensures Inv(reader, State([], false, [reader], tasks, Looking))
  {
  }

  /** The interrupt would take the registered waker and then drop the wakeup. */
  predicate DropsWakeup(reader: nat, s: State) {
    |s.scan| < SCANCODE_CAPACITY && s.waker && |s.ready| == MAX_QUEUED_TASKS && !WillLook(reader, s)
  }

  /** Every step keeps the invariant, except a keyboard interrupt exactly when it drops the wakeup of a
      reader that will not look by itself. */
  lemma StepKeeps(reader: nat, s: State, step: Step, s': State)
    requires Inv(reader, s) && Next(reader, s, step, s')
    ensures Inv(reader, s') <==> !(step.KeyIrq? && DropsWakeup(reader, s))
  {
    if step == PopTask {
      assert s.ready == [s.ready[0]] + s.ready[1..];
    }
    if step.KeyIrq? && s.waker && |s.ready| < MAX_QUEUED_TASKS {
      assert (s.ready + [reader])[|s.ready|] == reader;
    }
  }

  ghost predicate Run(reader: nat, ss: seq<State>, steps: seq<Step>) {
    && |ss| == |steps| + 1
    && forall i :: 0 <= i < |steps| ==> Next(reader, ss[i], steps[i], ss[i + 1])
  }

  /** What halting relies on: with no wakeup dropped, in every state a queued scancode means that the reader
      is queued or still looking, and the executor is never halted with input pending. */
  lemma {:induction false} NoLostInput(reader: nat, ss: seq<State>, steps: seq<Step>, j: nat)
    requires Run(reader, ss, steps) && Inv(reader, ss[0]) && j < |ss|
    requires forall i :: 0 <= i < j ==> !(steps[i].KeyIrq? && DropsWakeup(reader, ss[i]))
    ensures Inv(reader, ss[j])
    ensures ss[j].scan != [] ==> WillLook(reader, ss[j])
    ensures j < |steps| && steps[j] == Sleep && ss[j + 1].pc.Halted? ==> ss[j].scan == [] && ss[j].waker
  {
    if j > 0 {
      NoLostInput(reader, ss, steps, j - 1);
      assert Next(reader, ss[j - 1], steps[j - 1], ss[j]);
      StepKeeps(reader, ss[j - 1], steps[j - 1], ss[j]);
    }
    if j < |steps| {
      assert Next(reader, ss[j], steps[j], ss[j + 1]);
    }
  }

  // ---------------------------------------------------------------- what becomes of a scancode

  /** The scancodes of the interrupts among the first `j` steps that found room for them. */
  function Pressed(ss: seq<State>, steps: seq<Step>, j: nat): seq<byte>
    requires j <= |steps| < |ss|
  {
    if j == 0 then []
    else if steps[j - 1].KeyIrq? && |ss[j - 1].scan| < 100 then Pressed(ss, steps, j - 1) + [steps[j - 1].code]
    else Pressed(ss, steps, j - 1)
  }

  /** The scancode the reader holds. */
  function InHand(pc: Pc): seq<byte> {
    if pc.Taking? || pc.Decoding? then [pc.code] else []
  }

  /** The scancodes decoded by the first `j` steps. */
  function Decoded(ss: seq<State>, steps: seq<Step>, j: nat): seq<byte>
    requires j <= |steps| < |ss|
  {
    if j == 0 then []
    else if steps[j - 1].Decode? then Decoded(ss, steps, j - 1) + InHand(ss[j - 1].pc)
    else Decoded(ss, steps, j - 1)
  }

  /** One step moves scancodes along and neither loses, repeats nor reorders any. */
  lemma ScancodeMoves(reader: nat, s: State, step: Step, s': State)
    requires Next(reader, s, step, s')
    ensures var came := if step.KeyIrq? && |s.scan| < 100 then [step.code] else [];
            var went := if step.Decode? then InHand(s.pc) else [];
            InHand(s.pc) + s.scan + came == went + InHand(s'.pc) + s'.scan
  {
    if s.scan != [] {
      assert s.scan == [s.scan[0]] + s.scan[1..];
    }
  }

  /** In every run every scancode is decoded exactly once and in the order it came, or still in the reader's hand
      or queued: those there were at the start and those that found room since are those decoded, the one in
      hand and those queued. A decoded scancode was in hand. */
  lemma {:induction false} ScancodesKept(reader: nat, ss: seq<State>, steps: seq<Step>, j: nat)
    requires Run(reader, ss, steps) && j < |ss|
    ensures InHand(ss[0].pc) + ss[0].scan + Pressed(ss, steps, j)
         == Decoded(ss, steps, j) + InHand(ss[j].pc) + ss[j].scan
    ensures forall i :: 0 <= i < |steps| && steps[i].Decode? ==> |InHand(ss[i].pc)| == 1
  {
    forall i | 0 <= i < |steps| && steps[i].Decode?
      ensures |InHand(ss[i].pc)| == 1
    {
      assert Next(reader, ss[i], steps[i], ss[i + 1]);
    }
    if j > 0 {
      ScancodesKept(reader, ss, steps, j - 1);
      assert Next(reader, ss[j - 1], steps[j - 1], ss[j]);
      ScancodeMoves(reader, ss[j - 1], steps[j - 1], ss[j]);
      hide Next, InHand;
      MovedOn(InHand(ss[0].pc) + ss[0].scan, Pressed(ss, steps, j - 1), Decoded(ss, steps, j - 1),
              InHand(ss[j - 1].pc), ss[j - 1].scan,
              if steps[j - 1].KeyIrq? && |ss[j - 1].scan| < 100 then [steps[j - 1].code] else [],
              if steps[j - 1].Decode? then InHand(ss[j - 1].pc) else [], InHand(ss[j].pc), ss[j].scan);
    } else {
      assert InHand(ss[0].pc) + ss[0].scan + [] == [] + InHand(ss[0].pc) + ss[0].scan;
    }
  }

  lemma MovedOn(start: seq<byte>, pressed: seq<byte>, decoded: seq<byte>, hand: seq<byte>, scan: seq<byte>,
                came: seq<byte>, went: seq<byte>, hand': seq<byte>, scan': seq<byte>)
    requires start + pressed == decoded + hand + scan && hand + scan + came == went + hand' + scan'
    ensures start + (pressed + came) == (decoded + went) + hand' + scan'
    ensures pressed + [] == pressed && decoded + [] == decoded
  {
    calc {
      start + (pressed + came);
      (start + pressed) + came;
      decoded + (hand + scan + came);
      decoded + (went + hand' + scan');
      (decoded + went) + hand' + scan';
    }
  }

  // ---------------------------------------------------------------- whose turn it is

  /** How many tasks the first `j` steps took from the ready queue. */
  function Turns(steps: seq<Step>, j: nat): nat
    requires j <= |steps|
  {
    if j == 0 then 0 else Turns(steps, j - 1) + if steps[j - 1].PopTask? then 1 else 0
  }

  lemma ReadyMoves(reader: nat, s: State, step: Step, s': State, p: nat)
    requires Next(reader, s, step, s') && p < |s.ready|
    ensures step.PopTask? && p > 0 ==> p - 1 < |s'.ready| && s'.ready[p - 1] == s.ready[p]
    ensures !step.PopTask? ==> p < |s'.ready| && s'.ready[p] == s.ready[p]
  {
  }

  /** A queued task moves up one place at each turn, whatever wakeups and interrupts come in between. */
  lemma {:induction false} WakeupsInOrder(reader: nat, ss: seq<State>, steps: seq<Step>, j: nat, p: nat)
    requires Run(reader, ss, steps) && j < |ss| && p < |ss[0].ready| && Turns(steps, j) <= p
    ensures p - Turns(steps, j) < |ss[j].ready| && ss[j].ready[p - Turns(steps, j)] == ss[0].ready[p]
  {
    if j > 0 {
      WakeupsInOrder(reader, ss, steps, j - 1, p);
      assert Next(reader, ss[j - 1], steps[j - 1], ss[j]);
      hide Next;
      ReadyMoves(reader, ss[j - 1], steps[j - 1], ss[j], p - Turns(steps, j - 1));
    }
  }

  /** The task at place `p` of the ready queue gets exactly the turn after `p` others, and is then polled if it
      still exists: the reader from its first look at the scancodes, any other as itself. */
  lemma TaskGetsTurn(reader: nat, ss: seq<State>, steps: seq<Step>, j: nat, p: nat)
    requires Run(reader, ss, steps) && j < |steps| && p < |ss[0].ready| && Turns(steps, j) == p && steps[j] == PopTask
    ensures var t := ss[0].ready[p];
            ss[j + 1].pc == if t !in ss[j].tasks then Looking else if t == reader then First else Other(t)
  {
    WakeupsInOrder(reader, ss, steps, j, p);
    assert Next(reader, ss[j], steps[j], ss[j + 1]);
  }

  /** A task that has finished is never polled again, in any later state of any run. */
  lemma {:induction false} FinishedForGood(reader: nat, ss: seq<State>, steps: seq<Step>, i: nat, j: nat)
    requires Run(reader, ss, steps) && i < j < |ss| && steps[i] == Finish(true)
    ensures ss[i].pc.Other? && ss[i].pc.task !in ss[j].tasks && ss[j].pc != Other(ss[i].pc.task)
    decreases j
  {
    assert Next(reader, ss[i], steps[i], ss[i + 1]);
    if i + 1 < j {
      FinishedForGood(reader, ss, steps, i, j - 1);
      assert Next(reader, ss[j - 1], steps[j - 1], ss[j]);
    }
  }

  // ---------------------------------------------------------------- what becomes of a waker

  function Ones(b: bool): nat {
    if b then 1 else 0
  }

  /** How often the waker was registered, and how often a registered one was used: by an interrupt that wakes the
      reader, or by the reader that takes it back. */
  function Registered(steps: seq<Step>, j: nat): nat
    requires j <= |steps|
  {
    if j == 0 then 0 else Registered(steps, j - 1) + Ones(steps[j - 1].Register?)
  }

  function Used(ss: seq<State>, steps: seq<Step>, j: nat): nat
    requires j <= |steps| < |ss|
  {
    if j == 0 then 0
    else
      Used(ss, steps, j - 1)
      + Ones(ss[j - 1].waker && (steps[j - 1].TakeWaker? || (steps[j - 1].KeyIrq? && |ss[j - 1].scan| < 100)))
  }

  /** In every run each registration of the waker is used at most once, and one that is still there was not. */
  lemma {:induction false} WakersUsedOnce(reader: nat, ss: seq<State>, steps: seq<Step>, j: nat)
    requires Run(reader, ss, steps) && j < |ss|
    ensures Used(ss, steps, j) + Ones(ss[j].waker) <= Registered(steps, j) + Ones(ss[0].waker)
  {
    if j > 0 {
      WakersUsedOnce(reader, ss, steps, j - 1);
      assert Next(reader, ss[j - 1], steps[j - 1], ss[j]);
    }
  }

  /** The scancode that ends a halt makes the reader ready, and the executor looks for it. */
  lemma HaltEndsWithReader(reader: nat, s: State, code: byte)
    requires Inv(reader, s) && s.pc.Halted? && s.ready == []
    ensures reader in Arrived(s, reader, code).ready && Arrived(s, reader, code).scan == [code]
    ensures Arrived(s, reader, code).pc.Looking?
  {
    assert Woken([], reader) == [reader];
  }

  /** Only the reader is ever queued. */
  predicate OnlyReader(reader: nat, s: State) {
    (forall t :: t in s.ready ==> t == reader) && !s.pc.Other?
  }

  /** With the reader as the only task no wakeup is ever dropped for good: a full queue holds the reader. */
  lemma {:induction false} SingleReaderSafe(reader: nat, ss: seq<State>, steps: seq<Step>, j: nat)
    requires Run(reader, ss, steps) && Inv(reader, ss[0]) && OnlyReader(reader, ss[0]) && j < |ss|
    requires forall i :: 0 <= i < |steps| ==> !steps[i].Wake?
    ensures Inv(reader, ss[j]) && OnlyReader(reader, ss[j]) && !DropsWakeup(reader, ss[j])
  {
    if j > 0 {
      SingleReaderSafe(reader, ss, steps, j - 1);
      assert Next(reader, ss[j - 1], steps[j - 1], ss[j]);
      StepKeeps(reader, ss[j - 1], steps[j - 1], ss[j]);
      OnlyReaderStep(reader, ss[j - 1], steps[j - 1], ss[j]);
    }
    hide Next, Inv;
    if |ss[j].ready| == MAX_QUEUED_TASKS {
      assert ss[j].ready[0] in ss[j].ready;
    }
  }

  lemma OnlyReaderStep(reader: nat, s: State, step: Step, s': State)
    requires Inv(reader, s) && OnlyReader(reader, s) && Next(reader, s, step, s') && !step.Wake?
    ensures OnlyReader(reader, s')
  {
    forall t | t in s'.ready
      ensures t == reader
    {
      assert t in s.ready || t == reader;
    }
    if step == PopTask {
      assert s.ready[0] in s.ready;
    }
  }

  /** The reader waits, nobody has its waker, and input is pending. */
  predicate Stuck(reader: nat, s: State) {
    !WillLook(reader, s) && !s.waker && s.scan != []
  }

  /** With several tasks, a dropped wakeup leaves the reader stuck. */
  lemma DroppedWakeupSticks(reader: nat, s: State, code: byte)
    requires Inv(reader, s) && DropsWakeup(reader, s)
    ensures Stuck(reader, Arrived(s, reader, code))
  {
    assert s.pc.Halted? ==> !MidPoll(Looking);
  }

  lemma StuckStep(reader: nat, s: State, step: Step, s': State)
    requires Stuck(reader, s) && Next(reader, s, step, s')
    ensures Stuck(reader, s')
  {
    if step == PopTask {
      assert s.ready == [s.ready[0]] + s.ready[1..];
    }
  }

  /** A stuck reader is stuck for good: no later interrupt, wakeup of another task or halt in any run ever
      gets it going again. */
  lemma {:induction false} StuckForever(reader: nat, ss: seq<State>, steps: seq<Step>, i: nat, j: nat)
    requires Run(reader, ss, steps) && i <= j < |ss| && Stuck(reader, ss[i])
    ensures Stuck(reader, ss[j])
    decreases j - i
  {
    hide Next, Stuck;
    if i < j {
      StuckForever(reader, ss, steps, i, j - 1);
      StuckStep(reader, ss[j - 1], steps[j - 1], ss[j]);
    }
  }

  // ---------------------------------------------------------------- a run that drops a wakeup

  /** The reader parked with its waker registered, and `n` wakeups of another task queued. */
  function Parked(reader: nat, task: nat, n: nat): State {
    State([], true, seq(n, _ => task), {reader, task}, Looking)
  }

  /** The states of a run from `spawn`: the reader is polled once and parks, then the other task is woken until
      the ready queue is full. */
  function DropStates(reader: nat, task: nat): (ss: seq<State>)
    ensures |ss| == 133
  {
    var tasks := {reader, task};
    [State([], false, [reader], tasks, Looking), State([], false, [], tasks, First),
     State([], false, [], tasks, Registering), State([], true, [], tasks, Second)]
      + seq(129, n requires 0 <= n => Parked(reader, task, n))
  }

  function DropSteps(task: nat): (steps: seq<Step>)
    ensures |steps| == 132
  {
    [PopTask, FirstPop, Register, SecondPop] + seq(128, _ => Wake(task))
  }

  /** The run ends in a state where the next scancode's wakeup is dropped and the reader stuck. */
  lemma WakeupCanBeDropped(reader: nat, task: nat, code: byte)
    requires task != reader
    ensures Run(reader, DropStates(reader, task), DropSteps(task))
    ensures DropStates(reader, task)[0] == State([], false, [reader], {reader, task}, Looking)
    ensures var s := DropStates(reader, task)[132];
            Inv(reader, s) && DropsWakeup(reader, s) && Stuck(reader, Arrived(s, reader, code))
  {
    var ss, steps := DropStates(reader, task), DropSteps(task);
    forall i | 0 <= i < 132
      ensures Next(reader, ss[i], steps[i], ss[i + 1])
    {
      if i < 4 {
        ParkStep(reader, task, i);
      } else {
        assert ss[i] == Parked(reader, task, i - 4) && ss[i + 1] == Parked(reader, task, i - 3);
        WakeStep(reader, task, i - 4);
      }
    }
    var s := Parked(reader, task, 128);
    assert ss[132] == s;
    assert forall t :: t in s.ready ==> t == task;
    DroppedWakeupSticks(reader, s, code);
  }

  lemma ParkStep(reader: nat, task: nat, i: nat)
    requires task != reader && i < 4
    ensures Next(reader, DropStates(reader, task)[i], DropSteps(task)[i], DropStates(reader, task)[i + 1])
  {
    var ss := DropStates(reader, task);
    assert Parked(reader, task, 0).ready == [];
    assert ss[4] == Parked(reader, task, 0);
    assert [reader][1..] == [];
  }

  lemma WakeStep(reader: nat, task: nat, n: nat)
    requires task != reader && n < 128
    ensures Next(reader, Parked(reader, task, n), Wake(task), Parked(reader, task, n + 1))
  {
    assert seq(n + 1, _ => task) == seq(n, _ => task) + [task];
  }
}
