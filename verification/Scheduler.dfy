/** The thread table, the ready queue and the scheduling decisions (src/scheduler/mod.rs). */
module Scheduler {
  import opened Basics
  import opened Frames

  const MAX_THREADS: nat := 16

  /** A file read in full at open time, and how much of it was already handed out. */
  datatype OpenFile = OpenFile(data: seq<byte>, offset: nat)

  /** `stack` names the thread's kernel-stack allocation; `table` is its own L4 frame, if any. */
  datatype Thread = Thread(stack: nat, table: Option<Frame>, files: seq<Option<OpenFile>>)

  /** The scheduler state as a value; the ready queue is the plain sequence of waiting slots. */
  datatype Sched = Sched(threads: seq<Option<Thread>>, queue: seq<nat>, current: nat,
                         zombie: Option<nat>, gens: seq<nat>, kernel: Frame)

  predicate Occupied(s: Sched, i: nat) {
    i < |s.threads| && s.threads[i].Some?
  }

  /** The table a thread runs under: its own, or the kernel's. */
  function TableOf(s: Sched, i: nat): Frame
    requires Occupied(s, i)
  {
    match s.threads[i].value.table
    case Some(f) => f
    case None => s.kernel
  }

  // ---------------------------------------------------------------- operations

  /** The lowest free slot at or after `from`. */
  function FirstFree(threads: seq<Option<Thread>>, from: nat): (r: Option<nat>)
    requires from <= |threads|
    ensures r.Some? ==> from <= r.value < |threads| && threads[r.value].None?
    ensures r.Some? ==> forall j :: from <= j < r.value ==> threads[j].Some?
    ensures r.None? ==> forall j :: from <= j < |threads| ==> threads[j].Some?
    decreases |threads| - from
  {
    if from == |threads| then None
    else if threads[from].None? then Some(from)
    else FirstFree(threads, from + 1)
  }

  predicate Shaped(s: Sched) {
    |s.threads| == MAX_THREADS == |s.gens| && s.current < MAX_THREADS
    && (s.zombie.Some? ==> s.zombie.value < MAX_THREADS)
  }

  /** A new thread takes the lowest free slot, starts that slot's next generation and joins the back of
      the queue; None is the "thread table full" failure. */
  function Spawn(s: Sched, t: Thread): (r: Option<(Sched, nat)>)
    requires Shaped(s)
  {
    match FirstFree(s.threads, 0)
    case None => None
    case Some(id) =>
      Some((s.(threads := s.threads[id := Some(t)], gens := s.gens[id := s.gens[id] + 1], queue := s.queue + [id]), id))
  }

  /** The lock scope of `reap_zombie`: clear the pending zombie and its slot. */
  function TakeZombie(s: Sched): (r: (Sched, Option<Thread>))
    requires Shaped(s)
  {
    match s.zombie
    case None => (s, None)
    case Some(z) => (s.(zombie := None, threads := s.threads[z := None]), s.threads[z])
  }

  /** The lock scope of `schedule`: rotate, or None when nothing else is ready. */
  function SwitchNext(s: Sched): (r: Option<Sched>) {
    if s.queue == [] then None
    else Some(s.(current := s.queue[0], queue := s.queue[1..] + [s.current]))
  }

  /** The lock scope of `exit_current_thread`: the current thread becomes the zombie; None is one of its
      failures, "the boot thread can't exit" or "no other thread left to run". */
  function ExitNext(s: Sched): (r: Option<Sched>) {
    if s.current == 0 || s.queue == [] then None
    else Some(s.(current := s.queue[0], queue := s.queue[1..], zombie := Some(s.current)))
  }

  // ---------------------------------------------------------------- invariants

  predicate Waiting(s: Sched, i: nat) {
    Occupied(s, i) && i != s.current && s.zombie != Some(i)
  }

  /** Kept by every interleaving: the current thread, the queued threads and the zombie occupy distinct
      slots, and the boot thread is current or queued. */
  ghost predicate WellFormed(s: Sched) {
    && Shaped(s)
    && Occupied(s, s.current)
    && NoDup(s.queue)
    && (forall i :: i in s.queue ==> Waiting(s, i))
    && (s.zombie.Some? ==> Occupied(s, s.zombie.value) && s.zombie.value != s.current && s.zombie.value != 0)
    && (s.current == 0 || 0 in s.queue)
    && s.threads[0].Some? && s.threads[0].value.table == None
  }

  predicate HasRole(s: Sched, i: nat) {
    i == s.current || i in s.queue || s.zombie == Some(i)
  }

  /** No occupied slot is forgotten; with `WellFormed`, every one has exactly one of the three roles. */
  ghost predicate ThreeRoles(s: Sched) {
    forall i :: Occupied(s, i) ==> HasRole(s, i)
  }

  /** The ready queue never fills up. */
  lemma QueueBound(s: Sched)
    requires WellFormed(s)
    ensures |s.queue| < MAX_THREADS
  {
    NoDupCardinality(s.queue);
    var all := Elements(s.queue) + {s.current};
    assert s.current !in Elements(s.queue);
    assert |all| == |s.queue| + 1;
    forall i | i in all
      ensures i < MAX_THREADS
    {
      if i != s.current {
        assert Waiting(s, i);
      }
    }
    BelowCardinality(all, MAX_THREADS);
  }

  lemma SpawnKeeps(s: Sched, t: Thread)
    requires WellFormed(s) && Spawn(s, t).Some?
    ensures WellFormed(Spawn(s, t).value.0)
    ensures ThreeRoles(s) <==> ThreeRoles(Spawn(s, t).value.0)
    ensures var (s', id) := Spawn(s, t).value;
            !Occupied(s, id) && Occupied(s', id) && !HasRole(s, id) && id in s'.queue
  {
    var (s', id) := Spawn(s, t).value;
    forall i | i in s.queue
      ensures i != id
    {
      assert Waiting(s, i);
    }
    NoDupConcat(s.queue, [id]);
    assert s'.queue[|s.queue|] == id;
    forall i: nat
      ensures i in s'.queue ==> Waiting(s', i)
      ensures i in s'.queue <==> i in s.queue || i == id
    {
      if i in s.queue {
        assert Waiting(s, i);
      }
    }
    forall i: nat
      ensures i != id ==> (Occupied(s', i) <==> Occupied(s, i)) && (HasRole(s', i) <==> HasRole(s, i))
    {
    }
    if ThreeRoles(s') {
      forall i: nat | Occupied(s, i)
        ensures HasRole(s, i)
      {
        assert HasRole(s', i);
      }
    }
  }

  lemma TakeKeeps(s: Sched)
    requires WellFormed(s)
    ensures WellFormed(TakeZombie(s).0)
    ensures ThreeRoles(s) <==> ThreeRoles(TakeZombie(s).0)
    ensures s.zombie.Some? <==> TakeZombie(s).1.Some?
    ensures TakeZombie(s).0.zombie.None?
  {
    var s' := TakeZombie(s).0;
    forall i | i in s'.queue
      ensures Waiting(s', i)
    {
      assert Waiting(s, i);
    }
    forall i: nat
      ensures Some(i) != s.zombie ==> (Occupied(s', i) <==> Occupied(s, i)) && (HasRole(s', i) <==> HasRole(s, i))
    {
    }
    if ThreeRoles(s') {
      forall i: nat | Occupied(s, i)
        ensures HasRole(s, i)
      {
        assert Some(i) != s.zombie ==> HasRole(s', i);
      }
    }
    if ThreeRoles(s) {
      forall i: nat | Occupied(s', i)
        ensures HasRole(s', i)
      {
        assert HasRole(s, i);
      }
    }
  }

  /** Scheduling finds both threads in the table. */
  lemma SwitchKeeps(s: Sched)
    requires WellFormed(s) && SwitchNext(s).Some?
    ensures WellFormed(SwitchNext(s).value)
    ensures ThreeRoles(s) <==> ThreeRoles(SwitchNext(s).value)
  {
    var s' := SwitchNext(s).value;
    assert s.queue == [s.queue[0]] + s.queue[1..];
    assert Waiting(s, s.queue[0]);
    forall i | i in s.queue
      ensures i != s.current
    {
      assert Waiting(s, i);
    }
    assert forall i :: i in s.queue[1..] ==> i in s.queue;
    NoDupConcat(s.queue[1..], [s.current]);
    assert s'.queue[|s'.queue| - 1] == s.current;
    forall i: nat
      ensures i in s'.queue <==> (i in s.queue && i != s'.current) || i == s.current
      ensures i in s'.queue ==> Waiting(s', i)
      ensures HasRole(s', i) <==> HasRole(s, i)
      ensures Occupied(s', i) <==> Occupied(s, i)
    {
      if i in s.queue {
        assert Waiting(s, i);
      }
    }
    if ThreeRoles(s') {
      forall i: nat | Occupied(s, i)
        ensures HasRole(s, i)
      {
        assert HasRole(s', i);
      }
    }
  }

  /** Only the boot thread can find the queue empty. */
  lemma IdleIsBoot(s: Sched)
    requires WellFormed(s) && s.queue == []
    ensures s.current == 0 && TableOf(s, s.current) == s.kernel
  {
  }

  /** An exit by any other thread succeeds, and it forgets a slot exactly when a zombie was pending. */
  lemma ExitKeeps(s: Sched)
    requires WellFormed(s) && s.current != 0
    ensures ExitNext(s).Some? && WellFormed(ExitNext(s).value)
    ensures ThreeRoles(ExitNext(s).value) <==> ThreeRoles(s) && s.zombie.None?
  {
    assert 0 in s.queue;
    var s' := ExitNext(s).value;
    assert s.queue == [s.queue[0]] + s.queue[1..];
    assert Waiting(s, s.queue[0]);
    forall i: nat
      ensures i in s'.queue ==> Waiting(s', i)
      ensures i in s'.queue <==> i in s.queue && i != s'.current
      ensures Occupied(s', i) <==> Occupied(s, i)
      ensures HasRole(s', i) <==> HasRole(s, i) && s.zombie != Some(i)
    {
      if i in s.queue {
        assert Waiting(s, i);
      }
    }
    if ThreeRoles(s') {
      forall i: nat | Occupied(s, i)
        ensures HasRole(s, i)
      {
        assert HasRole(s', i);
      }
    }
    forall z: nat | s.zombie == Some(z)
      ensures Occupied(s', z) && !HasRole(s', z)
    {
    }
  }
}
