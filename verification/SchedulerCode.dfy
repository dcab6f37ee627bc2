/** The scheduler's mutable state: a fixed-capacity ring of ready slots and the thread table, updated in
    place, refining the operations on values. */
module SchedulerCode {
  import opened Basics
  import opened Frames
  import opened Scheduler

  /** A ring buffer holding up to MAX_THREADS slots, oldest at `head`. */
  class ReadyQueue {
    const ids: array<nat>
    var head: nat
    var len: nat

    ghost predicate Valid()
      reads this, ids
    {
      ids.Length == MAX_THREADS && head < MAX_THREADS && len <= MAX_THREADS
    }

    /** The queued slots, oldest first. */
    ghost function Contents(): (q: seq<nat>)
      requires Valid()
      reads this, ids
      ensures |q| == len
    {
      seq(len, i requires 0 <= i < len reads this, ids requires Valid() => ids[(head + i) % MAX_THREADS])
    }

    constructor ()
      ensures Valid() && fresh(ids) && Contents() == []
    {
      ids := new nat[MAX_THREADS](_ => 0);
      head := 0;
      len := 0;
    }

    /** The source panics with "ready queue full" outside this precondition. */
    method PushBack(id: nat)
      requires Valid() && |Contents()| < MAX_THREADS
      modifies this`len, ids
      ensures Valid() && Contents() == old(Contents()) + [id]
    {
      var index := (head + len) % MAX_THREADS;
      ids[index] := id;
      len := len + 1;
    }

    method PopFront() returns (r: Option<nat>)
      requires Valid()
      modifies this`head, this`len
      ensures Valid()
      ensures r == None <==> old(Contents()) == []
      ensures r == None ==> Contents() == []
      ensures r.Some? ==> old(Contents()) == [r.value] + Contents()
    {
      if len == 0 {
        return None;
      }
      var id := ids[head];
      ghost var q, h := Contents(), head;
      head := (head + 1) % MAX_THREADS;
      len := len - 1;
      forall i: nat | i < len
        ensures Contents()[i] == q[i + 1]
      {
        WrapNext(h, i);
      }
      r := Some(id);
    }
  }

  /** One position further, seen from the next head. */
  lemma WrapNext(head: nat, i: nat)
    ensures ((head + 1) % MAX_THREADS + i) % MAX_THREADS == (head + (i + 1)) % MAX_THREADS
  {
  }

  class SchedulerState {
    const threads: array<Option<Thread>>
    const gens: array<nat>
    const queue: ReadyQueue
    var current: nat
    var zombie: Option<nat>
    var kernel: Frame

    ghost predicate Valid()
      reads this, threads, gens, queue, queue.ids
    {
      && threads.Length == MAX_THREADS == gens.Length && current < MAX_THREADS
      && (zombie.Some? ==> zombie.value < MAX_THREADS)
      && queue.Valid() && gens != queue.ids
    }

    /** The state as a value. */
    ghost function State(): (s: Sched)
      requires Valid()
      reads this, threads, gens, queue, queue.ids
      ensures Shaped(s)
    {
      Sched(threads[..], queue.Contents(), current, zombie, gens[..], kernel)
    }

    /** `init`: the running context becomes thread 0. */
    constructor (table: Frame, boot: Thread)
      requires boot.table == None
      ensures Valid() && fresh(threads) && fresh(gens) && fresh(queue) && fresh(queue.ids)
      ensures WellFormed(State()) && ThreeRoles(State())
      ensures State().threads[0] == Some(boot) && State().kernel == table && State().current == 0
      ensures forall i: nat :: i < MAX_THREADS ==> State().gens[i] == if i == 0 then 1 else 0
    {
      threads := new Option<Thread>[MAX_THREADS](i => if i == 0 then Some(boot) else None);
      gens := new nat[MAX_THREADS](i => if i == 0 then 1 else 0);
      queue := new ReadyQueue();
      current := 0;
      zombie := None;
      kernel := table;
      new;
      assert forall i: nat :: Occupied(State(), i) ==> i == 0;
    }

    method FreeSlot() returns (r: Option<nat>)
      requires Valid()
      ensures r == FirstFree(threads[..], 0)
    {
      var i := 0;
      while i < MAX_THREADS
        invariant i <= MAX_THREADS
        invariant FirstFree(threads[..], 0) == FirstFree(threads[..], i)
      {
        if threads[i].None? {
          return Some(i);
        }
        i := i + 1;
      }
      r := None;
    }

    /** The table updates of `spawn` and `spawn_isolated_inner`. */
    method SpawnThread(t: Thread) returns (r: Option<(nat, nat)>)
      requires Valid() && WellFormed(State())
      modifies this, threads, gens, queue, queue.ids
      ensures Valid() && WellFormed(State())
      ensures r.None? <==> Spawn(old(State()), t).None?
      ensures r.None? ==> State() == old(State())
      ensures r.Some? ==> Spawn(old(State()), t) == Some((State(), r.value.0)) && r.value.1 == State().gens[r.value.0]
    {
      ghost var s := State();
      var free := FreeSlot();
      if free.None? {
        return None;
      }
      var id := free.value;
      QueueBound(s);
      SpawnKeeps(s, t);
      hide WellFormed, FirstFree, ReadyQueue.Contents;
      gens[id] := gens[id] + 1;
      threads[id] := Some(t);
      queue.PushBack(id);
      assert threads[..] == s.threads[id := Some(t)] && gens[..] == s.gens[id := s.gens[id] + 1];
      r := Some((id, gens[id]));
    }

    /** The lock scope of `reap_zombie`. */
    method Reap() returns (dead: Option<Thread>)
      requires Valid() && WellFormed(State())
      modifies this, threads
      ensures Valid() && WellFormed(State())
      ensures (State(), dead) == TakeZombie(old(State()))
    {
      TakeKeeps(State());
      if zombie.None? {
        return None;
      }
      var z := zombie.value;
      zombie := None;
      dead := threads[z];
      threads[z] := None;
    }

    /** The lock scope of `schedule`: whether a switch happens, and the table to load if so. */
    method Rotate() returns (switched: bool, table: Frame)
      requires Valid() && WellFormed(State())
      modifies this, queue, queue.ids
      ensures Valid() && WellFormed(State())
      ensures switched <==> SwitchNext(old(State())).Some?
      ensures switched ==> SwitchNext(old(State())) == Some(State()) && table == TableOf(State(), State().current)
      ensures !switched ==> State() == old(State())
    {
      ghost var s := State();
      if SwitchNext(s).Some? {
        SwitchKeeps(s);
        assert Occupied(s, s.queue[0]);
      }
      hide WellFormed, ReadyQueue.Contents;
      var next := queue.PopFront();
      assert threads[..] == s.threads && gens[..] == s.gens;
      if next.None? {
        return false, kernel;
      }
      queue.PushBack(current);
      current := next.value;
      assert threads[..] == s.threads && gens[..] == s.gens && queue.Contents() == s.queue[1..] + [s.current];
      var thread := threads[current].value;
      table := if thread.table.Some? then thread.table.value else kernel;
      switched := true;
    }

    /** The lock scope of `exit_current_thread`, for any thread but the boot thread: it always finds a
        thread to switch to. */
    method Retire() returns (table: Frame)
      requires Valid() && WellFormed(State()) && current != 0
      modifies this, queue, queue.ids
      ensures Valid() && WellFormed(State())
      ensures ExitNext(old(State())) == Some(State()) && table == TableOf(State(), State().current)
    {
      ExitKeeps(State());
      var id := current;
      var next := queue.PopFront();
      current := next.value;
      zombie := Some(id);
      var thread := threads[current].value;
      table := if thread.table.Some? then thread.table.value else kernel;
    }
  }
}
