/** Which frames have never been issued: over every run they are a tail of the flat enumeration of the memory
    map, and the allocator's cursor only moves forward. */
module FreshFrames {
  import opened Basics
  import opened Frames
  import opened Paging
  import opened Mapping
  import opened AddressSpace
  import opened Ownership
  import opened Loader
  import opened StackSharing
  import opened Partition

  predicate Stacked(pool: seq<Frame>, pool': seq<Frame>) {
    || (|pool'| <= |pool| && pool' == pool[|pool| - |pool'|..])
    || (|pool| <= |pool'| && pool == pool'[|pool'| - |pool|..])
  }

  /** Every step pops from the pool or pushes onto it. */
  lemma StepStacked(m: Machine, w: World, step: Step, w': World)
    requires Inv(m, w) && Next(m, w, step, w')
    ensures Stacked(w.phys.pool, w'.phys.pool)
  {
    hide Walk, EntryAt, InUse, Owned, TableTree, MapTo, MapPage, AddrOf, PathOf, Confined, PathEffect, Placed,
      SharesWith, OwnedTree;
    match step
    case Hold =>
    case Begin(r, base) =>
    case KernelMap(p, flags) =>
      KernelMapEffect(m, w, w', p, flags);
    case Create =>
      NewSpaceEffect(w.phys, m.kernel, m.off);
    case Map(r, p, data, flags) =>
      assert GoodSpace(m, w, r);
      MapPageEffect(w.phys, r, m.off, w.spaces[r], p, data, flags);
    case Share(r) =>
      assert GoodSpace(m, w, r);
      MapToEffect(w.phys, r, PathOf(w.spaces[r].hi), Walk(w.phys.mem, m.kernel, PathOf(w.spaces[r].hi)).value,
                  KERNEL_ONLY);
    case Destroy(r) =>
      var freed: seq<Frame> :| IsFreedList(w.phys.mem, r, m.off, w.spaces[r], freed)
          && w'.phys.pool == Reversed(freed) + w.phys.pool;
  }

  /** The shortest the pool has been in states 0 to `j`. */
  function LeastPool(states: seq<World>, j: nat): (n: nat)
    requires j < |states|
    ensures forall i :: 0 <= i <= j ==> n <= |states[i].phys.pool|
    ensures exists i :: 0 <= i <= j && n == |states[i].phys.pool|
  {
    var here := |states[j].phys.pool|;
    if j == 0 then here
    else
      var before := LeastPool(states, j - 1);
      if here < before then here else before
  }

  /** The number of frames issued so far at least once: the allocator's cursor. */
  function Cursor(states: seq<World>, flat: seq<Frame>, j: nat): int
    requires j < |states|
  {
    |flat| - LeastPool(states, j)
  }

  /** The pool ends in the part of the enumeration from frame `k` on. */
  predicate EndsInFresh(pool: seq<Frame>, flat: seq<Frame>, k: nat) {
    k <= |flat| <= |pool| + k && pool[|pool| + k - |flat|..] == flat[k..]
  }

  lemma StackedEnds(pool: seq<Frame>, pool': seq<Frame>, flat: seq<Frame>, k: nat, k': nat)
    requires EndsInFresh(pool, flat, k) && Stacked(pool, pool') && k <= k' <= |flat| <= |pool'| + k'
    ensures EndsInFresh(pool', flat, k')
  {
    var n := |flat| - k';
    assert pool[|pool| - n..] == flat[k'..] by {
      var tail := pool[|pool| + k - |flat|..];
      assert tail[k' - k..] == pool[|pool| - n..];
      assert flat[k..][k' - k..] == flat[k'..];
    }
    if |pool'| <= |pool| && pool' == pool[|pool| - |pool'|..] {
      assert pool'[|pool'| - n..] == pool[|pool| - n..];
    } else {
      assert pool == pool'[|pool'| - |pool|..];
      assert pool'[|pool'| - n..] == pool[|pool| - n..];
    }
  }

  lemma EndsLater(pool: seq<Frame>, flat: seq<Frame>, k: nat, k': nat)
    requires EndsInFresh(pool, flat, k) && k <= k' <= |flat|
    ensures EndsInFresh(pool, flat, k')
  {
    StackedEnds(pool, pool, flat, k, k');
  }

  /** From boot, every pool up to state `j` ends in the frames from the cursor of state `j` on. */
  lemma {:induction false} FreshAlwaysPooled(m: Machine, states: seq<World>, steps: seq<Step>, flat: seq<Frame>,
                                             j: nat, i: nat)
    requires Run(m, states, steps) && Inv(m, states[0]) && states[0].phys.pool == flat && i <= j < |states|
    ensures 0 <= Cursor(states, flat, i) <= Cursor(states, flat, j) <= |flat|
    ensures EndsInFresh(states[i].phys.pool, flat, Cursor(states, flat, j))
    decreases j, i
  {
    hide Inv, Next;
    if i < j {
      FreshAlwaysPooled(m, states, steps, flat, j - 1, i);
      EndsLater(states[i].phys.pool, flat, Cursor(states, flat, j - 1), Cursor(states, flat, j));
    } else if j > 0 {
      FreshAlwaysPooled(m, states, steps, flat, j - 1, j - 1);
      RunKeepsPartition(m, states, steps, j - 1);
      StepStacked(m, states[j - 1], steps[j - 1], states[j]);
      StackedEnds(states[j - 1].phys.pool, states[j].phys.pool, flat, Cursor(states, flat, j - 1),
                  Cursor(states, flat, j));
    }
  }

  /** The frames of the enumeration before the cursor have all been issued: there was a state in which they
      were not available. */
  lemma IssuedBeforeCursor(m: Machine, states: seq<World>, steps: seq<Step>, flat: seq<Frame>, j: nat, x: Frame)
    returns (i: nat)
    requires Run(m, states, steps) && Inv(m, states[0]) && states[0].phys.pool == flat && j < |states|
    requires 0 <= Cursor(states, flat, j) <= |flat| && x in flat[..Cursor(states, flat, j)]
    ensures i <= j && x !in states[i].phys.pool
  {
    i :| 0 <= i <= j && LeastPool(states, j) == |states[i].phys.pool|;
    FreshAlwaysPooled(m, states, steps, flat, j, i);
    assert NoDup(flat);
    hide Inv, Next, Run, LeastPool;
    var k := Cursor(states, flat, j);
    assert states[i].phys.pool == flat[k..];
    forall a | 0 <= a < |flat[k..]|
      ensures flat[k..][a] != x
    {
      var b :| 0 <= b < k && flat[b] == x;
      assert flat[k..][a] == flat[k + a];
    }
  }

  /** Over every run from boot, at every state: the frames from the cursor on are available now and have been
      in every state before; the frames before it have been issued; the available frames are the returned
      ones, all issued before, and then the fresh ones, in enumeration order; and the cursor only moves
      forward. */
  lemma RunFreshTail(m: Machine, states: seq<World>, steps: seq<Step>, flat: seq<Frame>, j: nat)
    requires Run(m, states, steps) && Inv(m, states[0]) && states[0].phys.pool == flat && m.usable == Elements(flat)
    requires j < |states|
    ensures 0 <= Cursor(states, flat, j) <= |flat| && (j > 0 ==> Cursor(states, flat, j - 1) <= Cursor(states, flat, j))
    ensures forall i :: 0 <= i <= j ==> EndsInFresh(states[i].phys.pool, flat, Cursor(states, flat, j))
    ensures forall x :: x in flat[..Cursor(states, flat, j)] ==> exists i :: 0 <= i <= j && x !in states[i].phys.pool
    ensures var returned := |states[j].phys.pool| - LeastPool(states, j);
            && states[j].phys.pool == states[j].phys.pool[..returned] + flat[Cursor(states, flat, j)..]
            && forall x :: x in states[j].phys.pool[..returned] ==> x in flat[..Cursor(states, flat, j)]
  {
    FreshAlwaysPooled(m, states, steps, flat, j, j);
    if j > 0 {
      FreshAlwaysPooled(m, states, steps, flat, j, j - 1);
    }
    RunKeepsPartition(m, states, steps, j);
    ReturnedIssued(m, states[j], flat, Cursor(states, flat, j));
    hide Inv, Next, Run, LeastPool;
    forall i | 0 <= i <= j
      ensures EndsInFresh(states[i].phys.pool, flat, Cursor(states, flat, j))
    {
      FreshAlwaysPooled(m, states, steps, flat, j, i);
    }
    forall x | x in flat[..Cursor(states, flat, j)]
      ensures exists i :: 0 <= i <= j && x !in states[i].phys.pool
    {
      var i := IssuedBeforeCursor(m, states, steps, flat, j, x);
    }
  }

  lemma ReturnedIssued(m: Machine, w: World, flat: seq<Frame>, k: nat)
    requires Inv(m, w) && m.usable == Elements(flat) && EndsInFresh(w.phys.pool, flat, k)
    ensures var n := |w.phys.pool| + k - |flat|;
            && w.phys.pool == w.phys.pool[..n] + flat[k..]
            && forall x :: x in w.phys.pool[..n] ==> x in flat[..k]
  {
    var pool := w.phys.pool;
    var n := |pool| + k - |flat|;
    assert NoDup(pool) && forall x :: x in pool ==> x in m.usable;
    hide Inv;
    assert pool == pool[..n] + pool[n..];
    forall a | 0 <= a < n
      ensures pool[a] in flat[..k]
    {
      assert pool[a] in pool;
      forall b | k <= b < |flat|
        ensures flat[b] != pool[a]
      {
        assert flat[b] == flat[k..][b - k] && pool[n + (b - k)] == pool[n..][b - k];
      }
      var b :| 0 <= b < |flat| && flat[b] == pool[a];
      assert flat[..k][b] == pool[a];
    }
  }
}
