/** `OffsetPageTable::map_to`, library code whose source is not part of the kernel: descend through
    three levels creating and zeroing missing tables, widen the flags of the ones that exist, refuse
    a slot that is in use. What it does to the set of resolvable paths is proved here. */
module Mapping {
  import opened Basics
  import opened Frames
  import opened Paging

  datatype Flags = Flags(writable: bool, user: bool)

  datatype Phys = Phys(mem: Memory, pool: seq<Frame>)

  datatype Outcome = Done(table: Frame) | FrameAllocationFailed | ParentEntryHugePage | PageAlreadyMapped

  function Slot(frame: Frame, flags: Flags): Entry {
    Entry(frame, true, flags.writable, flags.user, false)
  }

  function Widen(e: Entry, flags: Flags): Entry {
    e.(present := true, writable := e.writable || flags.writable, user := e.user || flags.user)
  }

  function Put(mem: Memory, t: Frame, i: Index, e: Entry): Memory {
    mem[t := Table(TableAt(mem, t)[i := e])]
  }

  /** `create_next_table`: the table below slot `i` of `t`, made on demand. */
  function NextTable(s: Phys, t: Frame, i: Index, flags: Flags): (Phys, Outcome) {
    var e := TableAt(s.mem, t)[i];
    if e == UNUSED then
      if s.pool == [] then (s, FrameAllocationFailed)
      else
        var c := s.pool[0];
        (Phys(Put(s.mem, t, i, Slot(c, flags))[c := Table(EmptyTable())], s.pool[1..]), Done(c))
    else
      var s' := s.(mem := Put(s.mem, t, i, Widen(e, flags)));
      if e.huge then (s', ParentEntryHugePage) else (s', Done(e.frame))
  }

  function Descend(s: Phys, root: Frame, p: Path, flags: Flags): (Phys, Outcome) {
    if p == [] then (s, Done(root))
    else
      var (s1, o) := Descend(s, root, p[..|p| - 1], flags);
      if !o.Done? then (s1, o) else NextTable(s1, o.table, p[|p| - 1], flags)
  }

  function MapTo(s: Phys, root: Frame, p: Path, frame: Frame, flags: Flags): (Phys, Outcome)
    requires |p| == 4
  {
    var (s1, o) := Descend(s, root, p[..3], flags);
    if !o.Done? then (s1, o)
    else if TableAt(s1.mem, o.table)[p[3]] != UNUSED then (s1, PageAlreadyMapped)
    else (s1.(mem := Put(s1.mem, o.table, p[3], Slot(frame, flags))), o)
  }

  // ---------------------------------------------------------------- table trees

  ghost predicate IsTable(mem: Memory, t: Frame) {
    t in mem && mem[t].Table?
  }

  /** `p` leads to the table in frame `t`. */
  ghost predicate Names(mem: Memory, root: Frame, p: Path, t: Frame) {
    |p| <= 3 && Walk(mem, root, p) == Some(t)
  }

  ghost predicate CleanSlot(mem: Memory, root: Frame, p: Path) {
    1 <= |p| <= 4 ==> EntryAt(mem, root, p) == UNUSED || EntryAt(mem, root, p).present
  }

  /** Every resolvable path of at most three indices names a table, and no two name the same one. */
  ghost predicate TableTree(mem: Memory, root: Frame) {
    && (forall p, t :: Names(mem, root, p, t) ==> IsTable(mem, t))
    && (forall p, q, t :: Names(mem, root, p, t) && Names(mem, root, q, t) ==> p == q)
    && (forall p :: CleanSlot(mem, root, p))
  }

  /** A table tree none of whose tables is available for allocation. */
  ghost predicate Sound(s: Phys, root: Frame) {
    && TableTree(s.mem, root)
    && NoDup(s.pool)
    && (forall p, t :: Names(s.mem, root, p, t) ==> t !in s.pool)
  }

  ghost predicate Same(mem: Memory, mem': Memory, x: Frame) {
    (x in mem <==> x in mem') && (x in mem ==> mem[x] == mem'[x])
  }

  /** One table slot was written: `mem'` agrees with `mem` on every other table of the tree, and a
      slot that starts to resolve above the last level leads to an empty table. */
  ghost predicate SlotWritten(mem: Memory, mem': Memory, root: Frame, p: Path, t: Frame, i: Index, e: Entry) {
    && Names(mem, root, p, t)
    && TableAt(mem', t) == TableAt(mem, t)[i := e]
    && (forall q, u :: Names(mem, root, q, u) && u != t ==> TableAt(mem', u) == TableAt(mem, u))
    && var before := Target(TableAt(mem, t)[i]);
    && (before.Some? ==> Target(e) == before)
    && (before.None? && |p| < 3 && Target(e).Some? ==> TableAt(mem', Target(e).value) == EmptyTable())
  }

  /** The step case: one more index below a path whose resolution is already known. */
  lemma {:induction false} SlotWrittenStep(mem: Memory, mem': Memory, root: Frame, p: Path, t: Frame, i: Index,
                                           e: Entry, q: Path, j: Index)
    requires TableTree(mem, root) && SlotWritten(mem, mem', root, p, t, i, e)
    requires |q| <= 3
    requires Walk(mem', root, q) == if q == p + [i] then Target(e) else Walk(mem, root, q)
    ensures EntryAt(mem', root, q + [j]) == if q == p && i == j then e else EntryAt(mem, root, q + [j])
  {
    WalkSnoc(mem, root, q, j);
    WalkSnoc(mem', root, q, j);
    WalkSnoc(mem, root, p, i);
    if Walk(mem, root, q).Some? {
      var u := Walk(mem, root, q).value;
      assert Names(mem, root, q, u);
    }
  }

  /** Writing one slot changes the entry at exactly one path. */
  lemma {:induction false} SlotWrittenEffect(mem: Memory, mem': Memory, root: Frame, p: Path, t: Frame, i: Index,
                                             e: Entry, q: Path)
    requires TableTree(mem, root) && SlotWritten(mem, mem', root, p, t, i, e)
    requires 1 <= |q| <= 4
    ensures EntryAt(mem', root, q) == if q == p + [i] then e else EntryAt(mem, root, q)
    decreases |q|
  {
    var q1, j := q[..|q| - 1], q[|q| - 1];
    assert q == q1 + [j];
    if q1 != [] {
      SlotWrittenEffect(mem, mem', root, p, t, i, e, q1);
      WalkIsTarget(mem, root, q1);
      WalkIsTarget(mem', root, q1);
    }
    SlotWrittenStep(mem, mem', root, p, t, i, e, q1, j);
  }

  lemma {:induction false} WalkIsTarget(mem: Memory, root: Frame, q: Path)
    requires q != []
    ensures Walk(mem, root, q) == Target(EntryAt(mem, root, q))
  {
  }

  lemma {:induction false} SlotWrittenAll(mem: Memory, mem': Memory, root: Frame, p: Path, t: Frame, i: Index, e: Entry)
    requires TableTree(mem, root) && SlotWritten(mem, mem', root, p, t, i, e)
    ensures forall q: Path :: 1 <= |q| <= 4 ==>
              EntryAt(mem', root, q) == if q == p + [i] then e else EntryAt(mem, root, q)
    ensures forall q: Path :: |q| <= 4 ==>
              Walk(mem', root, q) == if q == p + [i] then Target(e) else Walk(mem, root, q)
  {
    forall q: Path | 1 <= |q| <= 4
      ensures EntryAt(mem', root, q) == if q == p + [i] then e else EntryAt(mem, root, q)
      ensures Walk(mem', root, q) == if q == p + [i] then Target(e) else Walk(mem, root, q)
    {
      SlotWrittenEffect(mem, mem', root, p, t, i, e, q);
    }
  }

  /** The slot at `q` after a descent through it: a missing table was taken from the pool, an
      existing one kept with its flags widened. */
  ghost predicate Linked(s: Phys, s': Phys, root: Frame, q: Path, flags: Flags)
    requires q != []
  {
    var e, e' := EntryAt(s.mem, root, q), EntryAt(s'.mem, root, q);
    if e == UNUSED then e' == Slot(e'.frame, flags) && e'.frame in s.pool && e'.frame !in s'.pool
    else e' == Widen(e, flags)
  }

  ghost predicate Taken(s: Phys, s': Phys, x: Frame) {
    x in s.pool && x !in s'.pool
  }

  /** `s'.pool` is `s.pool` after at most `n` allocations. */
  ghost predicate Popped(s: Phys, s': Phys, n: nat) {
    |s'.pool| <= |s.pool| <= |s'.pool| + n && s'.pool == s.pool[|s.pool| - |s'.pool|..]
  }

  lemma NextTableSlot(s: Phys, root: Frame, p: Path, t: Frame, i: Index, flags: Flags)
    requires Sound(s, root) && Names(s.mem, root, p, t) && |p| <= 2
    requires NextTable(s, t, i, flags).1.Done?
    ensures var (s', o) := NextTable(s, t, i, flags);
            && SlotWritten(s.mem, s'.mem, root, p, t, i, TableAt(s'.mem, t)[i])
            && TableAt(s'.mem, t)[i].present
            && Target(TableAt(s'.mem, t)[i]) == Some(o.table)
            && Popped(s, s', 1)
            && (forall x :: x != t && !Taken(s, s', x) ==> Same(s.mem, s'.mem, x))
            && NoDup(s'.pool) && IsTable(s'.mem, t)
            && (if TableAt(s.mem, t)[i] == UNUSED
                then TableAt(s'.mem, t)[i] == Slot(o.table, flags) && Taken(s, s', o.table) && IsTable(s'.mem, o.table)
                     && (forall x :: Taken(s, s', x) ==> x == o.table)
                else TableAt(s'.mem, t)[i] == Widen(TableAt(s.mem, t)[i], flags) && s'.pool == s.pool)
  {
    hide Walk;
    var (s', o) := NextTable(s, t, i, flags);
    assert IsTable(s.mem, t) && t !in s.pool;
    WalkSnoc(s.mem, root, p, i);
    assert CleanSlot(s.mem, root, p + [i]);
    if TableAt(s.mem, t)[i] == UNUSED {
      assert s.pool == [o.table] + s'.pool;
    }
  }

  /** What `SlotWrittenAll` concludes. */
  ghost predicate OneSlot(mem: Memory, mem': Memory, root: Frame, p: Path, e: Entry)
    requires p != []
  {
    && (forall q: Path :: 1 <= |q| <= 4 ==> EntryAt(mem', root, q) == if q == p then e else EntryAt(mem, root, q))
    && (forall q: Path :: |q| <= 4 ==> Walk(mem', root, q) == if q == p then Target(e) else Walk(mem, root, q))
  }

  lemma {:induction false} OneSlotSound(s: Phys, s': Phys, root: Frame, p: Path, e: Entry)
    requires Sound(s, root) && 1 <= |p| <= 4 && e.present
    requires OneSlot(s.mem, s'.mem, root, p, e)
    requires NoDup(s'.pool) && (forall x :: x in s'.pool ==> x in s.pool)
    requires forall q, t :: Names(s.mem, root, q, t) ==> IsTable(s'.mem, t)
    requires |p| <= 3 && Target(e).Some? && Walk(s.mem, root, p).None? ==>
               && Taken(s, s', Target(e).value) && IsTable(s'.mem, Target(e).value)
    requires Walk(s.mem, root, p).Some? ==> Target(e) == Walk(s.mem, root, p)
    ensures Sound(s', root)
  {
    forall q, t | Names(s'.mem, root, q, t)
      ensures IsTable(s'.mem, t) && t !in s'.pool
      ensures Names(s.mem, root, q, t) || (q == p && Taken(s, s', t))
    {
      if q != p || Walk(s.mem, root, p).Some? {
        assert Names(s.mem, root, q, t);
      }
    }
    forall q
      ensures CleanSlot(s'.mem, root, q)
    {
      assert CleanSlot(s.mem, root, q);
    }
  }

  /** One level of the descent. */
  lemma NextTableEffect(s: Phys, s': Phys, o: Outcome, root: Frame, p: Path, t: Frame, i: Index, flags: Flags)
    requires Sound(s, root) && Names(s.mem, root, p, t) && |p| <= 2
    requires (s', o) == NextTable(s, t, i, flags) && o.Done?
    ensures Sound(s', root) && Popped(s, s', 1)
    ensures Names(s'.mem, root, p + [i], o.table)
    ensures Linked(s, s', root, p + [i], flags)
    ensures forall q: Path :: 1 <= |q| <= 4 && q != p + [i] ==> EntryAt(s'.mem, root, q) == EntryAt(s.mem, root, q)
    ensures forall x :: x != t && !Taken(s, s', x) ==> Same(s.mem, s'.mem, x)
    ensures forall x :: Taken(s, s', x) ==> x == o.table
  {
    NextTableSlot(s, root, p, t, i, flags);
    SlotEffect(s, s', root, p, t, i, TableAt(s'.mem, t)[i], o.table, flags);
  }

  lemma TablesRemain(s: Phys, s': Phys, root: Frame, t: Frame)
    requires Sound(s, root) && IsTable(s'.mem, t)
    requires forall x :: x != t && !Taken(s, s', x) ==> Same(s.mem, s'.mem, x)
    ensures forall q, u :: Names(s.mem, root, q, u) ==> IsTable(s'.mem, u)
  {
    forall q, u | Names(s.mem, root, q, u)
      ensures IsTable(s'.mem, u)
    {
      assert IsTable(s.mem, u) && !Taken(s, s', u);
    }
  }

  lemma SlotEffect(s: Phys, s': Phys, root: Frame, p: Path, t: Frame, i: Index, e: Entry, c: Frame, flags: Flags)
    requires Sound(s, root) && |p| <= 2
    requires SlotWritten(s.mem, s'.mem, root, p, t, i, e) && e.present && Target(e) == Some(c)
    requires forall x :: x != t && !Taken(s, s', x) ==> Same(s.mem, s'.mem, x)
    requires NoDup(s'.pool) && Popped(s, s', 1) && IsTable(s'.mem, t)
    requires if TableAt(s.mem, t)[i] == UNUSED then e == Slot(c, flags) && Taken(s, s', c) && IsTable(s'.mem, c)
             else e == Widen(TableAt(s.mem, t)[i], flags) && s'.pool == s.pool
    ensures Sound(s', root)
    ensures Names(s'.mem, root, p + [i], c)
    ensures Linked(s, s', root, p + [i], flags)
    ensures forall q: Path :: 1 <= |q| <= 4 && q != p + [i] ==> EntryAt(s'.mem, root, q) == EntryAt(s.mem, root, q)
  {
    TablesRemain(s, s', root, t);
    SlotWrittenAll(s.mem, s'.mem, root, p, t, i, e);
    WalkSnoc(s.mem, root, p, i);
    assert CleanSlot(s.mem, root, p + [i]);
    OneSlotSound(s, s', root, p + [i], e);
  }

  // ---------------------------------------------------------------- the whole descent

  ghost predicate SlotKept(s: Phys, s': Phys, root: Frame, q: Path) {
    q != [] && EntryAt(s'.mem, root, q) == EntryAt(s.mem, root, q)
  }

  /** `x` is one of the tables that the descent along `p` passes through. */
  ghost predicate OnPath(mem: Memory, root: Frame, p: Path, x: Frame) {
    exists k :: 0 <= k < |p| && Walk(mem, root, p[..k]) == Some(x)
  }

  /** Nothing changed outside the tables on the way and the frames taken from the pool. */
  ghost predicate Confined(s: Phys, s': Phys, root: Frame, p: Path) {
    forall x :: !Taken(s, s', x) && !OnPath(s.mem, root, p, x) ==> Same(s.mem, s'.mem, x)
  }

  /** Every frame taken from the pool became a table on the way along `p`. */
  ghost predicate Placed(s: Phys, s': Phys, root: Frame, p: Path) {
    forall x :: Taken(s, s', x) ==> exists q :: q <= p && Names(s'.mem, root, q, x)
  }

  ghost predicate PathEffect(s: Phys, s': Phys, root: Frame, p: Path, q: Path, flags: Flags) {
    q != [] && if q <= p then Linked(s, s', root, q, flags) else SlotKept(s, s', root, q)
  }

  ghost predicate Grown(s: Phys, s': Phys, root: Frame, p: Path, flags: Flags) {
    && Sound(s', root) && Popped(s, s', |p|)
    && (forall q: Path :: 1 <= |q| <= 4 ==> PathEffect(s, s', root, p, q, flags))
    && Confined(s, s', root, p) && Placed(s, s', root, p)
  }

  lemma PoppedSubset(s: Phys, s': Phys, n: nat)
    requires Popped(s, s', n)
    ensures forall x :: x in s'.pool ==> x in s.pool
  {
  }

  lemma PoppedTwice(s: Phys, s1: Phys, s2: Phys, m: nat, n: nat)
    requires Popped(s, s1, m) && Popped(s1, s2, n)
    ensures Popped(s, s2, m + n)
  {
  }

  /** Where a descent ends: the table that was there, or one taken from the pool. */
  lemma {:induction false} GrownWalk(s: Phys, s': Phys, root: Frame, p: Path, flags: Flags, t: Frame)
    requires Sound(s, root) && Grown(s, s', root, p, flags) && |p| <= 3
    requires Names(s'.mem, root, p, t)
    ensures Walk(s.mem, root, p) == Some(t) || Taken(s, s', t)
  {
    if p != [] {
      assert PathEffect(s, s', root, p, p, flags);
      WalkIsTarget(s.mem, root, p);
      WalkIsTarget(s'.mem, root, p);
      assert CleanSlot(s.mem, root, p);
    }
  }

  lemma {:induction false} OnPathSnoc(mem: Memory, root: Frame, p: Path, i: Index, x: Frame)
    ensures OnPath(mem, root, p + [i], x) <==> OnPath(mem, root, p, x) || Walk(mem, root, p) == Some(x)
  {
    var p1 := p + [i];
    forall k | 0 <= k <= |p|
      ensures p1[..k] == if k == |p| then p else p[..k]
    {
    }
    if Walk(mem, root, p) == Some(x) {
      assert 0 <= |p| < |p1| && p1[..|p|] == p;
    }
    if OnPath(mem, root, p, x) {
      var k :| 0 <= k < |p| && Walk(mem, root, p[..k]) == Some(x);
      assert p1[..k] == p[..k];
    }
  }

  lemma GrownStep(s: Phys, s1: Phys, s2: Phys, o: Outcome, root: Frame, p: Path, t: Frame, i: Index, flags: Flags)
    requires Sound(s, root) && |p| <= 2
    requires Grown(s, s1, root, p, flags) && Names(s1.mem, root, p, t)
    requires (s2, o) == NextTable(s1, t, i, flags) && o.Done?
    ensures Grown(s, s2, root, p + [i], flags) && Names(s2.mem, root, p + [i], o.table)
  {
    hide Walk, EntryAt, NextTable, OnPath, PathEffect, Linked, Placed, TableTree;
    NextTableEffect(s1, s2, o, root, p, t, i, flags);
    GrownWalk(s, s1, root, p, flags, t);
    PoppedTwice(s, s1, s2, |p|, 1);
    PoppedSubset(s, s1, |p|);
    PoppedSubset(s1, s2, 1);
    GrownSlots(s, s1, s2, root, p, i, flags);
    PlacedStep(s, s1, s2, root, p, i, o.table);
    forall x | !Taken(s, s2, x) && !OnPath(s.mem, root, p + [i], x)
      ensures Same(s.mem, s2.mem, x)
    {
      OnPathSnoc(s.mem, root, p, i, x);
      assert !Taken(s, s1, x) && !Taken(s1, s2, x);
      assert Same(s.mem, s1.mem, x) && Same(s1.mem, s2.mem, x);
    }
  }

  lemma NamesKept(s: Phys, s': Phys, root: Frame, q: Path, x: Frame, p: Path)
    requires Names(s.mem, root, q, x) && q != p
    requires forall r: Path :: 1 <= |r| <= 4 && r != p ==> EntryAt(s'.mem, root, r) == EntryAt(s.mem, root, r)
    ensures Names(s'.mem, root, q, x)
  {
    if q != [] {
      WalkIsTarget(s.mem, root, q);
      WalkIsTarget(s'.mem, root, q);
    }
  }

  lemma PlacedStep(s: Phys, s1: Phys, s2: Phys, root: Frame, p: Path, i: Index, c: Frame)
    requires Placed(s, s1, root, p) && Names(s2.mem, root, p + [i], c)
    requires forall q: Path :: 1 <= |q| <= 4 && q != p + [i] ==> EntryAt(s2.mem, root, q) == EntryAt(s1.mem, root, q)
    requires forall x :: Taken(s1, s2, x) ==> x == c
    ensures Placed(s, s2, root, p + [i])
  {
    forall x | Taken(s, s2, x)
      ensures exists q :: q <= p + [i] && Names(s2.mem, root, q, x)
    {
      if Taken(s, s1, x) {
        var q :| q <= p && Names(s1.mem, root, q, x);
        NamesKept(s1, s2, root, q, x, p + [i]);
      } else {
        assert Taken(s1, s2, x);
      }
    }
  }

  lemma GrownSlots(s: Phys, s1: Phys, s2: Phys, root: Frame, p: Path, i: Index, flags: Flags)
    requires |p| <= 2
    requires forall q: Path :: 1 <= |q| <= 4 ==> PathEffect(s, s1, root, p, q, flags)
    requires Linked(s1, s2, root, p + [i], flags)
    requires forall q: Path :: 1 <= |q| <= 4 && q != p + [i] ==> EntryAt(s2.mem, root, q) == EntryAt(s1.mem, root, q)
    requires forall x :: x in s1.pool ==> x in s.pool
    requires forall x :: x in s2.pool ==> x in s1.pool
    ensures forall q: Path :: 1 <= |q| <= 4 ==> PathEffect(s, s2, root, p + [i], q, flags)
  {
    forall q: Path | 1 <= |q| <= 4
      ensures PathEffect(s, s2, root, p + [i], q, flags)
    {
      assert PathEffect(s, s1, root, p, q, flags);
      assert q <= p + [i] <==> q <= p || q == p + [i];
    }
  }

  lemma GrownRefl(s: Phys, root: Frame, flags: Flags)
    requires Sound(s, root)
    ensures Grown(s, s, root, [], flags)
  {
    hide Walk, EntryAt, TableTree;
  }

  lemma {:induction false} DescendEffect(s: Phys, root: Frame, p: Path, flags: Flags)
    requires Sound(s, root) && |p| <= 3
    requires Descend(s, root, p, flags).1.Done?
    ensures var (s', o) := Descend(s, root, p, flags);
            Grown(s, s', root, p, flags) && Names(s'.mem, root, p, o.table)
    decreases |p|
  {
    if p == [] {
      GrownRefl(s, root, flags);
    } else {
      hide Grown, NextTable, Walk;
      var p1, i := p[..|p| - 1], p[|p| - 1];
      var (s1, o1) := Descend(s, root, p1, flags);
      DescendEffect(s, root, p1, flags);
      var (s2, o2) := NextTable(s1, o1.table, i, flags);
      GrownStep(s, s1, s2, o2, root, p1, o1.table, i, flags);
      assert p1 + [i] == p;
    }
  }

  // ---------------------------------------------------------------- map_to

  /** A successful `map_to`: the slot at `p` was free and now leads to `frame`; the three slots above
      it exist and grant at least `flags`; every other slot of the address space is as it was; at
      most three frames left the pool, and no frame but those and the tables on the way changed. */
  ghost predicate Mapped(s: Phys, s': Phys, root: Frame, p: Path, frame: Frame, flags: Flags) {
    && |p| == 4
    && Sound(s', root) && Popped(s, s', 3)
    && EntryAt(s.mem, root, p) == UNUSED && EntryAt(s'.mem, root, p) == Slot(frame, flags)
    && (forall q: Path :: 1 <= |q| <= 4 && q != p ==> PathEffect(s, s', root, p[..3], q, flags))
    && Confined(s, s', root, p) && Placed(s, s', root, p[..3])
  }

  lemma LeafWritten(s: Phys, root: Frame, p: Path, t: Frame, e: Entry)
    requires Sound(s, root) && |p| == 4 && Names(s.mem, root, p[..3], t)
    requires TableAt(s.mem, t)[p[3]] == UNUSED && e.present
    ensures var s' := s.(mem := Put(s.mem, t, p[3], e));
            Sound(s', root) && OneSlot(s.mem, s'.mem, root, p, e)
  {
    var s' := s.(mem := Put(s.mem, t, p[3], e));
    var p1 := p[..3];
    assert p == p1 + [p[3]];
    assert IsTable(s.mem, t);
    SlotWrittenAll(s.mem, s'.mem, root, p1, t, p[3], e);
    WalkSnoc(s.mem, root, p1, p[3]);
    forall q, u | Names(s.mem, root, q, u)
      ensures IsTable(s'.mem, u)
    {
      assert IsTable(s.mem, u);
    }
    OneSlotSound(s, s', root, p, e);
  }

  /** The contract of `map_to`. */
  lemma MapToEffect(s: Phys, root: Frame, p: Path, frame: Frame, flags: Flags)
    requires Sound(s, root) && |p| == 4
    requires MapTo(s, root, p, frame, flags).1.Done?
    ensures Mapped(s, MapTo(s, root, p, frame, flags).0, root, p, frame, flags)
  {
    hide Walk, Descend, OnPath, Linked, TableTree;
    var p1 := p[..3];
    assert p == p1 + [p[3]];
    var (s1, o) := Descend(s, root, p1, flags);
    DescendEffect(s, root, p1, flags);
    var e := Slot(frame, flags);
    var s' := s1.(mem := Put(s1.mem, o.table, p[3], e));
    LeafWritten(s1, root, p, o.table, e);
    assert PathEffect(s, s1, root, p1, p, flags);
    WalkSnoc(s1.mem, root, p1, p[3]);
    GrownWalk(s, s1, root, p1, flags, o.table);
    LeafSlots(s, s1, s', root, p, e, flags);
    forall x | Taken(s, s', x)
      ensures exists q :: q <= p1 && Names(s'.mem, root, q, x)
    {
      assert Taken(s, s1, x);
      var q :| q <= p1 && Names(s1.mem, root, q, x);
      NamesKept(s1, s', root, q, x, p);
    }
    forall x | !Taken(s, s', x) && !OnPath(s.mem, root, p, x)
      ensures Same(s.mem, s'.mem, x)
    {
      OnPathSnoc(s.mem, root, p1, p[3], x);
      assert !Taken(s, s1, x);
      assert Same(s.mem, s1.mem, x);
    }
  }

  lemma LeafSlots(s: Phys, s1: Phys, s': Phys, root: Frame, p: Path, e: Entry, flags: Flags)
    requires |p| == 4 && s'.pool == s1.pool
    requires forall q: Path :: 1 <= |q| <= 4 ==> PathEffect(s, s1, root, p[..3], q, flags)
    requires OneSlot(s1.mem, s'.mem, root, p, e)
    ensures forall q: Path :: 1 <= |q| <= 4 && q != p ==> PathEffect(s, s', root, p[..3], q, flags)
  {
    forall q: Path | 1 <= |q| <= 4 && q != p
      ensures PathEffect(s, s', root, p[..3], q, flags)
    {
      assert PathEffect(s, s1, root, p[..3], q, flags);
    }
  }
}
