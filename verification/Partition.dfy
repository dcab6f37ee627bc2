/** Every run of kernel mapping, address-space creation, page mapping, stack sharing and teardown keeps the
    usable frames partitioned: available, held by the kernel, or owned by exactly one address space. */
module Partition {
  import opened Basics
  import opened Frames
  import opened Paging
  import opened Mapping
  import opened AddressSpace
  import opened Ownership
  import opened Loader
  import opened StackSharing

  /** `spaces` gives every isolated address space (by its L4 frame) its borrowed range. */
  datatype World = World(phys: Phys, held: set<Frame>, spaces: map<Frame, Range>)

  /** What does not change during a run: the kernel's L4 table, the slot of the physical-memory
      window, and the frames the memory map calls usable. */
  datatype Machine = Machine(kernel: Frame, off: Index, usable: set<Frame>)

  ghost predicate OwnedBy(m: Machine, w: World, r: Frame, x: Frame) {
    r in w.spaces && Owned(w.phys.mem, r, m.off, w.spaces[r], x)
  }

  ghost predicate GoodSpace(m: Machine, w: World, r: Frame) {
    r in w.spaces ==>
      && Space(w.phys, r, m.off, w.spaces[r])
      && SharesWith(w.phys.mem, r, m.kernel, m.off)
  }

  ghost predicate KernelTable(m: Machine, w: World, t: Frame) {
    exists q :: Names(w.phys.mem, m.kernel, q, t)
  }

  /** The kernel maps frame `x` outside the shared slots, as it maps its heap. */
  ghost predicate KernelPage(m: Machine, w: World, q: Path, x: Frame) {
    |q| == 4 && Private(m.off, q) && Walk(w.phys.mem, m.kernel, q) == Some(x)
  }

  ghost predicate InUse(m: Machine, w: World, x: Frame) {
    x in w.held || exists r :: OwnedBy(m, w, r, x)
  }

  ghost predicate Inv(m: Machine, w: World) {
    && Sound(w.phys, m.kernel)
    && (forall r :: GoodSpace(m, w, r))
    && (forall r, x :: OwnedBy(m, w, r, x) ==> x !in w.held && x !in w.phys.pool && !KernelTable(m, w, x))
    && (forall r1, r2, x :: OwnedBy(m, w, r1, x) && OwnedBy(m, w, r2, x) ==> r1 == r2)
    && (forall x :: x in w.held ==> x !in w.phys.pool)
    && (forall x :: x in m.usable <==> x in w.phys.pool || InUse(m, w, x))
    && (forall q, x :: KernelPage(m, w, q, x) && x in m.usable ==> x in w.held)
  }

  datatype Step =
    | Hold
    | KernelMap(path: Path, flags: Flags)
    | Create
    | Map(root: Frame, path: Path, data: seq<byte>, flags: Flags)
    | Share(root: Frame)
    | Begin(root: Frame, base: nat)
    | Destroy(root: Frame)

  /** One step of the kernel. `Hold` takes a frame for the kernel itself; `KernelMap` maps a fresh page into
      the kernel's own table, as `init_heap` does, before any address space exists or outside the slots that
      address spaces clone; `Create` is `new_address_space`; `Map` is one page of `map_segment`, in a private
      slot; `Begin` and `Share` are `spawn_isolated_inner` announcing a stack and mapping its next page;
      `Destroy` is `free_address_space`. */
  ghost predicate Next(m: Machine, w: World, step: Step, w': World) {
    match step
    case Hold =>
      && w.phys.pool != [] && w'.phys == w.phys.(pool := w.phys.pool[1..])
      && w'.held == w.held + {w.phys.pool[0]} && w'.spaces == w.spaces
    case KernelMap(p, flags) =>
      && |p| == 4 && (Private(m.off, p) || w.spaces == map[]) && w.phys.pool != []
      && var (phys, o) := MapTo(w.phys.(pool := w.phys.pool[1..]), m.kernel, p, w.phys.pool[0], flags);
      && o.Done? && w'.phys == phys && w'.spaces == w.spaces
      && w'.held == w.held + (set x | x in w.phys.pool && x !in phys.pool)
    case Create =>
      && w.phys.pool != [] && w'.phys == NewSpace(w.phys, m.kernel, m.off).0
      && w'.held == w.held && w'.spaces == w.spaces[w.phys.pool[0] := NOTHING]
    case Map(r, p, data, flags) =>
      && r in w.spaces && |p| == 4 && Private(m.off, p) && !w.spaces[r].Contains(AddrOf(p))
      && MapPage(w.phys, r, p, data, flags).1.Done? && w'.phys == MapPage(w.phys, r, p, data, flags).0
      && w'.held == w.held && w'.spaces == w.spaces
    case Begin(r, base) =>
      && r in w.spaces && w.spaces[r] == NOTHING && base % PAGE_SIZE == 0
      && w' == w.(spaces := w.spaces[r := Range(base, base)])
    case Share(r) =>
      && r in w.spaces
      && var b := w.spaces[r];
      && b.lo <= b.hi && b.hi % PAGE_SIZE == 0 && b.hi + PAGE_SIZE <= LOW_LIMIT && Private(m.off, PathOf(b.hi))
      && var frame := Walk(w.phys.mem, m.kernel, PathOf(b.hi));
      && frame.Some?
      && MapTo(w.phys, r, PathOf(b.hi), frame.value, KERNEL_ONLY).1.Done?
      && w'.phys == MapTo(w.phys, r, PathOf(b.hi), frame.value, KERNEL_ONLY).0
      && w'.held == w.held && w'.spaces == w.spaces[r := Range(b.lo, b.hi + PAGE_SIZE)]
    case Destroy(r) =>
      && r in w.spaces && w'.phys.mem == w.phys.mem && Returned(w.phys, w'.phys.pool, r, m.off, w.spaces[r])
      && w'.held == w.held && w'.spaces == w.spaces - {r}
  }

  // ---------------------------------------------------------------- everyone else

  /** The step touched only available frames and frames owned by `r`. */
  ghost predicate LocalTo(m: Machine, w: World, w': World, r: Frame) {
    && (forall x :: x !in w.phys.pool && !OwnedBy(m, w, r, x) ==> Same(w.phys.mem, w'.phys.mem, x))
    && NoDup(w'.phys.pool)
    && (forall x :: x in w'.phys.pool ==> x in w.phys.pool || OwnedBy(m, w, r, x))
  }

  lemma KernelUntouched(m: Machine, w: World, w': World, r: Frame)
    requires Inv(m, w) && LocalTo(m, w, w', r)
    ensures Sound(w'.phys, m.kernel)
    ensures forall x :: KernelTable(m, w', x) <==> KernelTable(m, w, x)
    ensures forall q, x :: KernelPage(m, w', q, x) <==> KernelPage(m, w, q, x)
    ensures Same(w.phys.mem, w'.phys.mem, m.kernel)
  {
    hide Walk, EntryAt, InUse, GoodSpace;
    forall q, t | Names(w.phys.mem, m.kernel, q, t)
      ensures IsTable(w'.phys.mem, t) && TableAt(w'.phys.mem, t) == TableAt(w.phys.mem, t) && t !in w'.phys.pool
      ensures Same(w.phys.mem, w'.phys.mem, t)
    {
      assert KernelTable(m, w, t) && IsTable(w.phys.mem, t);
      assert !OwnedBy(m, w, r, t);
    }
    SoundAgree(w.phys, w'.phys, m.kernel);
    forall q, t
      ensures Names(w'.phys.mem, m.kernel, q, t) <==> Names(w.phys.mem, m.kernel, q, t)
    {
    }
    assert Names(w.phys.mem, m.kernel, [], m.kernel) by {
      EmptyWalk(w.phys.mem, m.kernel);
    }
  }

  lemma {:induction false} EmptyWalk(mem: Memory, root: Frame)
    ensures Walk(mem, root, []) == Some(root)
  {
  }

  /** The tables another space sees are its own or the kernel's. */
  lemma NamedTables(m: Machine, w: World, r2: Frame, q: Path, t: Frame)
    requires Inv(m, w) && r2 in w.spaces && Names(w.phys.mem, r2, q, t)
    ensures OwnedBy(m, w, r2, t) || KernelTable(m, w, t)
  {
    assert GoodSpace(m, w, r2);
    if Private(m.off, q) {
      assert Owns(w.phys.mem, r2, m.off, w.spaces[r2], q, t);
    } else {
      SharedView(w.phys.mem, r2, m.kernel, m.off, q);
      assert Names(w.phys.mem, m.kernel, q, t);
    }
  }

  /** A step local to `r` leaves every other space as it was. */
  lemma OthersUntouched(m: Machine, w: World, w': World, r: Frame, r2: Frame)
    requires Inv(m, w) && LocalTo(m, w, w', r) && r2 != r
    requires r2 in w.spaces && r2 in w'.spaces && w'.spaces[r2] == w.spaces[r2]
    ensures GoodSpace(m, w', r2)
    ensures forall x :: OwnedBy(m, w', r2, x) <==> OwnedBy(m, w, r2, x)
  {
    hide Walk, EntryAt, InUse, Owned, Owns;
    assert GoodSpace(m, w, r2);
    forall q, t | Names(w.phys.mem, r2, q, t)
      ensures Same(w.phys.mem, w'.phys.mem, t) && t !in w'.phys.pool
    {
      NamedTables(m, w, r2, q, t);
      assert !OwnedBy(m, w, r, t);
    }
    forall q, x | Owns(w.phys.mem, r2, m.off, w.spaces[r2], q, x)
      ensures Same(w.phys.mem, w'.phys.mem, x) && x !in w'.phys.pool
    {
      OwnsOwned(w.phys.mem, r2, m.off, w.spaces[r2], q, x);
      assert OwnedBy(m, w, r2, x);
      assert !OwnedBy(m, w, r, x);
    }
    SpaceAgree(w.phys, w'.phys, r2, m.off, w.spaces[r2]);
    forall x
      ensures OwnedBy(m, w', r2, x) <==> OwnedBy(m, w, r2, x)
    {
      OwnedAgree(w.phys.mem, w'.phys.mem, r2, m.off, w.spaces[r2], x);
    }
    KernelUntouched(m, w, w', r);
    assert Same(w.phys.mem, w'.phys.mem, r2) by {
      EmptyWalk(w.phys.mem, r2);
      assert Names(w.phys.mem, r2, [], r2);
    }
  }

  lemma OwnsOwned(mem: Memory, root: Frame, off: Index, b: Range, q: Path, x: Frame)
    requires Owns(mem, root, off, b, q, x)
    ensures Owned(mem, root, off, b, x)
  {
  }

  // ---------------------------------------------------------------- the step itself

  /** `r` gained exactly the frames that left the pool. */
  ghost predicate Gains(m: Machine, w: World, w': World, r: Frame) {
    && LocalTo(m, w, w', r) && w'.held == w.held
    && (forall x :: x in w'.phys.pool ==> x in w.phys.pool)
    && w'.spaces.Keys == w.spaces.Keys + {r}
    && (forall r2 :: r2 in w.spaces && r2 != r ==> w'.spaces[r2] == w.spaces[r2])
    && GoodSpace(m, w', r)
    && (forall x :: OwnedBy(m, w', r, x) <==> OwnedBy(m, w, r, x) || Taken(w.phys, w'.phys, x))
  }

  /** Who owns what after such a step. */
  lemma GainsOwned(m: Machine, w: World, w': World, r: Frame, r2: Frame, x: Frame)
    requires Inv(m, w) && Gains(m, w, w', r)
    ensures OwnedBy(m, w', r2, x) <==> OwnedBy(m, w, r2, x) || (r2 == r && Taken(w.phys, w'.phys, x))
  {
    hide Inv, LocalTo, GoodSpace;
    if r2 != r && r2 in w.spaces {
      OthersUntouched(m, w, w', r, r2);
    }
  }

  lemma GainsInv(m: Machine, w: World, w': World, r: Frame)
    requires Inv(m, w) && Gains(m, w, w', r)
    ensures Inv(m, w')
  {
    hide Walk, EntryAt, Owned, GoodSpace, Sound;
    KernelUntouched(m, w, w', r);
    forall r2
      ensures GoodSpace(m, w', r2)
    {
      if r2 in w.spaces && r2 != r {
        OthersUntouched(m, w, w', r, r2);
      } else if r2 != r {
        NoSpace(m, w', r2);
      }
    }
    GainsDisjoint(m, w, w', r);
    GainsCover(m, w, w', r);
  }

  lemma NoSpace(m: Machine, w: World, r: Frame)
    requires r !in w.spaces
    ensures GoodSpace(m, w, r)
  {
  }

  lemma GainsDisjoint(m: Machine, w: World, w': World, r: Frame)
    requires Inv(m, w) && Gains(m, w, w', r)
    requires forall x :: KernelTable(m, w', x) <==> KernelTable(m, w, x)
    ensures forall r2, x :: OwnedBy(m, w', r2, x) ==> x !in w'.held && x !in w'.phys.pool && !KernelTable(m, w', x)
    ensures forall r1, r2, x :: OwnedBy(m, w', r1, x) && OwnedBy(m, w', r2, x) ==> r1 == r2
  {
    hide Walk, EntryAt, OwnedBy, GoodSpace;
    forall r2, x | OwnedBy(m, w', r2, x)
      ensures x !in w'.held && x !in w'.phys.pool && !KernelTable(m, w', x)
      ensures OwnedBy(m, w, r2, x) || (r2 == r && Taken(w.phys, w'.phys, x))
    {
      GainsOwned(m, w, w', r, r2, x);
    }
  }

  lemma GainsCover(m: Machine, w: World, w': World, r: Frame)
    requires Inv(m, w) && Gains(m, w, w', r)
    ensures forall x :: x in m.usable <==> x in w'.phys.pool || InUse(m, w', x)
  {
    hide Walk, EntryAt, OwnedBy, GoodSpace, Sound;
    forall x
      ensures x in m.usable <==> x in w'.phys.pool || InUse(m, w', x)
    {
      forall r2
        ensures OwnedBy(m, w', r2, x) <==> OwnedBy(m, w, r2, x) || (r2 == r && Taken(w.phys, w'.phys, x))
      {
        GainsOwned(m, w, w', r, r2, x);
      }
      assert Taken(w.phys, w'.phys, x) ==> OwnedBy(m, w', r, x);
      assert x in m.usable <==> x in w.phys.pool || InUse(m, w, x);
    }
  }

  /** An address space owns its own L4 table. */
  lemma RootOwned(m: Machine, w: World, r: Frame)
    requires r in w.spaces
    ensures OwnedBy(m, w, r, r)
  {
    EmptyWalk(w.phys.mem, r);
    assert Owns(w.phys.mem, r, m.off, w.spaces[r], [], r);
  }

  lemma PoolHeadUnowned(m: Machine, w: World)
    requires Inv(m, w) && w.phys.pool != []
    ensures w.phys.pool[0] !in w.spaces && (forall x :: !OwnedBy(m, w, w.phys.pool[0], x))
  {
    if w.phys.pool[0] in w.spaces {
      RootOwned(m, w, w.phys.pool[0]);
    }
  }

  lemma CreateInv(m: Machine, w: World, w': World)
    requires Inv(m, w) && Next(m, w, Create, w')
    ensures Inv(m, w')
  {
    hide Walk, EntryAt, InUse, Owned, TableTree;
    var r := w.phys.pool[0];
    NewSpaceEffect(w.phys, m.kernel, m.off);
    PoolHeadUnowned(m, w);
    assert w.phys.pool == [r] + w'.phys.pool;
    assert Gains(m, w, w', r);
    GainsInv(m, w, w', r);
  }

  /** Nothing but `r`'s own tables and the frames taken can change along a private path. */
  lemma PrivatePathLocal(m: Machine, w: World, w': World, r: Frame, p: Path)
    requires Inv(m, w) && r in w.spaces && |p| == 4 && Private(m.off, p)
    requires Confined(w.phys, w'.phys, r, p)
    requires NoDup(w'.phys.pool) && (forall x :: x in w'.phys.pool ==> x in w.phys.pool)
    ensures LocalTo(m, w, w', r)
  {
    hide Walk, EntryAt, Inv;
    forall x | x !in w.phys.pool && !OwnedBy(m, w, r, x)
      ensures Same(w.phys.mem, w'.phys.mem, x)
    {
      OnPathOwned(w.phys.mem, r, m.off, w.spaces[r], p, x);
      assert !Taken(w.phys, w'.phys, x);
    }
  }

  /** The cloned slots of the L4 table are not on a private path. */
  lemma ClonesKept(m: Machine, w: World, w': World, r: Frame, p: Path, flags: Flags)
    requires Inv(m, w) && r in w.spaces && |p| == 4 && Private(m.off, p)
    requires LocalTo(m, w, w', r)
    requires forall q: Path :: 1 <= |q| <= 4 && q != p ==> PathEffect(w.phys, w'.phys, r, p[..3], q, flags)
    ensures SharesWith(w'.phys.mem, r, m.kernel, m.off)
  {
    hide Walk, EntryAt, InUse, TableTree, PathEffect, LocalTo;
    KernelUntouched(m, w, w', r);
    assert GoodSpace(m, w, r);
    CloneKept(w.phys, w'.phys, r, p, flags, 0);
    CloneKept(w.phys, w'.phys, r, p, flags, m.off);
  }

  lemma CloneKept(s: Phys, s': Phys, r: Frame, p: Path, flags: Flags, i: Index)
    requires |p| == 4 && p[0] != i
    requires forall q: Path :: 1 <= |q| <= 4 && q != p ==> PathEffect(s, s', r, p[..3], q, flags)
    ensures TableAt(s'.mem, r)[i] == TableAt(s.mem, r)[i]
  {
    RootSlot(s.mem, r, i);
    RootSlot(s'.mem, r, i);
    hide EntryAt, Walk;
    var q: Path := [i];
    assert PathEffect(s, s', r, p[..3], q, flags);
    assert q[0] != p[..3][0];
  }

  lemma MapInv(m: Machine, w: World, w': World, r: Frame, p: Path, data: seq<byte>, flags: Flags)
    requires Inv(m, w) && Next(m, w, Map(r, p, data, flags), w')
    ensures Inv(m, w')
  {
    hide Walk, EntryAt, InUse, Owned, TableTree, MapPage, AddrOf, Confined, PathEffect, SharesWith, OwnedTree;
    assert GoodSpace(m, w, r);
    MapPageEffect(w.phys, r, m.off, w.spaces[r], p, data, flags);
    PoppedSubset(w.phys, w'.phys, 4);
    PrivatePathLocal(m, w, w', r, p);
    ClonesKept(m, w, w', r, p, flags);
    hide Inv, LocalTo;
    assert Gains(m, w, w', r);
    GainsInv(m, w, w', r);
  }

  lemma BeginInv(m: Machine, w: World, w': World, r: Frame, base: nat)
    requires Inv(m, w) && Next(m, w, Begin(r, base), w')
    ensures Inv(m, w')
  {
    hide Walk, EntryAt, InUse, Owned, TableTree, SharesWith, OwnedTree, AddrOf;
    assert GoodSpace(m, w, r);
    Rebase(w.phys, r, m.off, NOTHING, Range(base, base));
    assert Gains(m, w, w', r);
    GainsInv(m, w, w', r);
  }

  lemma ShareInv(m: Machine, w: World, w': World, r: Frame)
    requires Inv(m, w) && Next(m, w, Share(r), w')
    ensures Inv(m, w')
  {
    hide EntryAt, InUse, Owned, TableTree, MapTo, AddrOf, PathOf, Confined, PathEffect, Placed, SharesWith, OwnedTree,
         Walk;
    assert GoodSpace(m, w, r);
    var b := w.spaces[r];
    var p := PathOf(b.hi);
    var frame := Walk(w.phys.mem, m.kernel, p).value;
    MapToEffect(w.phys, r, p, frame, KERNEL_ONLY);
    ShareOwned(w.phys, w'.phys, r, m.off, b, frame);
    PoppedSubset(w.phys, w'.phys, 3);
    PrivatePathLocal(m, w, w', r, p);
    ClonesKept(m, w, w', r, p, KERNEL_ONLY);
    hide Inv, LocalTo;
    assert Gains(m, w, w', r);
    GainsInv(m, w, w', r);
  }

  /** The frame that stack sharing maps into an address space is the kernel's own: it is neither available
      nor owned by any address space, and if it came from a usable region the kernel holds it. */
  lemma SharedFrameHeld(m: Machine, w: World, w': World, r: Frame)
    requires Inv(m, w) && Next(m, w, Share(r), w')
    ensures var frame := Walk(w.phys.mem, m.kernel, PathOf(w.spaces[r].hi)).value;
            && (frame in m.usable ==> frame in w.held)
            && frame !in w.phys.pool && forall r2 :: !OwnedBy(m, w, r2, frame)
  {
    hide Walk, PathOf, GoodSpace, Sound, Owned;
    var p := PathOf(w.spaces[r].hi);
    var frame := Walk(w.phys.mem, m.kernel, p).value;
    assert KernelPage(m, w, p, frame);
    assert frame in m.usable <==> frame in w.phys.pool || InUse(m, w, frame);
  }

  // ---------------------------------------------------------------- the kernel's own table

  /** What mapping a page into the kernel's table comes to. */
  ghost predicate KernelMapped(m: Machine, w: World, w': World, p: Path, flags: Flags) {
    && w.phys.pool != [] && w'.spaces == w.spaces && (Private(m.off, p) || w.spaces == map[])
    && w'.held == w.held + (set x | x in w.phys.pool && x !in w'.phys.pool)
    && Mapped(w.phys.(pool := w.phys.pool[1..]), w'.phys, m.kernel, p, w.phys.pool[0], flags)
    && (forall x :: x in w'.phys.pool ==> x in w.phys.pool && x != w.phys.pool[0])
  }

  lemma KernelMapEffect(m: Machine, w: World, w': World, p: Path, flags: Flags)
    requires Inv(m, w) && Next(m, w, KernelMap(p, flags), w')
    ensures KernelMapped(m, w, w', p, flags) && Sound(w.phys.(pool := w.phys.pool[1..]), m.kernel)
  {
    hide Walk, EntryAt, MapTo, TableTree, InUse, GoodSpace, OwnedBy;
    var s1 := w.phys.(pool := w.phys.pool[1..]);
    MapToEffect(s1, m.kernel, p, w.phys.pool[0], flags);
    PoppedSubset(s1, w'.phys, 3);
  }

  /** Which tables the kernel has afterwards, and which pages. */
  lemma KernelMapTables(m: Machine, w: World, w': World, p: Path, flags: Flags)
    requires Inv(m, w) && KernelMapped(m, w, w', p, flags) && Sound(w.phys.(pool := w.phys.pool[1..]), m.kernel)
    ensures forall x :: KernelTable(m, w', x) ==> KernelTable(m, w, x) || x in w'.held
    ensures forall q, x :: KernelPage(m, w', q, x) && x in m.usable ==> x in w'.held
  {
    hide Walk, EntryAt, TableTree, InUse, GoodSpace, OwnedBy, PathEffect, Confined, Placed;
    var s1, d := w.phys.(pool := w.phys.pool[1..]), w.phys.pool[0];
    forall q, x | Names(w'.phys.mem, m.kernel, q, x)
      ensures KernelTable(m, w, x) || x in w'.held
    {
      MappedWalk(s1, w'.phys, m.kernel, p, d, flags, q);
      assert Walk(w.phys.mem, m.kernel, q) == Some(x) ==> Names(w.phys.mem, m.kernel, q, x);
    }
    forall q, x | KernelPage(m, w', q, x) && x in m.usable
      ensures x in w'.held
    {
      MappedWalk(s1, w'.phys, m.kernel, p, d, flags, q);
      assert q != p ==> KernelPage(m, w, q, x);
    }
  }

  /** A kernel table on the way to a private page is seen by no address space. */
  lemma KernelPathUnseen(m: Machine, w: World, r2: Frame, q: Path, t: Frame, p: Path)
    requires Inv(m, w) && r2 in w.spaces && Names(w.phys.mem, r2, q, t) && |p| == 4 && Private(m.off, p)
    ensures !OnPath(w.phys.mem, m.kernel, p, t) && t !in w.phys.pool
  {
    hide EntryAt, InUse;
    assert GoodSpace(m, w, r2);
    forall k | 0 <= k < |p|
      ensures Walk(w.phys.mem, m.kernel, p[..k]) != Some(t)
    {
      NotSharedTwice(m, w, r2, q, t, p[..k]);
    }
  }

  lemma NotSharedTwice(m: Machine, w: World, r2: Frame, q: Path, t: Frame, k: Path)
    requires Inv(m, w) && r2 in w.spaces && Names(w.phys.mem, r2, q, t) && Private(m.off, k)
    ensures !Names(w.phys.mem, m.kernel, k, t)
  {
    hide Walk, EntryAt, InUse;
    assert GoodSpace(m, w, r2);
    if Private(m.off, q) {
      assert Owns(w.phys.mem, r2, m.off, w.spaces[r2], q, t);
      assert OwnedBy(m, w, r2, t);
    } else {
      SharedView(w.phys.mem, r2, m.kernel, m.off, q);
      assert Names(w.phys.mem, m.kernel, q, t);
    }
  }

  lemma KernelMapSpace(m: Machine, w: World, w': World, p: Path, flags: Flags, r2: Frame)
    requires Inv(m, w) && KernelMapped(m, w, w', p, flags) && r2 in w.spaces
    ensures GoodSpace(m, w', r2)
    ensures forall x :: OwnedBy(m, w', r2, x) <==> OwnedBy(m, w, r2, x)
  {
    hide Walk, EntryAt, InUse, Owned, Owns, TableTree, PathEffect, Placed, OnPath;
    assert GoodSpace(m, w, r2);
    var s1 := w.phys.(pool := w.phys.pool[1..]);
    forall q, t | Names(w.phys.mem, r2, q, t)
      ensures Same(w.phys.mem, w'.phys.mem, t) && t !in w'.phys.pool
    {
      KernelPathUnseen(m, w, r2, q, t, p);
      assert !Taken(s1, w'.phys, t);
    }
    forall q, x | Owns(w.phys.mem, r2, m.off, w.spaces[r2], q, x)
      ensures Same(w.phys.mem, w'.phys.mem, x) && x !in w'.phys.pool
    {
      OwnsOwned(w.phys.mem, r2, m.off, w.spaces[r2], q, x);
      assert OwnedBy(m, w, r2, x);
      KernelPathUnowned(m, w, p, x);
      assert !Taken(s1, w'.phys, x);
    }
    SpaceAgree(w.phys, w'.phys, r2, m.off, w.spaces[r2]);
    forall x
      ensures OwnedBy(m, w', r2, x) <==> OwnedBy(m, w, r2, x)
    {
      OwnedAgree(w.phys.mem, w'.phys.mem, r2, m.off, w.spaces[r2], x);
    }
    KernelMapClones(m, w, w', p, flags, r2);
  }

  lemma KernelPathUnowned(m: Machine, w: World, p: Path, x: Frame)
    requires |p| == 4 && !KernelTable(m, w, x)
    ensures !OnPath(w.phys.mem, m.kernel, p, x)
  {
    forall k | 0 <= k < |p|
      ensures Walk(w.phys.mem, m.kernel, p[..k]) != Some(x)
    {
      assert !Names(w.phys.mem, m.kernel, p[..k], x);
    }
  }

  lemma KernelMapClones(m: Machine, w: World, w': World, p: Path, flags: Flags, r2: Frame)
    requires Inv(m, w) && KernelMapped(m, w, w', p, flags) && r2 in w.spaces
    ensures SharesWith(w'.phys.mem, r2, m.kernel, m.off)
  {
    hide Walk, EntryAt, InUse, TableTree, PathEffect, Placed, OnPath;
    assert GoodSpace(m, w, r2);
    var s1 := w.phys.(pool := w.phys.pool[1..]);
    CloneKept(s1, w'.phys, m.kernel, p, flags, 0);
    CloneKept(s1, w'.phys, m.kernel, p, flags, m.off);
    EmptyWalk(w.phys.mem, r2);
    assert Names(w.phys.mem, r2, [], r2);
    KernelPathUnseen(m, w, r2, [], r2, p);
    assert Same(w.phys.mem, w'.phys.mem, r2) by {
      assert !Taken(s1, w'.phys, r2);
    }
  }

  lemma KernelMapSpaces(m: Machine, w: World, w': World, p: Path, flags: Flags)
    requires Inv(m, w) && KernelMapped(m, w, w', p, flags)
    ensures forall r2 :: GoodSpace(m, w', r2)
    ensures forall r2, x :: OwnedBy(m, w', r2, x) <==> OwnedBy(m, w, r2, x)
  {
    hide Inv, Owned, GoodSpace, Mapped;
    forall r2
      ensures GoodSpace(m, w', r2)
    {
      if r2 in w.spaces {
        KernelMapSpace(m, w, w', p, flags, r2);
      } else {
        NoSpace(m, w', r2);
      }
    }
    forall r2, x
      ensures OwnedBy(m, w', r2, x) <==> OwnedBy(m, w, r2, x)
    {
      if r2 in w.spaces {
        KernelMapSpace(m, w, w', p, flags, r2);
      }
    }
  }

  /** One page of `init_heap`: the kernel's table shows the new page, every frame taken is the kernel's, and
      what the address spaces own stays as it was. */
  lemma KernelMapInv(m: Machine, w: World, w': World, p: Path, flags: Flags)
    requires Inv(m, w) && Next(m, w, KernelMap(p, flags), w')
    ensures Inv(m, w')
    ensures EntryAt(w'.phys.mem, m.kernel, p) == Slot(w.phys.pool[0], flags)
    ensures forall x :: x in w'.held <==> x in w.held || Taken(w.phys, w'.phys, x)
    ensures forall r, x :: OwnedBy(m, w', r, x) <==> OwnedBy(m, w, r, x)
  {
    hide Walk, EntryAt, GoodSpace, TableTree, Next, Mapped, KernelPage, KernelTable, OwnedBy, Sound;
    KernelMapEffect(m, w, w', p, flags);
    KernelMapTables(m, w, w', p, flags);
    MappedSound(w.phys.(pool := w.phys.pool[1..]), w'.phys, m.kernel, p, w.phys.pool[0], flags);
    KernelMapSpaces(m, w, w', p, flags);
    forall x
      ensures x in m.usable <==> x in w'.phys.pool || InUse(m, w', x)
    {
      assert x in m.usable <==> x in w.phys.pool || InUse(m, w, x);
    }
  }

  lemma MappedSound(s: Phys, s': Phys, root: Frame, p: Path, frame: Frame, flags: Flags)
    requires Mapped(s, s', root, p, frame, flags)
    ensures Sound(s', root) && EntryAt(s'.mem, root, p) == Slot(frame, flags)
  {
  }

  lemma HoldInv(m: Machine, w: World, w': World)
    requires Inv(m, w) && Next(m, w, Hold, w')
    ensures Inv(m, w')
  {
    hide Walk, EntryAt, Owned, GoodSpace, TableTree;
    var d := w.phys.pool[0];
    assert w.phys.pool == [d] + w'.phys.pool;
    PoolHeadUnowned(m, w);
    KernelUntouched(m, w, w', d);
    forall r2
      ensures GoodSpace(m, w', r2)
    {
      if r2 in w.spaces {
        OthersUntouched(m, w, w', d, r2);
      } else {
        NoSpace(m, w', r2);
      }
    }
    forall r2, x
      ensures OwnedBy(m, w', r2, x) <==> OwnedBy(m, w, r2, x)
    {
    }
    forall x
      ensures x in m.usable <==> x in w'.phys.pool || InUse(m, w', x)
    {
      assert x in m.usable <==> x in w.phys.pool || InUse(m, w, x);
    }
  }

  /** After a teardown exactly the space's frames have become available, no memory has changed, and every
      other space is as it was. */
  lemma DestroyInv(m: Machine, w: World, w': World, r: Frame)
    requires Inv(m, w) && Next(m, w, Destroy(r), w')
    ensures Inv(m, w') && w'.phys.mem == w.phys.mem
    ensures forall x :: x in w'.phys.pool <==> x in w.phys.pool || OwnedBy(m, w, r, x)
    ensures forall r2, x :: OwnedBy(m, w', r2, x) <==> r2 != r && OwnedBy(m, w, r2, x)
  {
    hide Walk, EntryAt, Owned, TableTree, GoodSpace;
    DestroyPool(m, w, w', r);
    KernelUntouched(m, w, w', r);
    forall r2
      ensures GoodSpace(m, w', r2)
    {
      if r2 in w.spaces && r2 != r {
        OthersUntouched(m, w, w', r, r2);
      } else {
        NoSpace(m, w', r2);
      }
    }
    forall r2, x
      ensures OwnedBy(m, w', r2, x) <==> r2 != r && OwnedBy(m, w, r2, x)
    {
    }
    forall x
      ensures x in m.usable <==> x in w'.phys.pool || InUse(m, w', x)
    {
      assert x in m.usable <==> x in w.phys.pool || InUse(m, w, x);
    }
  }

  lemma DestroyPool(m: Machine, w: World, w': World, r: Frame)
    requires Inv(m, w) && Next(m, w, Destroy(r), w')
    ensures LocalTo(m, w, w', r)
    ensures forall x :: x in w'.phys.pool <==> x in w.phys.pool || OwnedBy(m, w, r, x)
  {
    hide Walk, EntryAt, Owned, TableTree, GoodSpace, InUse;
    var freed: seq<Frame> :| IsFreedList(w.phys.mem, r, m.off, w.spaces[r], freed)
        && w'.phys.pool == Reversed(freed) + w.phys.pool;
    ReversedElements(freed);
    forall x
      ensures x in freed <==> OwnedBy(m, w, r, x)
    {
    }
    NoDupConcat(Reversed(freed), w.phys.pool);
  }

  /** Every step keeps the partition. */
  lemma StepInv(m: Machine, w: World, step: Step, w': World)
    requires Inv(m, w) && Next(m, w, step, w')
    ensures Inv(m, w')
  {
    hide Inv;
    match step
    case Hold => HoldInv(m, w, w');
    case KernelMap(p, flags) => KernelMapInv(m, w, w', p, flags);
    case Create => CreateInv(m, w, w');
    case Map(r, p, data, flags) => MapInv(m, w, w', r, p, data, flags);
    case Begin(r, base) => BeginInv(m, w, w', r, base);
    case Share(r) => ShareInv(m, w, w', r);
    case Destroy(r) => DestroyInv(m, w, w', r);
  }

  // ---------------------------------------------------------------- runs

  /** A run: `states[i + 1]` follows from `states[i]` by `steps[i]`. */
  ghost predicate Run(m: Machine, states: seq<World>, steps: seq<Step>) {
    && |states| == |steps| + 1
    && forall i :: 0 <= i < |steps| ==> Next(m, states[i], steps[i], states[i + 1])
  }

  /** Over every run, the usable frames stay partitioned into available frames, kernel frames and the
      frames of exactly one address space each. */
  lemma {:induction false} RunKeepsPartition(m: Machine, states: seq<World>, steps: seq<Step>, k: nat)
    requires Run(m, states, steps) && Inv(m, states[0]) && k < |states|
    ensures Inv(m, states[k])
  {
    hide Inv, Next;
    if k > 0 {
      RunKeepsPartition(m, states, steps, k - 1);
      StepInv(m, states[k - 1], steps[k - 1], states[k]);
    }
  }

  /** The step works on the address space `root`, or creates it. */
  predicate WorksOn(w: World, step: Step, root: Frame) {
    match step
    case Hold => false
    case KernelMap(_, _) => false
    case Create => w.phys.pool != [] && w.phys.pool[0] == root
    case Map(r, _, _, _) => r == root
    case Share(r) => r == root
    case Begin(r, _) => r == root
    case Destroy(r) => r == root
  }

  ghost predicate RunOn(m: Machine, states: seq<World>, steps: seq<Step>, root: Frame) {
    Run(m, states, steps) && forall i :: 0 <= i < |steps| ==> WorksOn(states[i], steps[i], root)
  }

  /** Some run that works on `root` only leads from `w` to `w'`. */
  ghost predicate Reaches(m: Machine, w: World, w': World, root: Frame) {
    exists states, steps :: RunOn(m, states, steps, root) && states[0] == w && states[|steps|] == w'
  }

  lemma ReachesSelf(m: Machine, w: World, root: Frame)
    ensures Reaches(m, w, w, root)
  {
    assert RunOn(m, [w], [], root);
  }

  lemma ReachesStep(m: Machine, w: World, w1: World, step: Step, w2: World, root: Frame)
    requires Reaches(m, w, w1, root) && Next(m, w1, step, w2) && WorksOn(w1, step, root)
    ensures Reaches(m, w, w2, root)
  {
    hide Next, WorksOn;
    var states, steps :| RunOn(m, states, steps, root) && states[0] == w && states[|steps|] == w1;
    assert RunOn(m, states + [w2], steps + [step], root);
    assert (states + [w2])[|steps + [step]|] == w2;
  }

  lemma ReachedInv(m: Machine, w: World, w': World, root: Frame)
    requires Inv(m, w) && Reaches(m, w, w', root)
    ensures Inv(m, w')
  {
    hide Inv, Next, WorksOn;
    var states, steps :| RunOn(m, states, steps, root) && states[0] == w && states[|steps|] == w';
    RunKeepsPartition(m, states, steps, |steps|);
  }

  /** Once every address space is gone, every usable frame is available again or held by the kernel:
      nothing was leaked on the way. */
  lemma NoLeakAfterRun(m: Machine, states: seq<World>, steps: seq<Step>, x: Frame)
    requires Run(m, states, steps) && Inv(m, states[0]) && states[|steps|].spaces == map[]
    ensures x in m.usable <==> x in states[|steps|].phys.pool || x in states[|steps|].held
    ensures NoDup(states[|steps|].phys.pool)
  {
    hide Next, Owned;
    RunKeepsPartition(m, states, steps, |steps|);
  }

  /** When the boot loader hands over, with no address space yet and before the heap is mapped, the partition
      holds: the pool enumerates the usable frames once, and the tables and pages the boot loader made lie
      outside it. */
  lemma {:induction false} BootInv(m: Machine, mem: Memory, regions: seq<Region>)
    requires TableTree(mem, m.kernel)
    requires forall j, k :: 0 <= j < k < |regions| ==> !Overlap(regions[j], regions[k])
    requires m.usable == Elements(FlatFrom(regions, 0))
    requires forall q, t :: Names(mem, m.kernel, q, t) ==> t !in m.usable
    requires forall q, x :: |q| == 4 && Private(m.off, q) && Walk(mem, m.kernel, q) == Some(x) ==> x !in m.usable
    ensures Inv(m, World(Phys(mem, FlatFrom(regions, 0)), {}, map[]))
  {
    hide Walk, EntryAt, TableTree, FlatFrom, GoodSpace, Owned, Overlap;
    FlatNoDup(regions, 0);
    var w := World(Phys(mem, FlatFrom(regions, 0)), {}, map[]);
    forall r
      ensures GoodSpace(m, w, r)
    {
      NoSpace(m, w, r);
    }
    forall q, t
      ensures Names(mem, m.kernel, q, t) ==> t !in w.phys.pool
    {
    }
  }
}
