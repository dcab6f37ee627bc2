/** `spawn_from_path` and `spawn_isolated_inner` seen whole: loading a file and sharing a stack with the new
    address space is a run of the memory steps, so the frames stay partitioned, and what it builds is the
    planned program and nothing else (src/syscall.rs, src/elf.rs, src/scheduler/mod.rs). */
module Spawning {
  import opened Basics
  import opened Frames
  import opened Paging
  import opened Mapping
  import opened AddressSpace
  import opened Ownership
  import opened Elf
  import opened Loader
  import opened LoaderTheorems
  import opened LoaderFailures
  import opened StackSharing
  import opened Partition
  import opened UserAccess
  import Scheduler
  import SchedulerRuns
  import System

  // ---------------------------------------------------------------- as a run of memory steps

  lemma {:induction false} MapPagesIsRun(m: Machine, w0: World, w: World, root: Frame, pages: seq<PageSpec>)
    requires Reaches(m, w0, w, root) && root in w.spaces && w.spaces[root] == NOTHING
    requires AllPrivate(m.off, pages) && MapPages(w.phys, root, pages).1
    ensures Reaches(m, w0, w.(phys := MapPages(w.phys, root, pages).0), root)
    decreases |pages|
  {
    hide Reaches, MapPage, PathOf, AddrOf;
    if pages == [] {
      assert w.(phys := MapPages(w.phys, root, pages).0) == w;
    } else {
      var n := |pages| - 1;
      MapPagesIsRun(m, w0, w, root, pages[..n]);
      var w1 := w.(phys := MapPages(w.phys, root, pages[..n]).0);
      var w2 := w.(phys := MapPages(w.phys, root, pages).0);
      assert PrivatePage(m.off, pages[n]);
      ReachesStep(m, w0, w1, Map(root, PagePath(pages[n]), pages[n].data, PageFlags(pages[n])), w2, root);
    }
  }

  /** A load whose pages are private is a run: `new_address_space`, one mapping a page, and for a refused
      file the teardown. An accepted file adds its address space to those there were; a refused one adds
      nothing. */
  lemma LoadIsRun(m: Machine, w: World, s': Phys, bytes: seq<byte>, args: seq<byte>, r: LoadOutcome)
    returns (root: Frame)
    requires Inv(m, w) && LoadStep(w.phys, s', m.kernel, m.off, bytes, args, r) && !r.Panicked?
    requires HeaderOk(bytes) ==> AllPrivate(m.off, Plan(bytes, args).0)
    ensures Reaches(m, w, World(s', w.held, if r.Loaded? then w.spaces[r.root := NOTHING] else w.spaces), root)
    ensures r.Loaded? ==> r.root == root && root !in w.spaces
  {
    hide Inv, Reaches, HeaderOk, Plan, MapPages, AllPrivate, Returned;
    if HeaderOk(bytes) {
      var (pages, verdict) := Plan(bytes, args);
      var (s1, o) := NewSpace(w.phys, m.kernel, m.off);
      root := o.value;
      ReachesSelf(m, w, root);
      PoolHeadUnowned(m, w);
      var w1 := World(s1, w.held, w.spaces[root := NOTHING]);
      ReachesStep(m, w, w, Create, w1, root);
      MapPagesIsRun(m, w, w1, root, pages);
      var w2 := w1.(phys := MapPages(s1, root, pages).0);
      if r.NotLoaded? {
        var w3 := World(s', w.held, w.spaces);
        assert w2.spaces - {root} == w.spaces;
        ReachesStep(m, w, w2, Destroy(root), w3, root);
      }
    } else {
      root := m.kernel;
      ReachesSelf(m, w, root);
      assert World(s', w.held, w.spaces) == w;
    }
  }

  /** A kernel stack the heap can hand out: whole pages below the end of the lower half, outside the slots
      every address space shares. */
  ghost predicate StackPlace(off: Index, base: nat, n: nat) {
    && base % PAGE_SIZE == 0 && base + n * PAGE_SIZE <= LOW_LIMIT
    && (forall i :: 0 <= i < n ==> Private(off, PathOf(base + i * PAGE_SIZE)))
  }

  /** Sharing a stack is a run: its announcement, then one mapping a page. */
  lemma {:induction false} ShareStackIsRun(m: Machine, w0: World, w: World, root: Frame, base: nat, n: nat)
    requires Reaches(m, w0, w, root) && root in w.spaces && w.spaces[root] == NOTHING
    requires StackPlace(m.off, base, n) && ShareStack(w.phys, root, m.kernel, base, n).1
    ensures Reaches(m, w0, World(ShareStack(w.phys, root, m.kernel, base, n).0, w.held,
                                 w.spaces[root := Range(base, base + n * PAGE_SIZE)]), root)
    decreases n
  {
    hide Reaches, MapTo, PathOf, Walk;
    if n == 0 {
      ReachesStep(m, w0, w, Begin(root, base), World(w.phys, w.held, w.spaces[root := Range(base, base)]), root);
    } else {
      ShareStackIsRun(m, w0, w, root, base, n - 1);
      var b := Range(base, base + (n - 1) * PAGE_SIZE);
      var w1 := World(ShareStack(w.phys, root, m.kernel, base, n - 1).0, w.held, w.spaces[root := b]);
      var w2 := World(ShareStack(w.phys, root, m.kernel, base, n).0, w.held,
                      w.spaces[root := Range(base, base + n * PAGE_SIZE)]);
      assert b.hi + PAGE_SIZE == base + n * PAGE_SIZE;
      assert w1.spaces[root := Range(base, b.hi + PAGE_SIZE)] == w2.spaces;
      ReachesStep(m, w0, w1, Share(root), w2, root);
    }
  }

  // ---------------------------------------------------------------- nothing in use changes

  /** Sharing a stack writes only to the space's own tables and to frames it takes. */
  lemma {:induction false} ShareStackLocal(s: Phys, root: Frame, off: Index, kernel: Frame, pages: seq<PageSpec>,
                                           base: nat, n: nat, x: Frame)
    requires Space(s, root, off, NOTHING) && AllPrivate(off, pages) && Image(s.mem, root, off, pages)
    requires StackPlace(off, base, n) && ShareStack(s, root, kernel, base, n).1
    requires x !in s.pool && !Owned(s.mem, root, off, NOTHING, x)
    ensures Same(s.mem, ShareStack(s, root, kernel, base, n).0.mem, x)
    decreases n
  {
    hide Walk, EntryAt, PathOf, AddrOf, Owned, Image, MapTo, OwnedTree, TableTree, Populated;
    if n > 0 {
      ShareStackLocal(s, root, off, kernel, pages, base, n - 1, x);
      ShareStackEffect(s, root, off, kernel, pages, base, n - 1);
      var s1 := ShareStack(s, root, kernel, base, n - 1).0;
      var p := PathOf(base + (n - 1) * PAGE_SIZE);
      MapToEffect(s1, root, p, Walk(s1.mem, kernel, p).value, KERNEL_ONLY);
      OnPathOwned(s1.mem, root, off, Range(base, base + (n - 1) * PAGE_SIZE), p, x);
    }
  }

  // ---------------------------------------------------------------- the whole of it

  /** The memory side of `spawn_from_path`: load the file, then share the new thread's stack. */
  ghost predicate Spawned(m: Machine, w: World, w': World, bytes: seq<byte>, args: seq<byte>, r: LoadOutcome,
                          base: nat, n: nat) {
    r.Loaded? && exists s1 :: SpawnedFrom(m, w, s1, w', bytes, args, r, base, n)
  }

  ghost predicate SpawnedFrom(m: Machine, w: World, s1: Phys, w': World, bytes: seq<byte>, args: seq<byte>,
                              r: LoadOutcome, base: nat, n: nat)
    requires r.Loaded?
  {
    && LoadStep(w.phys, s1, m.kernel, m.off, bytes, args, r)
    && ShareStack(s1, r.root, m.kernel, base, n).1
    && w' == World(ShareStack(s1, r.root, m.kernel, base, n).0, w.held,
                   w.spaces[r.root := Range(base, base + n * PAGE_SIZE)])
  }

  /** The kernel's table shows a page at `p`, still does, and the space `root` shows the same frame to the kernel,
      readable and writable, and not to ring 3. */
  ghost predicate StackSeen(mem: Memory, mem': Memory, kernel: Frame, root: Frame, p: Path) {
    && Walk(mem, kernel, p).Some? && Walk(mem', kernel, p) == Walk(mem, kernel, p)
    && KernelMaps(mem', root, p, Walk(mem, kernel, p).value)
  }

  /** Spawning a program from any state of the partition: it is a run of the memory steps on one new space and
      keeps the partition; outside the shared slots the new space maps exactly the planned pages for ring 3
      and the stack for the kernel; every byte of the stack is writable for the kernel under the new table, in
      the frame where the kernel's own table has it; each frame it took is the space's; and no frame that was
      in use, of the kernel, of another space or of the stack, changed. */
  lemma SpawnBuilds(m: Machine, w: World, w': World, bytes: seq<byte>, args: seq<byte>, r: LoadOutcome, base: nat,
                    n: nat)
    requires Inv(m, w) && Spawned(m, w, w', bytes, args, r, base, n)
    requires AllPrivate(m.off, Plan(bytes, args).0) && StackPlace(m.off, base, n)
    ensures r.root !in w.spaces && Reaches(m, w, w', r.root) && Inv(m, w')
    ensures Populated(w'.phys.mem, r.root, m.off, Plan(bytes, args).0, w'.spaces[r.root])
    ensures forall a: nat :: base <= a < base + n * 4096 ==>
              StackSeen(w.phys.mem, w'.phys.mem, m.kernel, r.root, PathOf(a))
    ensures forall x :: x in w.phys.pool <==> x in w'.phys.pool || OwnedBy(m, w', r.root, x)
    ensures Undisturbed(w.phys, w'.phys)
  {
    hide StackSeen, Reaches, Plan, ShareStack, AllPrivate, LoadStep, Populated, Owned, PathOf, Inv, Undisturbed,
         StackPlace;
    var s1 :| SpawnedFrom(m, w, s1, w', bytes, args, r, base, n);
    var root := LoadIsRun(m, w, s1, bytes, args, r);
    var w1 := World(s1, w.held, w.spaces[r.root := NOTHING]);
    ShareStackIsRun(m, w, w1, r.root, base, n);
    assert w1.spaces[r.root := Range(base, base + n * PAGE_SIZE)] == w'.spaces;
    ReachedInv(m, w, w', r.root);
    InvSound(m, w);
    SpawnMemory(w.phys, s1, m.kernel, m.off, bytes, args, r, base, n);
    forall a: nat | base <= a < base + n * 4096
      ensures StackSeen(w.phys.mem, w'.phys.mem, m.kernel, r.root, PathOf(a))
    {
      StackSpawned(w.phys, s1, m.kernel, m.off, bytes, args, r, base, n, a);
    }
  }

  lemma {:induction false} SpawnMemory(s: Phys, s1: Phys, kernel: Frame, off: Index, bytes: seq<byte>, args: seq<byte>,
                                       r: LoadOutcome, base: nat, n: nat)
    requires Sound(s, kernel) && LoadStep(s, s1, kernel, off, bytes, args, r) && r.Loaded?
    requires AllPrivate(off, Plan(bytes, args).0) && StackPlace(off, base, n)
    requires ShareStack(s1, r.root, kernel, base, n).1
    ensures var s2, b := ShareStack(s1, r.root, kernel, base, n).0, Range(base, base + n * PAGE_SIZE);
            && Populated(s2.mem, r.root, off, Plan(bytes, args).0, b) && Undisturbed(s, s2)
            && (forall x :: x in s.pool <==> x in s2.pool || Owned(s2.mem, r.root, off, b, x))
  {
    hide Plan, ShareStack, AllPrivate, LoadStep, Image, Populated, Owned, Space, PathOf, Walk, Sound;
    AcceptedLoadShowsPlan(s, s1, kernel, off, bytes, args, r);
    var pages := Plan(bytes, args).0;
    ShareStackEffect(s1, r.root, off, kernel, pages, base, n);
    var s2 := ShareStack(s1, r.root, kernel, base, n).0;
    forall x | x !in s.pool
      ensures Same(s.mem, s2.mem, x)
    {
      ShareStackLocal(s1, r.root, off, kernel, pages, base, n, x);
    }
  }

  lemma {:induction false} SharePrefix(s: Phys, root: Frame, kernel: Frame, base: nat, n: nat, i: nat)
    requires ShareStack(s, root, kernel, base, n).1 && i <= n
    ensures ShareStack(s, root, kernel, base, i).1
    decreases n
  {
    hide MapTo, Walk, PathOf;
    if i < n {
      SharePrefix(s, root, kernel, base, n - 1, i);
    }
  }

  /** What the kernel's table shows stays while no frame in use changes. */
  lemma {:induction false} KernelViewKept(s: Phys, s': Phys, kernel: Frame, p: Path)
    requires Sound(s, kernel) && Undisturbed(s, s') && |p| <= 4
    ensures Walk(s'.mem, kernel, p) == Walk(s.mem, kernel, p)
  {
    hide Walk;
    forall q, t | Names(s.mem, kernel, q, t)
      ensures TableAt(s'.mem, t) == TableAt(s.mem, t)
    {
      assert Same(s.mem, s'.mem, t);
    }
    WalkAgree(s.mem, s'.mem, kernel, p);
  }

  lemma {:induction false} StackSpawned(s: Phys, s1: Phys, kernel: Frame, off: Index, bytes: seq<byte>,
                                        args: seq<byte>, r: LoadOutcome, base: nat, n: nat, a: nat)
    requires Sound(s, kernel) && LoadStep(s, s1, kernel, off, bytes, args, r) && r.Loaded?
    requires AllPrivate(off, Plan(bytes, args).0) && StackPlace(off, base, n)
    requires ShareStack(s1, r.root, kernel, base, n).1 && base <= a < base + n * 4096
    ensures StackSeen(s.mem, ShareStack(s1, r.root, kernel, base, n).0.mem, kernel, r.root, PathOf(a))
  {
    hide Plan, ShareStack, AllPrivate, LoadStep, Populated, Owned, PathOf, Walk, Sound, Undisturbed, KernelMaps;
    var i := (a - base) / 4096;
    PathOfPage(a);
    StackPageOf(base, a);
    SharePrefix(s1, r.root, kernel, base, n, i);
    SpawnMemory(s, s1, kernel, off, bytes, args, r, base, i);
    SpawnMemory(s, s1, kernel, off, bytes, args, r, base, n);
    LoadedSound(s, s1, kernel, off, bytes, args, r);
    ShareStackMaps(s1, r.root, kernel, base, n, i);
    KernelViewKept(s, ShareStack(s1, r.root, kernel, base, i).0, kernel, PathOf(a));
    KernelViewKept(s, ShareStack(s1, r.root, kernel, base, n).0, kernel, PathOf(a));
  }

  lemma StackPageOf(base: nat, a: nat)
    requires base % 4096 == 0 && base <= a
    ensures a / 4096 * 4096 == base + (a - base) / 4096 * 4096
  {
  }

  lemma LoadedSound(s: Phys, s1: Phys, kernel: Frame, off: Index, bytes: seq<byte>, args: seq<byte>, r: LoadOutcome)
    requires Sound(s, kernel) && LoadStep(s, s1, kernel, off, bytes, args, r) && r.Loaded?
    ensures Sound(s1, r.root)
  {
    hide Plan, LoadStep, Image, OwnedTree, TableTree;
    AcceptedLoadShowsPlan(s, s1, kernel, off, bytes, args, r);
  }

  lemma InvSound(m: Machine, w: World)
    requires Inv(m, w)
    ensures Sound(w.phys, m.kernel)
  {
  }

  /** Taking the new space apart again leaves exactly the frames available that were available before, the other
      spaces as they were, and no frame in use changed. */
  lemma SpawnThenFree(m: Machine, w: World, w1: World, w2: World, bytes: seq<byte>, args: seq<byte>, r: LoadOutcome,
                      base: nat, n: nat)
    requires Inv(m, w) && Spawned(m, w, w1, bytes, args, r, base, n) && Partition.Next(m, w1, Destroy(r.root), w2)
    requires AllPrivate(m.off, Plan(bytes, args).0) && StackPlace(m.off, base, n)
    ensures Inv(m, w2) && w2.spaces == w.spaces && w2.held == w.held
    ensures forall x :: x in w2.phys.pool <==> x in w.phys.pool
    ensures Undisturbed(w.phys, w2.phys)
  {
    hide Inv, Plan, AllPrivate, StackPlace, Populated, Reaches, Owned, Returned, LoadStep, ShareStack;
    SpawnBuilds(m, w, w1, bytes, args, r, base, n);
    DestroyInv(m, w1, w2, r.root);
    assert w1.spaces - {r.root} == w.spaces;
  }

  // ---------------------------------------------------------------- in the running kernel

  /** The state of the whole kernel when its memory is `w` and it works on `root`. */
  function Working(s: System.Kernel, w: World, root: Frame): System.Kernel {
    System.Kernel(s.k, w, if root in w.spaces then s.building + {root} else s.building)
  }

  /** Memory work on a new space is work the kernel may do next to its threads. */
  lemma WorkIsStep(m: Machine, s: System.Kernel, w: World, step: Partition.Step, w': World, root: Frame)
    requires Partition.Next(m, w, step, w') && WorksOn(w, step, root) && root !in s.building
    ensures System.Next(m, Working(s, w, root), System.Build(step), Working(s, w', root))
  {
    hide MapPage, MapTo, NewSpace, Returned, PathOf, AddrOf;
  }

  lemma {:induction false} RunIsKernelRun(m: Machine, s: System.Kernel, states: seq<World>, steps: seq<Partition.Step>,
                                          root: Frame)
    requires RunOn(m, states, steps, root) && root !in s.building
    ensures System.Run(m, seq(|states|, i requires 0 <= i < |states| => Working(s, states[i], root)),
                       seq(|steps|, i requires 0 <= i < |steps| => System.Build(steps[i])))
  {
    hide Partition.Next, System.Next, WorksOn, Working;
    forall i | 0 <= i < |steps|
      ensures System.Next(m, Working(s, states[i], root), System.Build(steps[i]), Working(s, states[i + 1], root))
    {
      WorkIsStep(m, s, states[i], steps[i], states[i + 1], root);
    }
  }

  /** A spawned program becomes a thread: from any state of the kernel there is a run that loads the file,
      shares the sixteen pages of the stack and launches the thread that owns the new space, and it keeps
      the invariant of scheduler and memory together. */
  lemma SpawnIsKernelRun(m: Machine, s: System.Kernel, w': World, bytes: seq<byte>, args: seq<byte>, r: LoadOutcome,
                         t: Scheduler.Thread, k': SchedulerRuns.Kern)
    returns (ss: seq<System.Kernel>, steps: seq<System.Step>)
    requires System.Inv(m, s) && Spawned(m, s.w, w', bytes, args, r, t.stack, 16)
    requires AllPrivate(m.off, Plan(bytes, args).0) && StackPlace(m.off, t.stack, 16)
    requires r.Loaded? && t.table == Some(r.root)
    requires SchedulerRuns.Next(s.k, SchedulerRuns.Launch(t), k')
    ensures System.Run(m, ss, steps) && ss[0] == s && ss[|steps|] == System.Kernel(k', w', s.building)
    ensures System.Inv(m, ss[|steps|])
  {
    hide Plan, AllPrivate, StackPlace, Populated, Owned, Inv, SchedulerRuns.Next, Partition.Next, WorksOn, Undisturbed,
         Spawned;
    NewRoot(m, s, w', bytes, args, r, t.stack, 16);
    var root := r.root;
    var states, works :| RunOn(m, states, works, root) && states[0] == s.w && states[|works|] == w';
    RunIsKernelRun(m, s, states, works, root);
    var built := Working(s, w', root);
    var last := System.Kernel(k', w', s.building);
    LaunchLast(m, s, w', t, k');
    ss := seq(|states|, i requires 0 <= i < |states| => Working(s, states[i], root)) + [last];
    steps := seq(|works|, i requires 0 <= i < |works| => System.Build(works[i])) + [System.Launch(t)];
    assert ss[0] == s && ss[|works|] == built;
    hide System.Next;
    assert System.Run(m, ss, steps);
    System.RunKeeps(m, ss, steps, |steps|);
  }

  lemma NewRoot(m: Machine, s: System.Kernel, w': World, bytes: seq<byte>, args: seq<byte>, r: LoadOutcome, base: nat,
                n: nat)
    requires System.Inv(m, s) && Spawned(m, s.w, w', bytes, args, r, base, n)
    requires AllPrivate(m.off, Plan(bytes, args).0) && StackPlace(m.off, base, n)
    ensures r.Loaded? && Reaches(m, s.w, w', r.root) && r.root !in s.w.spaces && r.root !in s.building
    ensures r.root in w'.spaces && w'.spaces[r.root] == Range(base, base + n * PAGE_SIZE)
  {
    hide Plan, AllPrivate, StackPlace, Populated, Owned, Inv, SchedulerRuns.Inv, Undisturbed, LoadStep, ShareStack;
    SpawnBuilds(m, s.w, w', bytes, args, r, base, n);
    assert System.SpaceOk(s, r.root);
  }

  lemma LaunchLast(m: Machine, s: System.Kernel, w': World, t: Scheduler.Thread, k': SchedulerRuns.Kern)
    requires t.table.Some? && t.table.value !in s.building && System.Registered(w', t)
    requires SchedulerRuns.Next(s.k, SchedulerRuns.Launch(t), k')
    ensures System.Next(m, Working(s, w', t.table.value), System.Launch(t), System.Kernel(k', w', s.building))
  {
    hide SchedulerRuns.Next;
  }

  // ---------------------------------------------------------------- what ring 3 gets

  /** The window onto physical memory is closed to ring 3, or lies in the lower half. */
  predicate WindowClosed(mem: Memory, kernel: Frame, off: Index) {
    off < 256 || !TableAt(mem, kernel)[off].user
  }

  lemma HighPath(a: nat)
    ensures HIGH_BASE <= a < U64_LIMIT ==> PathOf(a)[0] >= 256
    ensures a < LOW_LIMIT ==> PathOf(a)[0] < 256
  {
    var n := a / 4096;
    assert n / 512 / 512 / 512 == a / 0x80_0000_0000;
    if HIGH_BASE <= a < U64_LIMIT {
      assert 0x1FF_FF00 <= a / 0x80_0000_0000 < 0x200_0000;
    }
  }

  lemma {:induction false} TopEntry(mem: Memory, root: Frame, q: Path, write: bool)
    requires |q| == 4 && Grants(mem, root, q, write)
    ensures TableAt(mem, root)[q[0]].user
  {
    assert Permits(EntryAt(mem, root, q[..1]), write);
    assert q[..1][..0] == [];
  }

  /** A spawned program has nothing in the upper half. */
  lemma SpawnedUpperClosed(mem: Memory, root: Frame, kernel: Frame, off: Index, pages: seq<PageSpec>, b: Range,
                           write: bool)
    requires Populated(mem, root, off, pages, b) && GoodBelow(pages, LOW_LIMIT)
    requires SharesWith(mem, root, kernel, off) && WindowClosed(mem, kernel, off)
    ensures UpperClosed(mem, root, write)
  {
    hide Populated, PathOf, AddrOf, Grants, EntryAt, Walk;
    forall a: nat | HIGH_BASE <= a < U64_LIMIT
      ensures !ByteGranted(mem, root, a, write)
    {
      HighPath(a);
      var q := PathOf(a);
      if Grants(mem, root, q, write) {
        TopEntry(mem, root, q, write);
        PopulatedReach(mem, root, off, pages, b, q, write);
        var i :| 0 <= i < |pages| && PagePath(pages[i]) == q;
        HighPath(pages[i].addr);
        assert false;
      }
    }
  }

  /** For a spawned program the check on the buffers it passes to system calls answers exactly whether the
      program itself may access every byte, and what it may access outside the shared slots is what its
      file asked for: never its own kernel stack. */
  lemma SpawnedReach(m: Machine, w: World, w': World, bytes: seq<byte>, args: seq<byte>, r: LoadOutcome, base: nat,
                     n: nat, ptr: nat, len: nat, q: Path, write: bool)
    requires Inv(m, w) && Spawned(m, w, w', bytes, args, r, base, n)
    requires AllPrivate(m.off, Plan(bytes, args).0) && StackPlace(m.off, base, n)
    requires WindowClosed(w'.phys.mem, m.kernel, m.off)
    requires ptr != 0 && 0 < len <= LOW_LIMIT && |q| == 4 && Private(m.off, q)
    ensures Usable(w'.phys.mem, r.root, ptr, len, write) == Answer(RangeGranted(w'.phys.mem, r.root, ptr, len, write))
    ensures var pages := Plan(bytes, args).0;
            Grants(w'.phys.mem, r.root, q, write) <==>
              exists i :: 0 <= i < |pages| && PagePath(pages[i]) == q && (write ==> pages[i].writable)
    ensures Range(base, base + n * PAGE_SIZE).Contains(AddrOf(q)) ==> !Grants(w'.phys.mem, r.root, q, write)
  {
    hide Inv, Plan, AllPrivate, StackPlace, Populated, Reaches, Owned, LoadStep, ShareStack, Usable, RangeGranted,
         Grants, UpperClosed;
    var pages := Plan(bytes, args).0;
    SpawnBuilds(m, w, w', bytes, args, r, base, n);
    PopulatedReach(w'.phys.mem, r.root, m.off, pages, w'.spaces[r.root], q, write);
    SpawnedShares(m, w', r.root);
    PlanPanics(bytes, args);
    SpawnedUpperClosed(w'.phys.mem, r.root, m.kernel, m.off, pages, w'.spaces[r.root], write);
    UsableRightWhenClosed(w'.phys.mem, r.root, ptr, len, write);
  }

  lemma SpawnedShares(m: Machine, w: World, root: Frame)
    requires Inv(m, w) && root in w.spaces
    ensures SharesWith(w.phys.mem, root, m.kernel, m.off)
  {
    assert GoodSpace(m, w, root);
  }
}
