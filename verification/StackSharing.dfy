/** `spawn_isolated_inner` maps the new thread's own kernel stack, ordinary heap memory, into the
    isolated address space: the tables on the way belong to the space, the stack pages do not, and
    ring 3 cannot reach them (src/scheduler/mod.rs). */
module StackSharing {
  import opened Basics
  import opened Frames
  import opened Paging
  import opened Mapping
  import opened AddressSpace
  import opened Ownership
  import opened Elf
  import opened Loader

  const KERNEL_ONLY: Flags := Flags(true, false)

  /** The first `n` pages of a stack at `base`, mapped to the frames the kernel table maps them to. */
  function ShareStack(s: Phys, root: Frame, kernel: Frame, base: nat, n: nat): (Phys, bool) {
    if n == 0 then (s, true)
    else
      var (s1, ok) := ShareStack(s, root, kernel, base, n - 1);
      if !ok then (s1, false)
      else
        var p := PathOf(base + (n - 1) * PAGE_SIZE);
        var frame := Walk(s1.mem, kernel, p);
        if frame.None? then (s1, false)
        else
          var (s2, o) := MapTo(s1, root, p, frame.value, KERNEL_ONLY);
          (s2, o.Done?)
  }

  /** Pages counted as borrowed or not makes no difference while they are not mapped. */
  lemma {:induction false} Rebase(s: Phys, root: Frame, off: Index, b: Range, b': Range)
    requires Space(s, root, off, b)
    requires forall q: Path :: |q| == 4 && Private(off, q) && Walk(s.mem, root, q).Some? ==>
               (b.Contains(AddrOf(q)) <==> b'.Contains(AddrOf(q)))
    ensures Space(s, root, off, b')
    ensures forall x :: Owned(s.mem, root, off, b', x) <==> Owned(s.mem, root, off, b, x)
  {
    hide Walk, EntryAt, AddrOf, TableTree;
    forall q, x
      ensures Owns(s.mem, root, off, b', q, x) <==> Owns(s.mem, root, off, b, q, x)
    {
    }
    forall x
      ensures Owned(s.mem, root, off, b', x) <==> Owned(s.mem, root, off, b, x)
    {
    }
  }

  ghost predicate Apart(pages: seq<PageSpec>, b: Range) {
    forall i :: 0 <= i < |pages| ==> !b.Contains(AddrOf(PagePath(pages[i])))
  }

  ghost predicate Accounted(mem: Memory, root: Frame, off: Index, pages: seq<PageSpec>, b: Range, q: Path) {
    |q| == 4 && Private(off, q) && EntryAt(mem, root, q) != UNUSED ==>
      || (exists i :: 0 <= i < |pages| && PagePath(pages[i]) == q)
      || (b.Contains(AddrOf(q)) && !EntryAt(mem, root, q).user)
  }

  /** Outside the shared slots the space maps the listed pages for ring 3, and the borrowed range for
      the kernel only. */
  ghost predicate Populated(mem: Memory, root: Frame, off: Index, pages: seq<PageSpec>, b: Range) {
    && Apart(pages, b)
    && (forall i :: 0 <= i < |pages| ==> Shows(mem, root, PagePath(pages[i]), pages[i].data, PageFlags(pages[i])))
    && (forall q: Path :: Accounted(mem, root, off, pages, b, q))
  }

  /** One more stack page: the space gains the tables made for it, not the page. */
  lemma ShareOwned(s: Phys, s': Phys, root: Frame, off: Index, b: Range, frame: Frame)
    requires Space(s, root, off, b)
    requires b.hi % PAGE_SIZE == 0 && b.lo <= b.hi && b.hi + PAGE_SIZE <= LOW_LIMIT
    requires Private(off, PathOf(b.hi)) && Mapped(s, s', root, PathOf(b.hi), frame, KERNEL_ONLY)
    ensures var b' := Range(b.lo, b.hi + PAGE_SIZE);
            && Space(s', root, off, b')
            && (forall x :: Owned(s'.mem, root, off, b', x) <==> Owned(s.mem, root, off, b, x) || Taken(s, s', x))
  {
    hide Walk, EntryAt, AddrOf, PathOf, Confined, Placed, TableTree, Owned;
    var p := PathOf(b.hi);
    var b' := Range(b.lo, b.hi + PAGE_SIZE);
    StackPath(s.mem, root, b);
    UnusedWalk(s.mem, root, p);
    Rebase(s, root, off, b, b');
    ShareSpace(s, s', root, off, b', p, frame);
    forall x
      ensures Owned(s'.mem, root, off, b', x) <==> Owned(s.mem, root, off, b, x) || Taken(s, s', x)
    {
      MappedOwned(s, s', root, off, b', p, frame, KERNEL_ONLY, x);
    }
  }

  /** The same, and the ring-3 pages are as before. */
  lemma ShareStep(s: Phys, s': Phys, root: Frame, off: Index, pages: seq<PageSpec>, b: Range, frame: Frame)
    requires Space(s, root, off, b) && AllPrivate(off, pages) && Populated(s.mem, root, off, pages, b)
    requires b.hi % PAGE_SIZE == 0 && b.lo <= b.hi && b.hi + PAGE_SIZE <= LOW_LIMIT
    requires Private(off, PathOf(b.hi)) && Mapped(s, s', root, PathOf(b.hi), frame, KERNEL_ONLY)
    ensures var b' := Range(b.lo, b.hi + PAGE_SIZE);
            && Space(s', root, off, b') && Populated(s'.mem, root, off, pages, b')
            && (forall x :: Owned(s'.mem, root, off, b', x) <==> Owned(s.mem, root, off, b, x) || Taken(s, s', x))
  {
    hide Walk, EntryAt, AddrOf, PathOf, Populated, Confined, Placed, TableTree, Owned;
    ShareOwned(s, s', root, off, b, frame);
    SharePopulated(s, s', root, off, pages, b, frame);
  }

  lemma {:induction false} UnusedWalk(mem: Memory, root: Frame, p: Path)
    requires p != [] && EntryAt(mem, root, p) == UNUSED
    ensures Walk(mem, root, p).None?
  {
    WalkIsTarget(mem, root, p);
  }

  /** The only page address in the page at `b.hi` is `b.hi`. */
  lemma StackPath(mem: Memory, root: Frame, b: Range)
    requires b.hi % PAGE_SIZE == 0 && b.lo <= b.hi && b.hi + PAGE_SIZE <= LOW_LIMIT
    ensures AddrOf(PathOf(b.hi)) == b.hi
    ensures forall q: Path :: |q| == 4 && q != PathOf(b.hi) ==>
              (b.Contains(AddrOf(q)) <==> Range(b.lo, b.hi + PAGE_SIZE).Contains(AddrOf(q)))
  {
    hide AddrOf, PathOf;
    PageAddr(b.hi);
    forall q: Path | |q| == 4 && q != PathOf(b.hi)
      ensures b.Contains(AddrOf(q)) <==> Range(b.lo, b.hi + PAGE_SIZE).Contains(AddrOf(q))
    {
      PathOfAddrOf(q);
      if b.hi <= AddrOf(q) < b.hi + PAGE_SIZE {
        OnlyMultiple(AddrOf(q), b.hi);
      }
    }
  }

  lemma OnlyMultiple(a: nat, b: nat)
    requires a % PAGE_SIZE == 0 && b % PAGE_SIZE == 0 && b <= a < b + PAGE_SIZE
    ensures a == b
  {
  }

  lemma ShareSpace(s: Phys, s': Phys, root: Frame, off: Index, b: Range, p: Path, frame: Frame)
    requires Space(s, root, off, b) && Mapped(s, s', root, p, frame, KERNEL_ONLY) && b.Contains(AddrOf(p))
    ensures Space(s', root, off, b)
  {
    hide Walk, EntryAt, AddrOf, PathEffect, Confined, Placed, TableTree;
    forall q, x | Owns(s.mem, root, off, b, q, x) && |q| == 4
      ensures x in s'.mem && s'.mem[x].Bytes?
    {
      MappedData(s, s', root, p, frame, KERNEL_ONLY, x);
    }
    MappedSpace(s, s', s', root, off, b, p, frame, KERNEL_ONLY);
  }

  lemma MappedGrew(s: Phys, s': Phys, root: Frame, p: Path, frame: Frame, flags: Flags)
    requires Mapped(s, s', root, p, frame, flags)
    ensures GrewAt(s, s', root, p, flags)
  {
    hide EntryAt, PathEffect, Confined, Placed, Sound;
  }

  lemma SharePopulated(s: Phys, s': Phys, root: Frame, off: Index, pages: seq<PageSpec>, b: Range, frame: Frame)
    requires Space(s, root, off, b) && AllPrivate(off, pages) && Populated(s.mem, root, off, pages, b)
    requires b.hi % PAGE_SIZE == 0 && b.lo <= b.hi && b.hi + PAGE_SIZE <= LOW_LIMIT
    requires Mapped(s, s', root, PathOf(b.hi), frame, KERNEL_ONLY)
    ensures Populated(s'.mem, root, off, pages, Range(b.lo, b.hi + PAGE_SIZE))
  {
    hide Walk, EntryAt, AddrOf, PathOf, Confined, Placed, Space, Mapped, Shows;
    var p := PathOf(b.hi);
    var b' := Range(b.lo, b.hi + PAGE_SIZE);
    StackPath(s.mem, root, b);
    MappedGrew(s, s', root, p, frame, KERNEL_ONLY);
    forall i | 0 <= i < |pages|
      ensures PagePath(pages[i]) != p && Shows(s'.mem, root, PagePath(pages[i]), pages[i].data, PageFlags(pages[i]))
    {
      assert PrivatePage(off, pages[i]);
      ShowsKept(s, s', root, off, b, p, KERNEL_ONLY, PagePath(pages[i]), pages[i].data, PageFlags(pages[i]));
    }
    forall q: Path
      ensures Accounted(s'.mem, root, off, pages, b', q)
    {
      assert Accounted(s.mem, root, off, pages, b, q);
      AccountedStep(s, s', root, off, pages, b, frame, q);
    }
  }

  lemma AccountedStep(s: Phys, s': Phys, root: Frame, off: Index, pages: seq<PageSpec>, b: Range, frame: Frame, q: Path)
    requires Mapped(s, s', root, PathOf(b.hi), frame, KERNEL_ONLY) && b.lo <= b.hi && AddrOf(PathOf(b.hi)) == b.hi
    requires Accounted(s.mem, root, off, pages, b, q)
    ensures Accounted(s'.mem, root, off, pages, Range(b.lo, b.hi + PAGE_SIZE), q)
  {
    hide Walk, EntryAt, AddrOf, PathOf, Confined, Placed, Sound;
    if |q| == 4 && q != PathOf(b.hi) {
      assert PathEffect(s, s', root, PathOf(b.hi)[..3], q, KERNEL_ONLY);
    }
  }

  /** Sharing a whole stack: the space stays a space with the stack range borrowed, every frame taken
      for tables is owned by it, and the ring-3 pages are as before. */
  lemma {:induction false} ShareStackEffect(s: Phys, root: Frame, off: Index, kernel: Frame, pages: seq<PageSpec>,
                                            base: nat, n: nat)
    requires Space(s, root, off, NOTHING) && AllPrivate(off, pages) && Image(s.mem, root, off, pages)
    requires base % PAGE_SIZE == 0 && base + n * PAGE_SIZE <= LOW_LIMIT
    requires forall i :: 0 <= i < n ==> Private(off, PathOf(base + i * PAGE_SIZE))
    requires ShareStack(s, root, kernel, base, n).1
    ensures var s' := ShareStack(s, root, kernel, base, n).0;
            var b := Range(base, base + n * PAGE_SIZE);
            && Space(s', root, off, b) && Populated(s'.mem, root, off, pages, b)
            && (forall x :: x in s'.pool ==> x in s.pool)
            && (forall x :: Owned(s'.mem, root, off, b, x) <==> Owned(s.mem, root, off, NOTHING, x) || Taken(s, s', x))
    decreases n
  {
    hide Walk, EntryAt, PathOf, AddrOf, Space, Populated, Owned, Image;
    if n == 0 {
      SharedNone(s, root, off, pages, base);
    } else {
      ShareStackEffect(s, root, off, kernel, pages, base, n - 1);
      var s1 := ShareStack(s, root, kernel, base, n - 1).0;
      var s' := ShareStack(s, root, kernel, base, n).0;
      var b := Range(base, base + (n - 1) * PAGE_SIZE);
      ShareLast(s, s1, s', root, off, kernel, pages, b);
    }
  }

  lemma SharedNone(s: Phys, root: Frame, off: Index, pages: seq<PageSpec>, base: nat)
    requires Space(s, root, off, NOTHING) && AllPrivate(off, pages) && Image(s.mem, root, off, pages)
    ensures Space(s, root, off, Range(base, base)) && Populated(s.mem, root, off, pages, Range(base, base))
    ensures forall x :: Owned(s.mem, root, off, Range(base, base), x) <==> Owned(s.mem, root, off, NOTHING, x)
  {
    hide Walk, EntryAt, PathOf, AddrOf, Shows;
    Rebase(s, root, off, NOTHING, Range(base, base));
    forall q: Path
      ensures Accounted(s.mem, root, off, pages, Range(base, base), q)
    {
      assert Listed(s.mem, root, off, pages, q);
    }
    forall i | 0 <= i < |pages|
      ensures Shows(s.mem, root, PagePath(pages[i]), pages[i].data, PageFlags(pages[i]))
    {
      assert PrivatePage(off, pages[i]);
    }
  }

  lemma {:induction false} ShareLast(s: Phys, s1: Phys, s': Phys, root: Frame, off: Index, kernel: Frame,
                                     pages: seq<PageSpec>, b: Range)
    requires Space(s1, root, off, b) && AllPrivate(off, pages) && Populated(s1.mem, root, off, pages, b)
    requires forall x :: x in s1.pool ==> x in s.pool
    requires forall x :: Owned(s1.mem, root, off, b, x) <==> Owned(s.mem, root, off, NOTHING, x) || Taken(s, s1, x)
    requires b.hi % PAGE_SIZE == 0 && b.lo <= b.hi && b.hi + PAGE_SIZE <= LOW_LIMIT && Private(off, PathOf(b.hi))
    requires Walk(s1.mem, kernel, PathOf(b.hi)).Some?
    requires var (s2, o) := MapTo(s1, root, PathOf(b.hi), Walk(s1.mem, kernel, PathOf(b.hi)).value, KERNEL_ONLY);
             s' == s2 && o.Done?
    ensures var b' := Range(b.lo, b.hi + PAGE_SIZE);
            && Space(s', root, off, b') && Populated(s'.mem, root, off, pages, b')
            && (forall x :: x in s'.pool ==> x in s.pool)
            && (forall x :: Owned(s'.mem, root, off, b', x) <==> Owned(s.mem, root, off, NOTHING, x) || Taken(s, s', x))
  {
    hide Walk, EntryAt, PathOf, AddrOf, Populated, Owned, MapTo, OwnedTree, TableTree;
    var frame := Walk(s1.mem, kernel, PathOf(b.hi)).value;
    MapToEffect(s1, root, PathOf(b.hi), frame, KERNEL_ONLY);
    ShareStep(s1, s', root, off, pages, b, frame);
    PoppedSubset(s1, s', 3);
    forall x
      ensures Taken(s, s', x) <==> Taken(s, s1, x) || Taken(s1, s', x)
    {
    }
  }

  // ---------------------------------------------------------------- the stack is there

  /** An upper entry lets the kernel read and write below it. */
  predicate OpenToKernel(e: Entry) {
    e.present && e.writable && !e.huge
  }

  /** The page at `p` is `frame`: the kernel may read and write it, ring 3 may not. */
  ghost predicate KernelMaps(mem: Memory, root: Frame, p: Path, frame: Frame) {
    && |p| == 4 && Walk(mem, root, p) == Some(frame)
    && EntryAt(mem, root, p) == Entry(frame, present := true, writable := true, user := false, huge := false)
    && forall k :: 1 <= k <= 3 ==> OpenToKernel(EntryAt(mem, root, p[..k]))
  }

  lemma {:induction false} NewStackPage(s: Phys, s': Phys, root: Frame, p: Path, frame: Frame)
    requires Mapped(s, s', root, p, frame, KERNEL_ONLY)
    ensures KernelMaps(s'.mem, root, p, frame)
  {
    WalkIsTarget(s'.mem, root, p);
    forall k | 1 <= k <= 3
      ensures OpenToKernel(EntryAt(s'.mem, root, p[..k]))
    {
      WalkPrefix(s'.mem, root, p, k);
      WalkIsTarget(s'.mem, root, p[..k]);
      hide Walk, EntryAt, Confined, Placed, Sound;
      assert PathEffect(s, s', root, p[..3], p[..k], KERNEL_ONLY);
    }
  }

  lemma {:induction false} StackPageKept(s: Phys, s': Phys, root: Frame, p: Path, flags: Flags, q: Path, frame: Frame)
    requires GrewAt(s, s', root, p, flags) && KernelMaps(s.mem, root, q, frame)
    ensures KernelMaps(s'.mem, root, q, frame)
  {
    WalkIsTarget(s'.mem, root, q);
    hide Walk, EntryAt, Confined;
    assert PathEffect(s, s', root, p[..3], q, flags);
    forall k | 1 <= k <= 3
      ensures OpenToKernel(EntryAt(s'.mem, root, q[..k]))
    {
      assert OpenToKernel(EntryAt(s.mem, root, q[..k]));
      assert PathEffect(s, s', root, p[..3], q[..k], flags);
    }
  }

  /** Every page of a shared stack is the frame the kernel's table showed for it when it was shared, readable
      and writable for the kernel under the space's own table. */
  lemma {:induction false} ShareStackMaps(s: Phys, root: Frame, kernel: Frame, base: nat, n: nat, i: nat)
    requires Sound(s, root) && i < n && ShareStack(s, root, kernel, base, n).1
    ensures var at := ShareStack(s, root, kernel, base, i).0;
            var p := PathOf(base + i * PAGE_SIZE);
            && Walk(at.mem, kernel, p).Some?
            && KernelMaps(ShareStack(s, root, kernel, base, n).0.mem, root, p, Walk(at.mem, kernel, p).value)
    decreases n
  {
    hide Walk, EntryAt, PathOf, KernelMaps, MapTo;
    ShareStackSound(s, root, kernel, base, n - 1);
    var s1 := ShareStack(s, root, kernel, base, n - 1).0;
    var s2 := ShareStack(s, root, kernel, base, n).0;
    var last := PathOf(base + (n - 1) * PAGE_SIZE);
    var frame := Walk(s1.mem, kernel, last).value;
    MapToEffect(s1, root, last, frame, KERNEL_ONLY);
    hide Mapped, Sound;
    if i == n - 1 {
      NewStackPage(s1, s2, root, last, frame);
    } else {
      ShareStackMaps(s, root, kernel, base, n - 1, i);
      var at := ShareStack(s, root, kernel, base, i).0;
      MappedGrew(s1, s2, root, last, frame, KERNEL_ONLY);
      var p := PathOf(base + i * PAGE_SIZE);
      StackPageKept(s1, s2, root, last, KERNEL_ONLY, p, Walk(at.mem, kernel, p).value);
    }
  }

  lemma {:induction false} ShareStackSound(s: Phys, root: Frame, kernel: Frame, base: nat, n: nat)
    requires Sound(s, root) && ShareStack(s, root, kernel, base, n).1
    ensures Sound(ShareStack(s, root, kernel, base, n).0, root)
    decreases n
  {
    hide Walk, EntryAt, PathOf, MapTo, TableTree;
    if n > 0 {
      ShareStackSound(s, root, kernel, base, n - 1);
      var s1 := ShareStack(s, root, kernel, base, n - 1).0;
      var p := PathOf(base + (n - 1) * PAGE_SIZE);
      MapToEffect(s1, root, p, Walk(s1.mem, kernel, p).value, KERNEL_ONLY);
    }
  }

  /** In an address space built by loading a file and sharing a stack, ring 3 reaches exactly the
      loaded pages outside the shared slots, writes exactly the writable ones, and never the stack. */
  lemma PopulatedReach(mem: Memory, root: Frame, off: Index, pages: seq<PageSpec>, b: Range, q: Path, write: bool)
    requires Populated(mem, root, off, pages, b) && |q| == 4 && Private(off, q)
    ensures Grants(mem, root, q, write) <==>
              exists i :: 0 <= i < |pages| && PagePath(pages[i]) == q && (write ==> pages[i].writable)
    ensures b.Contains(AddrOf(q)) ==> !Grants(mem, root, q, write)
  {
    hide Walk, EntryAt, PathOf, AddrOf, Shows;
    assert q[..4] == q;
    assert Accounted(mem, root, off, pages, b, q);
    if Grants(mem, root, q, write) {
      assert Permits(EntryAt(mem, root, q[..4]), write);
      var i :| 0 <= i < |pages| && PagePath(pages[i]) == q;
      ShowsGrants(mem, root, q, pages[i].data, PageFlags(pages[i]), write);
    }
    if i :| 0 <= i < |pages| && PagePath(pages[i]) == q && (write ==> pages[i].writable) {
      ShowsGrants(mem, root, q, pages[i].data, PageFlags(pages[i]), write);
    }
  }
}
