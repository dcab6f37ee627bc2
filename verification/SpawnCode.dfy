/** The stack-sharing loop of `spawn_isolated_inner` (src/scheduler/mod.rs). */
module SpawnCode {
  import opened Frames
  import opened Paging
  import opened Mapping
  import opened AddressSpace
  import opened LoaderCode
  import opened StackSharing

  lemma {:induction false} ShareStopsNext(s: Phys, root: Frame, kernel: Frame, base: nat, n: nat)
    requires n > 0 && !ShareStack(s, root, kernel, base, n - 1).1
    ensures !ShareStack(s, root, kernel, base, n).1
  {
    hide MapTo, PathOf, Walk;
  }

  /** A page that cannot be shared fails the whole stack. */
  lemma {:induction false} ShareStops(s: Phys, root: Frame, kernel: Frame, base: nat, k: nat, n: nat)
    requires k <= n && !ShareStack(s, root, kernel, base, k).1
    ensures !ShareStack(s, root, kernel, base, n).1
    decreases n
  {
    hide MapTo, PathOf, Walk, NextTable, Descend;
    if k < n {
      ShareStops(s, root, kernel, base, k, n - 1);
      hide ShareStack;
      ShareStopsNext(s, root, kernel, base, n);
    }
  }

  /** Maps `n` stack pages to the frames the kernel's table maps them to, kernel-only; false stands for the
      source's `expect` failures. */
  method ShareStackPages(ram: PhysicalMemory, fa: BootInfoFrameAllocator, root: Frame, kernel: Frame, base: nat, n: nat)
      returns (ok: bool)
    requires fa.Valid()
    modifies ram`mem, fa
    ensures fa.Valid() && ok == ShareStack(old(State(ram, fa)), root, kernel, base, n).1
    ensures ok ==> State(ram, fa) == ShareStack(old(State(ram, fa)), root, kernel, base, n).0
  {
    ghost var s := State(ram, fa);
    hide MapTo, PathOf, Walk;
    for i := 0 to n
      invariant fa.Valid() && (State(ram, fa), true) == ShareStack(s, root, kernel, base, i)
    {
      var p := PathOf(base + i * PAGE_SIZE);
      var frame := Walk(ram.mem, kernel, p);
      if frame.None? {
        ShareStops(s, root, kernel, base, i + 1, n);
        return false;
      }
      var o := MapToPage(ram, fa, root, p, frame.value, KERNEL_ONLY);
      if !o.Done? {
        ShareStops(s, root, kernel, base, i + 1, n);
        return false;
      }
    }
    ok := true;
  }
}
