/** Isolated address spaces: which frames one owns, and how `free_address_space` gives back exactly those
    (src/memory.rs). */
module AddressSpace {
  import opened Basics
  import opened Frames
  import opened Paging
  import opened Mapping
  import Bits

  /** A half-open range of virtual addresses. */
  datatype Range = Range(lo: nat, hi: nat) {
    predicate Contains(a: nat) { lo <= a < hi }
  }

  class PhysicalMemory {
    var mem: Memory
    var cr3: Frame

    constructor (mem: Memory, cr3: Frame)
      ensures this.mem == mem && this.cr3 == cr3
    {
      this.mem, this.cr3 := mem, cr3;
    }
  }

  /** Slot 0 and the physical-memory-offset slot `off` of every L4 table are clones of the kernel's. */
  predicate Shared(off: Index, i: Index) {
    i == 0 || i == off
  }

  predicate Private(off: Index, q: Path) {
    q == [] || !Shared(off, q[0])
  }

  /** The address space rooted at `root` owns frame `x` through path `q`: a table or a page reached
      outside the shared slots, the pages of the borrowed range excepted. */
  ghost predicate Owns(mem: Memory, root: Frame, off: Index, b: Range, q: Path, x: Frame) {
    && |q| <= 4 && Private(off, q) && Walk(mem, root, q) == Some(x)
    && (|q| == 4 ==> !b.Contains(AddrOf(q)))
  }

  ghost predicate Owned(mem: Memory, root: Frame, off: Index, b: Range, x: Frame) {
    exists q :: Owns(mem, root, off, b, q, x)
  }

  ghost predicate NoHuge(mem: Memory, root: Frame, off: Index, q: Path) {
    1 <= |q| <= 4 && Private(off, q) ==> !EntryAt(mem, root, q).huge
  }

  /** The private part is a tree: owned pages hold data, and no frame is owned through two paths. */
  ghost predicate OwnedTree(mem: Memory, root: Frame, off: Index, b: Range) {
    && TableTree(mem, root)
    && (forall q, x :: Owns(mem, root, off, b, q, x) && |q| == 4 ==> x in mem && mem[x].Bytes?)
    && (forall q, r, x :: Owns(mem, root, off, b, q, x) && Owns(mem, root, off, b, r, x) ==> q == r)
    && (forall q :: NoHuge(mem, root, off, q))
  }

  /** An address space none of whose frames is available for allocation. */
  ghost predicate Space(s: Phys, root: Frame, off: Index, b: Range) {
    && Sound(s, root) && OwnedTree(s.mem, root, off, b)
    && (forall q, x :: Owns(s.mem, root, off, b, q, x) ==> x !in s.pool)
  }

  // ---------------------------------------------------------------- taking a space apart

  /** `q` passes below `prefix` through a slot before `i`. */
  predicate Below(prefix: Path, i: int, q: Path) {
    |prefix| < |q| && prefix <= q && q[|prefix|] < i
  }

  /** `freed` lists, each once, the frames owned through slots before `i` of the table at `prefix`. */
  ghost predicate FreedBelow(mem: Memory, root: Frame, off: Index, b: Range, prefix: Path, i: int, freed: seq<Frame>) {
    && NoDup(freed)
    && (forall x :: x in freed <==> exists q :: Below(prefix, i, q) && Owns(mem, root, off, b, q, x))
  }

  /** `freed` lists, each once, the frames owned through `prefix` or anything below it. */
  ghost predicate FreedUnder(mem: Memory, root: Frame, off: Index, b: Range, prefix: Path, freed: seq<Frame>) {
    && NoDup(freed)
    && (forall x :: x in freed <==> exists q :: prefix <= q && Owns(mem, root, off, b, q, x))
  }

  lemma FreedStart(mem: Memory, root: Frame, off: Index, b: Range, prefix: Path)
    ensures FreedBelow(mem, root, off, b, prefix, 0, [])
  {
  }

  lemma FreedChild(mem: Memory, root: Frame, off: Index, b: Range, prefix: Path, i: Index, freed: seq<Frame>,
                   more: seq<Frame>)
    requires OwnedTree(mem, root, off, b)
    requires FreedBelow(mem, root, off, b, prefix, i, freed)
    requires FreedUnder(mem, root, off, b, prefix + [i], more)
    ensures FreedBelow(mem, root, off, b, prefix, i + 1, freed + more)
  {
    forall x | x in freed
      ensures x !in more
    {
      var q :| Below(prefix, i, q) && Owns(mem, root, off, b, q, x);
      assert !(prefix + [i] <= q);
    }
    NoDupConcat(freed, more);
    forall x
      ensures x in freed + more <==> exists q :: Below(prefix, i + 1, q) && Owns(mem, root, off, b, q, x)
    {
      if x in freed {
        var q :| Below(prefix, i, q) && Owns(mem, root, off, b, q, x);
        assert Below(prefix, i + 1, q);
      }
      if x in more {
        var q :| prefix + [i] <= q && Owns(mem, root, off, b, q, x);
        assert q[|prefix|] == (prefix + [i])[|prefix|];
        assert Below(prefix, i + 1, q);
      }
      if q :| Below(prefix, i + 1, q) && Owns(mem, root, off, b, q, x) {
        if q[|prefix|] < i {
          assert Below(prefix, i, q);
        } else {
          assert prefix + [i] <= q;
        }
      }
    }
  }

  lemma FreedTable(mem: Memory, root: Frame, off: Index, b: Range, prefix: Path, frame: Frame, freed: seq<Frame>)
    requires OwnedTree(mem, root, off, b)
    requires |prefix| <= 3 && Owns(mem, root, off, b, prefix, frame)
    requires FreedBelow(mem, root, off, b, prefix, 512, freed)
    ensures FreedUnder(mem, root, off, b, prefix, freed + [frame])
  {
    assert frame !in freed;
    NoDupConcat(freed, [frame]);
    forall x
      ensures x in freed + [frame] <==> exists q :: prefix <= q && Owns(mem, root, off, b, q, x)
    {
      if q :| prefix <= q && Owns(mem, root, off, b, q, x) {
        if q != prefix {
          assert Below(prefix, 512, q);
        }
      }
    }
  }

  /** A slot that leads nowhere owns nothing. */
  lemma {:induction false} FreedNothing(mem: Memory, root: Frame, off: Index, b: Range, p: Path)
    requires (p != [] && !Private(off, p)) || Walk(mem, root, p).None?
    ensures FreedUnder(mem, root, off, b, p, [])
  {
    forall q, x | p <= q && Owns(mem, root, off, b, q, x)
      ensures false
    {
      assert q[..|p|] == p;
      WalkPrefix(mem, root, q, |p|);
    }
  }

  /** A slot of a last-level table leads to one page, owned unless borrowed. */
  lemma {:induction false} FreedPage(mem: Memory, root: Frame, off: Index, b: Range, p: Path, x: Frame)
    requires |p| == 4 && Private(off, p) && Walk(mem, root, p) == Some(x)
    ensures FreedUnder(mem, root, off, b, p, if b.Contains(AddrOf(p)) then [] else [x])
  {
    forall q: Path, y | p <= q && Owns(mem, root, off, b, q, y)
      ensures q == p && y == x && !b.Contains(AddrOf(p))
    {
    }
    if !b.Contains(AddrOf(p)) {
      assert Owns(mem, root, off, b, p, x);
    }
  }

  lemma {:induction false} Pow2Span(k: nat)
    requires k < 4
    ensures Bits.Pow2(12 + 9 * (3 - k)) == Span(k)
  {
    hide Bits.Pow2;
    Bits.Pow2Values();
  }

  /** The shift and the bit-or of `free_table` extend the address by one index. */
  lemma {:induction false} ChildAddr(prefix: Path, i: Index)
    requires 1 <= |prefix| <= 3
    ensures Bits.Or(AddrOf(prefix), i * Bits.Pow2(12 + 9 * (3 - |prefix|))) == AddrOf(prefix + [i])
  {
    hide Bits.Pow2, Bits.Or;
    var k := |prefix|;
    assert (prefix + [i])[..k] == prefix;
    Pow2Span(k);
    Pow2Span(k - 1);
    var shift := 12 + 9 * (3 - k);
    assert shift + 9 == 12 + 9 * (3 - (k - 1));
    assert Span(k - 1) == 512 * Span(k);
    Bits.OrShifted(Number(prefix), i * Span(k), shift + 9);
  }

  /** `free_table`: returns every frame owned through the table at `prefix`, each exactly once. */
  method FreeTable(frame: Frame, level: nat, baseAddr: nat, ram: PhysicalMemory, borrowed: Range,
                   fa: BootInfoFrameAllocator, ghost root: Frame, ghost off: Index, ghost prefix: Path)
      returns (ghost freed: seq<Frame>)
    requires fa.Valid() && OwnedTree(ram.mem, root, off, borrowed)
    requires 1 <= level <= 3 && |prefix| == 4 - level && Private(off, prefix)
    requires Walk(ram.mem, root, prefix) == Some(frame) && baseAddr == AddrOf(prefix)
    modifies fa`freeList
    ensures fa.Valid() && fa.Fresh() == old(fa.Fresh()) && fa.Returned() == old(fa.Returned()) + freed
    ensures FreedUnder(ram.mem, root, off, borrowed, prefix, freed)
    decreases level
  {
    hide FreedBelow, FreedUnder, Walk, Bits.Pow2, Bits.Or;
    var table := TableAt(ram.mem, frame);
    var size := Bits.Pow2(12 + 9 * (level - 1));
    freed := [];
    FreedStart(ram.mem, root, off, borrowed, prefix);
    for i := 0 to 512
      invariant fa.Valid() && fa.Fresh() == old(fa.Fresh()) && fa.Returned() == old(fa.Returned()) + freed
      invariant FreedBelow(ram.mem, root, off, borrowed, prefix, i, freed)
    {
      ghost var p := prefix + [i];
      ghost var more := [];
      WalkSnoc(ram.mem, root, prefix, i);
      if table[i].present {
        assert NoHuge(ram.mem, root, off, p);
        var child := table[i].frame;
        ChildAddr(prefix, i);
        var childAddr := Bits.Or(baseAddr, i * size);
        if level > 1 {
          more := FreeTable(child, level - 1, childAddr, ram, borrowed, fa, root, off, p);
        } else {
          FreedPage(ram.mem, root, off, borrowed, p, child);
          if !borrowed.Contains(childAddr) {
            fa.DeallocateFrame(child);
            more := [child];
          }
        }
      } else {
        FreedNothing(ram.mem, root, off, borrowed, p);
      }
      FreedChild(ram.mem, root, off, borrowed, prefix, i, freed, more);
      ConcatAssoc(old(fa.Returned()), freed, more);
      freed := freed + more;
    }
    assert Owns(ram.mem, root, off, borrowed, prefix, frame);
    FreedTable(ram.mem, root, off, borrowed, prefix, frame, freed);
    fa.DeallocateFrame(frame);
    ConcatAssoc(old(fa.Returned()), freed, [frame]);
    freed := freed + [frame];
  }

  lemma FreedWhole(mem: Memory, root: Frame, off: Index, b: Range, freed: seq<Frame>)
    requires OwnedTree(mem, root, off, b) && FreedBelow(mem, root, off, b, [], 512, freed)
    ensures NoDup(freed + [root])
    ensures forall x :: x in freed + [root] <==> Owned(mem, root, off, b, x)
  {
    assert Owns(mem, root, off, b, [], root);
    FreedTable(mem, root, off, b, [], root, freed);
    forall x
      ensures x in freed + [root] <==> Owned(mem, root, off, b, x)
    {
      if q :| Owns(mem, root, off, b, q, x) {
        assert [] <= q;
      }
    }
  }

  lemma {:induction false} RootSlot(mem: Memory, root: Frame, i: Index)
    ensures Walk(mem, root, [i]) == Target(TableAt(mem, root)[i])
    ensures EntryAt(mem, root, [i]) == TableAt(mem, root)[i]
    ensures AddrOf([i]) == i * Bits.Pow2(39)
  {
    hide Bits.Pow2;
    assert [i][..0] == [];
    assert Number([i]) == 512 * Number([]) + i;
    Pow2Span(0);
  }

  /** `free_address_space`: the frames returned are exactly those the space owns, each once; nothing
      reached through a shared slot and no borrowed page is among them. */
  method FreeAddressSpace(l4Frame: Frame, ram: PhysicalMemory, off: Index, borrowed: Range, fa: BootInfoFrameAllocator)
      returns (ghost freed: seq<Frame>)
    requires fa.Valid() && OwnedTree(ram.mem, l4Frame, off, borrowed)
    modifies fa`freeList
    ensures fa.Valid() && fa.Fresh() == old(fa.Fresh()) && fa.Returned() == old(fa.Returned()) + freed
    ensures NoDup(freed)
    ensures forall x :: x in freed <==> Owned(ram.mem, l4Frame, off, borrowed, x)
  {
    hide FreedBelow, FreedUnder, Walk, Bits.Pow2;
    var table := TableAt(ram.mem, l4Frame);
    freed := [];
    FreedStart(ram.mem, l4Frame, off, borrowed, []);
    for i := 0 to 512
      invariant fa.Valid() && fa.Fresh() == old(fa.Fresh()) && fa.Returned() == old(fa.Returned()) + freed
      invariant FreedBelow(ram.mem, l4Frame, off, borrowed, [], i, freed)
    {
      ghost var p: Path := [i];
      ghost var more := [];
      assert [] + p == p;
      RootSlot(ram.mem, l4Frame, i);
      if Shared(off, i) || !table[i].present {
        FreedNothing(ram.mem, l4Frame, off, borrowed, p);
      } else {
        assert NoHuge(ram.mem, l4Frame, off, p);
        more := FreeTable(table[i].frame, 3, i * Bits.Pow2(39), ram, borrowed, fa, l4Frame, off, p);
      }
      FreedChild(ram.mem, l4Frame, off, borrowed, [], i, freed, more);
      ConcatAssoc(old(fa.Returned()), freed, more);
      freed := freed + more;
    }
    FreedWhole(ram.mem, l4Frame, off, borrowed, freed);
    fa.DeallocateFrame(l4Frame);
    ConcatAssoc(old(fa.Returned()), freed, [l4Frame]);
    freed := freed + [l4Frame];
  }
}
