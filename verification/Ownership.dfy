/** What creating an address space and mapping pages into it does to ownership: nothing is lost,
    nothing is owned twice, and other address spaces do not notice. */
module Ownership {
  import opened Basics
  import opened Frames
  import opened Paging
  import opened Mapping
  import opened AddressSpace

  // ---------------------------------------------------------------- frame rule

  ghost predicate TablesAgree(mem: Memory, mem': Memory, root: Frame) {
    forall q, t :: Names(mem, root, q, t) ==> TableAt(mem', t) == TableAt(mem, t)
  }

  lemma {:induction false} WalkAgree(mem: Memory, mem': Memory, root: Frame, q: Path)
    requires TablesAgree(mem, mem', root) && |q| <= 4
    ensures Walk(mem', root, q) == Walk(mem, root, q)
    ensures q != [] ==> EntryAt(mem', root, q) == EntryAt(mem, root, q)
    decreases |q|
  {
    if q != [] {
      var q1 := q[..|q| - 1];
      WalkAgree(mem, mem', root, q1);
      if Walk(mem, root, q1).Some? {
        assert Names(mem, root, q1, Walk(mem, root, q1).value);
      }
    }
  }

  ghost predicate ViewAgrees(mem: Memory, mem': Memory, root: Frame) {
    && (forall q: Path :: |q| <= 4 ==> Walk(mem', root, q) == Walk(mem, root, q))
    && (forall q: Path :: 1 <= |q| <= 4 ==> EntryAt(mem', root, q) == EntryAt(mem, root, q))
  }

  lemma ViewAgree(mem: Memory, mem': Memory, root: Frame)
    requires TablesAgree(mem, mem', root)
    ensures ViewAgrees(mem, mem', root)
  {
    forall q: Path | |q| <= 4
      ensures Walk(mem', root, q) == Walk(mem, root, q)
      ensures q != [] ==> EntryAt(mem', root, q) == EntryAt(mem, root, q)
    {
      WalkAgree(mem, mem', root, q);
    }
  }

  lemma SoundAgree(s: Phys, s': Phys, root: Frame)
    requires Sound(s, root) && NoDup(s'.pool)
    requires forall q, t :: Names(s.mem, root, q, t) ==>
               IsTable(s'.mem, t) && TableAt(s'.mem, t) == TableAt(s.mem, t) && t !in s'.pool
    ensures Sound(s', root) && ViewAgrees(s.mem, s'.mem, root)
  {
    ViewAgree(s.mem, s'.mem, root);
    hide Walk, EntryAt;
    forall q, t | Names(s'.mem, root, q, t)
      ensures Names(s.mem, root, q, t)
    {
    }
    forall q
      ensures CleanSlot(s'.mem, root, q)
    {
      assert CleanSlot(s.mem, root, q);
    }
  }

  /** A space whose tables and owned pages did not change, and whose frames stay out of the pool, is
      the same space. */
  lemma SpaceAgree(s: Phys, s': Phys, root: Frame, off: Index, b: Range)
    requires Space(s, root, off, b) && NoDup(s'.pool)
    requires forall q, t :: Names(s.mem, root, q, t) ==> Same(s.mem, s'.mem, t) && t !in s'.pool
    requires forall q, x :: Owns(s.mem, root, off, b, q, x) ==> Same(s.mem, s'.mem, x) && x !in s'.pool
    ensures Space(s', root, off, b) && ViewAgrees(s.mem, s'.mem, root)
    ensures forall q, x :: Owns(s'.mem, root, off, b, q, x) <==> Owns(s.mem, root, off, b, q, x)
  {
    hide Walk, EntryAt;
    forall q, t | Names(s.mem, root, q, t)
      ensures IsTable(s'.mem, t) && TableAt(s'.mem, t) == TableAt(s.mem, t) && t !in s'.pool
    {
      assert IsTable(s.mem, t);
    }
    SoundAgree(s, s', root);
    forall q, x
      ensures Owns(s'.mem, root, off, b, q, x) <==> Owns(s.mem, root, off, b, q, x)
    {
    }
    forall q
      ensures NoHuge(s'.mem, root, off, q)
    {
      assert NoHuge(s.mem, root, off, q);
    }
  }

  // ---------------------------------------------------------------- map_to and ownership

  /** Which paths resolve after `map_to`. */
  lemma {:induction false} MappedWalk(s: Phys, s': Phys, root: Frame, p: Path, frame: Frame, flags: Flags, q: Path)
    requires Sound(s, root) && Mapped(s, s', root, p, frame, flags) && |q| <= 4
    ensures q == p ==> Walk(s.mem, root, q).None? && Walk(s'.mem, root, q) == Some(frame)
    ensures q != p && Walk(s.mem, root, q).Some? ==> Walk(s'.mem, root, q) == Walk(s.mem, root, q)
    ensures q != p && Walk(s.mem, root, q).None? && Walk(s'.mem, root, q).Some? ==>
              q != [] && q <= p && |q| <= 3 && Taken(s, s', Walk(s'.mem, root, q).value)
  {
    if q == [] {
    } else {
      WalkIsTarget(s.mem, root, q);
      WalkIsTarget(s'.mem, root, q);
      hide Walk, EntryAt, Confined, Placed, TableTree;
      if q != p {
        assert PathEffect(s, s', root, p[..3], q, flags);
        CleanAt(s.mem, root, q);
      }
    }
  }

  lemma CleanAt(mem: Memory, root: Frame, q: Path)
    requires TableTree(mem, root) && 1 <= |q| <= 4
    ensures EntryAt(mem, root, q) == UNUSED || EntryAt(mem, root, q).present
  {
    assert CleanSlot(mem, root, q);
  }

  /** The condition on a mapped frame: an owned page must hold data and be new to the space. */
  ghost predicate Admissible(s: Phys, s': Phys, root: Frame, off: Index, b: Range, p: Path, frame: Frame) {
    |p| == 4 && (Private(off, p) && !b.Contains(AddrOf(p)) ==>
      && frame in s'.mem && s'.mem[frame].Bytes? && frame !in s.pool
      && !Owned(s.mem, root, off, b, frame))
  }

  /** Ownership after `map_to`, path by path. */
  lemma MappedOwns(s: Phys, s': Phys, root: Frame, off: Index, b: Range, p: Path, frame: Frame, flags: Flags, q: Path,
                   x: Frame)
    requires Sound(s, root) && Mapped(s, s', root, p, frame, flags)
    ensures Owns(s.mem, root, off, b, q, x) ==> Owns(s'.mem, root, off, b, q, x)
    ensures Owns(s'.mem, root, off, b, q, x) ==>
              || Owns(s.mem, root, off, b, q, x)
              || (q == p && x == frame && Private(off, p) && !b.Contains(AddrOf(p)))
              || (q != [] && q <= p && |q| <= 3 && Private(off, p) && Taken(s, s', x))
  {
    if |q| <= 4 {
      MappedWalk(s, s', root, p, frame, flags, q);
    }
  }

  lemma MappedHuge(s: Phys, s': Phys, root: Frame, off: Index, p: Path, frame: Frame, flags: Flags, q: Path)
    requires Mapped(s, s', root, p, frame, flags) && NoHuge(s.mem, root, off, q)
    ensures NoHuge(s'.mem, root, off, q)
  {
    hide Walk, EntryAt;
    if 1 <= |q| <= 4 && q != p {
      assert PathEffect(s, s', root, p[..3], q, flags);
    }
  }

  lemma OwnsAgree(mem: Memory, mem': Memory, root: Frame, off: Index, b: Range, q: Path, x: Frame)
    requires ViewAgrees(mem, mem', root)
    ensures Owns(mem', root, off, b, q, x) <==> Owns(mem, root, off, b, q, x)
  {
    hide Walk, EntryAt, Number, AddrOf;
  }

  /** Mapping a page keeps the space a space. `s'` is the state after `map_to`, `s2` after the page
      was filled. */
  lemma MappedSpace(s: Phys, s': Phys, s2: Phys, root: Frame, off: Index, b: Range, p: Path, frame: Frame, flags: Flags)
    requires Space(s, root, off, b) && Mapped(s, s', root, p, frame, flags)
    requires Sound(s2, root) && ViewAgrees(s'.mem, s2.mem, root) && s2.pool == s'.pool
    requires Admissible(s, s2, root, off, b, p, frame)
    requires forall q, x :: Owns(s.mem, root, off, b, q, x) && |q| == 4 ==> x in s2.mem && s2.mem[x].Bytes?
    ensures Space(s2, root, off, b)
  {
    hide Walk, EntryAt, Number, AddrOf, PathEffect, Confined, Placed, ViewAgrees;
    PoppedSubset(s, s', 3);
    forall q, x | Owns(s2.mem, root, off, b, q, x)
      ensures x !in s2.pool
      ensures |q| == 4 ==> x in s2.mem && s2.mem[x].Bytes?
      ensures |q| <= 3 ==> IsTable(s2.mem, x) && Names(s2.mem, root, q, x)
      ensures |q| == 4 ==> Owns(s.mem, root, off, b, q, x) || (q == p && x == frame && !Owned(s.mem, root, off, b, x))
    {
      OwnsAgree(s'.mem, s2.mem, root, off, b, q, x);
      MappedOwns(s, s', root, off, b, p, frame, flags, q, x);
      if |q| <= 3 {
        assert Names(s2.mem, root, q, x);
      }
    }
    forall q
      ensures NoHuge(s2.mem, root, off, q)
    {
      assert NoHuge(s.mem, root, off, q);
      MappedHuge(s, s', root, off, p, frame, flags, q);
      HugeAgree(s'.mem, s2.mem, root, off, q);
    }
  }

  lemma HugeAgree(mem: Memory, mem': Memory, root: Frame, off: Index, q: Path)
    requires ViewAgrees(mem, mem', root) && NoHuge(mem, root, off, q)
    ensures NoHuge(mem', root, off, q)
  {
    hide Walk, EntryAt;
  }

  /** What a space owns after `map_to`: what it owned, plus, for a private page, every frame taken
      from the pool and the page itself unless borrowed. */
  lemma MappedOwned(s: Phys, s': Phys, root: Frame, off: Index, b: Range, p: Path, frame: Frame, flags: Flags, x: Frame)
    requires Sound(s, root) && Mapped(s, s', root, p, frame, flags)
    ensures Owned(s'.mem, root, off, b, x) <==>
              || Owned(s.mem, root, off, b, x)
              || (Private(off, p) && Taken(s, s', x))
              || (Private(off, p) && x == frame && !b.Contains(AddrOf(p)))
  {
    hide Walk, EntryAt, Number, AddrOf, PathEffect, Confined;
    if q :| Owns(s'.mem, root, off, b, q, x) {
      MappedOwns(s, s', root, off, b, p, frame, flags, q, x);
    }
    if q :| Owns(s.mem, root, off, b, q, x) {
      MappedOwns(s, s', root, off, b, p, frame, flags, q, x);
    }
    if Private(off, p) && Taken(s, s', x) {
      var q :| q <= p[..3] && Names(s'.mem, root, q, x);
      assert Owns(s'.mem, root, off, b, q, x);
    }
    if Private(off, p) && x == frame && !b.Contains(AddrOf(p)) {
      MappedWalk(s, s', root, p, frame, flags, p);
      assert Owns(s'.mem, root, off, b, p, x);
    }
  }

  // ---------------------------------------------------------------- mapping a filled page

  /** One round of the loop in `map_segment`: take a frame, map it at `p`, fill it. */
  function MapPage(s: Phys, root: Frame, p: Path, data: seq<byte>, flags: Flags): (Phys, Outcome)
    requires |p| == 4
  {
    if s.pool == [] then (s, FrameAllocationFailed)
    else
      var d := s.pool[0];
      var (s1, o) := MapTo(s.(pool := s.pool[1..]), root, p, d, flags);
      if !o.Done? then (s1, o) else (s1.(mem := s1.mem[d := Bytes(data)]), o)
  }

  /** A page mapped and filled: its slot, its contents, and the slots above it. */
  ghost predicate PageMapped(s: Phys, s': Phys, root: Frame, p: Path, data: seq<byte>, flags: Flags) {
    && |p| == 4 && EntryAt(s.mem, root, p) == UNUSED
    && var d := EntryAt(s'.mem, root, p).frame;
    && EntryAt(s'.mem, root, p) == Slot(d, flags)
    && Taken(s, s', d) && d in s'.mem && s'.mem[d] == Bytes(data)
    && Popped(s, s', 4) && Confined(s, s', root, p)
    && (forall q: Path :: 1 <= |q| <= 4 && q != p ==> PathEffect(s, s', root, p[..3], q, flags))
  }

  lemma SpacePopped(s: Phys, root: Frame, off: Index, b: Range)
    requires Space(s, root, off, b) && s.pool != []
    ensures Space(s.(pool := s.pool[1..]), root, off, b)
  {
  }

  lemma DataWritten(s: Phys, root: Frame, d: Frame, data: seq<byte>)
    requires Sound(s, root) && (forall q, t :: Names(s.mem, root, q, t) ==> t != d)
    ensures var s' := s.(mem := s.mem[d := Bytes(data)]);
            Sound(s', root) && ViewAgrees(s.mem, s'.mem, root)
  {
    hide Walk, EntryAt;
    var s' := s.(mem := s.mem[d := Bytes(data)]);
    forall q, t | Names(s.mem, root, q, t)
      ensures IsTable(s'.mem, t) && TableAt(s'.mem, t) == TableAt(s.mem, t) && t !in s'.pool
    {
      assert IsTable(s.mem, t);
    }
    SoundAgree(s, s', root);
  }

  /** A frame taken before `map_to` is not one of the tables afterwards. */
  lemma MappedNames(s: Phys, s': Phys, root: Frame, p: Path, frame: Frame, flags: Flags, d: Frame)
    requires Sound(s, root) && Mapped(s, s', root, p, frame, flags)
    requires d !in s.pool && (forall q, t :: Names(s.mem, root, q, t) ==> t != d)
    ensures forall q, t :: Names(s'.mem, root, q, t) ==> t != d
  {
    hide EntryAt, PathEffect, Confined, Placed, TableTree;
    forall q, t | Names(s'.mem, root, q, t)
      ensures t != d
    {
      MappedWalk(s, s', root, p, frame, flags, q);
      if Walk(s.mem, root, q).Some? {
        assert q != p && Names(s.mem, root, q, t);
      }
    }
  }

  /** A data frame outside the pool is not touched by `map_to`. */
  lemma MappedData(s: Phys, s': Phys, root: Frame, p: Path, frame: Frame, flags: Flags, x: Frame)
    requires Sound(s, root) && Mapped(s, s', root, p, frame, flags)
    requires x !in s.pool && x in s.mem && s.mem[x].Bytes?
    ensures Same(s.mem, s'.mem, x)
  {
    hide Walk, EntryAt, PathEffect, Placed;
    NotOnPath(s.mem, root, p, x);
    assert !Taken(s, s', x);
  }

  lemma NotOnPath(mem: Memory, root: Frame, p: Path, x: Frame)
    requires TableTree(mem, root) && |p| <= 4 && !IsTable(mem, x)
    ensures !OnPath(mem, root, p, x)
  {
    forall k | 0 <= k < |p| && Walk(mem, root, p[..k]).Some?
      ensures Walk(mem, root, p[..k]).value != x
    {
      assert Names(mem, root, p[..k], Walk(mem, root, p[..k]).value);
    }
  }

  /** Popping one frame first and filling it last does not change which slots were linked. */
  lemma PageSlots(s: Phys, s1: Phys, s2: Phys, s3: Phys, root: Frame, p: Path, flags: Flags)
    requires |p| == 4 && s1.mem == s.mem && s3.pool == s2.pool
    requires forall x :: x in s1.pool ==> x in s.pool
    requires ViewAgrees(s2.mem, s3.mem, root)
    requires forall q: Path :: 1 <= |q| <= 4 && q != p ==> PathEffect(s1, s2, root, p[..3], q, flags)
    ensures forall q: Path :: 1 <= |q| <= 4 && q != p ==> PathEffect(s, s3, root, p[..3], q, flags)
  {
    hide Walk, EntryAt;
    forall q: Path | 1 <= |q| <= 4 && q != p
      ensures PathEffect(s, s3, root, p[..3], q, flags)
    {
      assert PathEffect(s1, s2, root, p[..3], q, flags);
      assert EntryAt(s3.mem, root, q) == EntryAt(s2.mem, root, q);
    }
  }

  lemma PopOne(s: Phys, s1: Phys, s2: Phys, n: nat)
    requires s.pool != [] && s1.pool == s.pool[1..] && NoDup(s.pool) && Popped(s1, s2, n)
    ensures Popped(s, s2, n + 1) && s.pool[0] !in s1.pool
    ensures forall x :: Taken(s, s2, x) <==> x == s.pool[0] || Taken(s1, s2, x)
  {
    assert Popped(s, s1, 1);
    PoppedTwice(s, s1, s2, 1, n);
    PoppedSubset(s1, s2, n);
    assert s.pool == [s.pool[0]] + s1.pool;
  }

  lemma PageConfined(s: Phys, s1: Phys, s2: Phys, s3: Phys, root: Frame, p: Path, d: Frame, data: seq<byte>)
    requires s1.mem == s.mem && s3.mem == s2.mem[d := Bytes(data)] && s3.pool == s2.pool
    requires Confined(s1, s2, root, p) && Taken(s, s3, d)
    requires forall x :: Taken(s, s2, x) <==> x == d || Taken(s1, s2, x)
    ensures Confined(s, s3, root, p)
  {
    hide OnPath, Walk;
    forall x | !Taken(s, s3, x) && !OnPath(s.mem, root, p, x)
      ensures Same(s.mem, s3.mem, x)
    {
      assert !Taken(s, s2, x);
      assert Same(s1.mem, s2.mem, x);
    }
  }

  /** Mapping and filling one page: the space stays a space, every frame that left the pool is now
      owned by it if the page is private, and by no space if the page lies in a shared slot. */
  lemma MapPageEffect(s: Phys, root: Frame, off: Index, b: Range, p: Path, data: seq<byte>, flags: Flags)
    requires Space(s, root, off, b) && |p| == 4 && !b.Contains(AddrOf(p))
    requires MapPage(s, root, p, data, flags).1.Done?
    ensures var s' := MapPage(s, root, p, data, flags).0;
            && Space(s', root, off, b) && PageMapped(s, s', root, p, data, flags)
            && (forall x :: Owned(s'.mem, root, off, b, x) <==>
                  Owned(s.mem, root, off, b, x) || (Private(off, p) && Taken(s, s', x)))
  {
    hide Walk, EntryAt, MapTo, AddrOf, PathEffect, Confined, Placed, TableTree, OwnedTree, Owned;
    var d := s.pool[0];
    var s1 := s.(pool := s.pool[1..]);
    var s2 := MapTo(s1, root, p, d, flags).0;
    var s3 := s2.(mem := s2.mem[d := Bytes(data)]);
    SpacePopped(s, root, off, b);
    MapToEffect(s1, root, p, d, flags);
    PopOne(s, s1, s2, 3);
    FreshNotNamed(s, root, d);
    MappedNames(s1, s2, root, p, d, flags, d);
    DataWritten(s2, root, d, data);
    PageSpace(s, s1, s2, s3, root, off, b, p, d, flags);
    PageSlots(s, s1, s2, s3, root, p, flags);
    assert Taken(s, s3, d);
    PageConfined(s, s1, s2, s3, root, p, d, data);
    EntryAgree(s2.mem, s3.mem, root, p);
    forall x
      ensures Owned(s3.mem, root, off, b, x) <==> Owned(s.mem, root, off, b, x) || (Private(off, p) && Taken(s, s3, x))
    {
      MappedOwned(s1, s2, root, off, b, p, d, flags, x);
      OwnedAgree(s2.mem, s3.mem, root, off, b, x);
      assert Taken(s, s3, x) <==> Taken(s, s2, x);
    }
  }

  lemma EntryAgree(mem: Memory, mem': Memory, root: Frame, p: Path)
    requires ViewAgrees(mem, mem', root) && 1 <= |p| <= 4
    ensures EntryAt(mem', root, p) == EntryAt(mem, root, p)
  {
  }

  lemma OwnedAgree(mem: Memory, mem': Memory, root: Frame, off: Index, b: Range, x: Frame)
    requires ViewAgrees(mem, mem', root)
    ensures Owned(mem', root, off, b, x) <==> Owned(mem, root, off, b, x)
  {
    hide Walk, EntryAt, AddrOf;
    forall q
      ensures Owns(mem', root, off, b, q, x) <==> Owns(mem, root, off, b, q, x)
    {
      OwnsAgree(mem, mem', root, off, b, q, x);
    }
  }

  lemma FreshNotNamed(s: Phys, root: Frame, d: Frame)
    requires Sound(s, root) && d in s.pool
    ensures forall q, t :: Names(s.mem, root, q, t) ==> t != d
  {
  }

  lemma PageSpace(s: Phys, s1: Phys, s2: Phys, s3: Phys, root: Frame, off: Index, b: Range, p: Path, d: Frame,
                  flags: Flags)
    requires Space(s, root, off, b) && Space(s1, root, off, b) && s1.mem == s.mem
    requires Mapped(s1, s2, root, p, d, flags) && d in s.pool && d !in s1.pool
    requires d in s3.mem && s3.mem[d].Bytes? && (forall x :: x != d ==> Same(s2.mem, s3.mem, x))
    requires Sound(s3, root) && ViewAgrees(s2.mem, s3.mem, root) && s3.pool == s2.pool
    ensures Space(s3, root, off, b)
  {
    hide Walk, EntryAt, AddrOf, PathEffect, Confined, Placed, TableTree, ViewAgrees;
    forall q, x | Owns(s1.mem, root, off, b, q, x) && |q| == 4
      ensures x in s3.mem && s3.mem[x].Bytes?
    {
      assert Owns(s.mem, root, off, b, q, x);
      MappedData(s1, s2, root, p, d, flags, x);
      assert Same(s2.mem, s3.mem, x);
    }
    MappedSpace(s1, s2, s3, root, off, b, p, d, flags);
  }

  // ---------------------------------------------------------------- a new address space

  /** `new_address_space`: a zeroed L4 table with the two shared slots cloned from the active one. */
  function NewSpace(s: Phys, active: Frame, off: Index): (Phys, Option<Frame>) {
    if s.pool == [] then (s, None)
    else
      var r := s.pool[0];
      var kernel := TableAt(s.mem, active);
      var table: Entries := EmptyTable()[0 := kernel[0]][off := kernel[off]];
      (Phys(s.mem[r := Table(table)], s.pool[1..]), Some(r))
  }

  /** The shared slots of `root` are those of `kernel`. */
  ghost predicate SharesWith(mem: Memory, root: Frame, kernel: Frame, off: Index) {
    TableAt(mem, root)[0] == TableAt(mem, kernel)[0] && TableAt(mem, root)[off] == TableAt(mem, kernel)[off]
  }

  /** Below a shared slot both tables show the same things. */
  lemma {:induction false} SharedView(mem: Memory, root: Frame, kernel: Frame, off: Index, q: Path)
    requires SharesWith(mem, root, kernel, off) && q != [] && !Private(off, q)
    ensures Walk(mem, root, q) == Walk(mem, kernel, q)
    ensures EntryAt(mem, root, q) == EntryAt(mem, kernel, q)
    decreases |q|
  {
    var q1 := q[..|q| - 1];
    if q1 != [] {
      SharedView(mem, root, kernel, off, q1);
    }
  }

  ghost predicate Blank(mem: Memory, root: Frame, off: Index, q: Path) {
    1 <= |q| <= 4 && Private(off, q) ==> EntryAt(mem, root, q) == UNUSED
  }

  lemma {:induction false} BlankWalk(mem: Memory, root: Frame, off: Index, q: Path)
    requires forall i: Index :: !Shared(off, i) ==> TableAt(mem, root)[i] == UNUSED
    requires q != [] && Private(off, q)
    ensures Walk(mem, root, q).None? && EntryAt(mem, root, q) == UNUSED
    decreases |q|
  {
    var q1 := q[..|q| - 1];
    if q1 != [] {
      BlankWalk(mem, root, off, q1);
    }
  }

  /** The new space owns its L4 table and nothing else, and shows nothing outside the shared slots. */
  lemma NewSpaceEffect(s: Phys, active: Frame, off: Index)
    requires Sound(s, active) && s.pool != []
    ensures var (s', r) := NewSpace(s, active, off);
            && r == Some(s.pool[0]) && s'.pool == s.pool[1..]
            && Space(s', r.value, off, Range(0, 0)) && Sound(s', active)
            && (forall x :: Owned(s'.mem, r.value, off, Range(0, 0), x) <==> x == r.value)
            && (forall q :: Blank(s'.mem, r.value, off, q))
            && SharesWith(s'.mem, r.value, active, off) && ViewAgrees(s.mem, s'.mem, active)
            && (forall i: Index :: TableAt(s'.mem, r.value)[i] ==
                  if i == 0 || i == off then TableAt(s.mem, active)[i] else UNUSED)
            && (forall x :: x != r.value ==> Same(s.mem, s'.mem, x))
  {
    var (s', o) := NewSpace(s, active, off);
    var r := o.value;
    var b := Range(0, 0);
    NewSpaceKernel(s, s', active, r);
    var kernel := TableAt(s.mem, active);
    assert TableAt(s'.mem, r) == EmptyTable()[0 := kernel[0]][off := kernel[off]];
    assert Names(s.mem, active, [], active);
    assert TableAt(s'.mem, active) == kernel;
    forall q
      ensures Blank(s'.mem, r, off, q)
    {
      if 1 <= |q| <= 4 && Private(off, q) {
        BlankWalk(s'.mem, r, off, q);
      }
    }
    BlankSpace(s', r, active, off);
  }

  lemma NewSpaceKernel(s: Phys, s': Phys, active: Frame, r: Frame)
    requires Sound(s, active) && s.pool != [] && r == s.pool[0]
    requires s'.pool == s.pool[1..] && (forall x :: x != r ==> Same(s.mem, s'.mem, x))
    ensures Sound(s', active) && (forall q, t :: Names(s'.mem, active, q, t) ==> t != r) && r !in s'.pool
    ensures ViewAgrees(s.mem, s'.mem, active)
  {
    hide Walk, EntryAt;
    forall q, t | Names(s.mem, active, q, t)
      ensures IsTable(s'.mem, t) && TableAt(s'.mem, t) == TableAt(s.mem, t) && t !in s'.pool && t != r
    {
      assert IsTable(s.mem, t) && t !in s.pool;
      assert Same(s.mem, s'.mem, t);
    }
    SoundAgree(s, s', active);
    forall q, t | Names(s'.mem, active, q, t)
      ensures t != r
    {
      assert Names(s.mem, active, q, t);
    }
  }

  lemma BlankSpace(s: Phys, r: Frame, active: Frame, off: Index)
    requires Sound(s, active) && (forall q, t :: Names(s.mem, active, q, t) ==> t != r)
    requires IsTable(s.mem, r) && r !in s.pool
    requires SharesWith(s.mem, r, active, off)
    requires forall i: Index :: !Shared(off, i) ==> TableAt(s.mem, r)[i] == UNUSED
    ensures Space(s, r, off, Range(0, 0))
    ensures forall x :: Owned(s.mem, r, off, Range(0, 0), x) <==> x == r
  {
    forall q: Path | 1 <= |q| <= 4
      ensures if Private(off, q) then Walk(s.mem, r, q).None? && EntryAt(s.mem, r, q) == UNUSED
              else Walk(s.mem, r, q) == Walk(s.mem, active, q) && EntryAt(s.mem, r, q) == EntryAt(s.mem, active, q)
    {
      if Private(off, q) {
        BlankWalk(s.mem, r, off, q);
      } else {
        SharedView(s.mem, r, active, off, q);
      }
    }
    assert Walk(s.mem, r, []) == Some(r);
    hide Walk, EntryAt, AddrOf;
    forall q, t | Names(s.mem, r, q, t)
      ensures if q == [] then t == r else Names(s.mem, active, q, t)
    {
    }
    forall q
      ensures CleanSlot(s.mem, r, q)
    {
      assert CleanSlot(s.mem, active, q);
    }
    forall q, x | Owns(s.mem, r, off, Range(0, 0), q, x)
      ensures q == [] && x == r
    {
    }
    assert Owns(s.mem, r, off, Range(0, 0), [], r);
  }

  /** The tables on a private path are owned. */
  lemma OnPathOwned(mem: Memory, root: Frame, off: Index, b: Range, p: Path, x: Frame)
    requires |p| == 4 && Private(off, p)
    ensures OnPath(mem, root, p, x) ==> Owned(mem, root, off, b, x)
  {
    if OnPath(mem, root, p, x) {
      var k :| 0 <= k < |p| && Walk(mem, root, p[..k]) == Some(x);
      assert Owns(mem, root, off, b, p[..k], x);
    }
  }
}
