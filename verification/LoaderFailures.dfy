/** How `elf::load` fails: exactly when it panics, and the refusals that lose frames, with files for both. */
module LoaderFailures {
  import opened Basics
  import opened Frames
  import opened Paging
  import opened Mapping
  import opened AddressSpace
  import opened Ownership
  import opened Elf
  import opened Loader
  import opened LoaderTheorems
  import Bits
  import Format

  // ---------------------------------------------------------------- mapping succeeds

  ghost predicate NoHugeOn(mem: Memory, root: Frame, p: Path) {
    forall k :: 1 <= k <= |p| ==> !EntryAt(mem, root, p[..k]).huge
  }

  /** A descent fails only for want of frames or at a huge page. */
  lemma {:induction false} DescendDone(s: Phys, root: Frame, p: Path, flags: Flags)
    requires Sound(s, root) && |p| <= 3 && |s.pool| >= |p| && NoHugeOn(s.mem, root, p)
    ensures Descend(s, root, p, flags).1.Done?
    decreases |p|
  {
    hide Walk, EntryAt, TableTree, NoHugeOn, Grown, NextTable;
    if p != [] {
      var p1, i := p[..|p| - 1], p[|p| - 1];
      PrefixNoHuge(s.mem, root, p, |p| - 1);
      DescendDone(s, root, p1, flags);
      DescendEffect(s, root, p1, flags);
      var (s1, o1) := Descend(s, root, p1, flags);
      LastDescends(s, s1, root, p, o1.table, flags);
    }
  }

  lemma PrefixNoHuge(mem: Memory, root: Frame, p: Path, n: nat)
    requires NoHugeOn(mem, root, p) && n <= |p|
    ensures NoHugeOn(mem, root, p[..n]) && (p != [] ==> !EntryAt(mem, root, p).huge)
  {
    hide EntryAt;
    forall k | 1 <= k <= n
      ensures p[..n][..k] == p[..k]
    {
    }
    assert p[..|p|] == p;
  }

  lemma LastDescends(s: Phys, s1: Phys, root: Frame, p: Path, t: Frame, flags: Flags)
    requires p != [] && |p| <= 3 && Grown(s, s1, root, p[..|p| - 1], flags) && Names(s1.mem, root, p[..|p| - 1], t)
    requires |s.pool| >= |p| && !EntryAt(s.mem, root, p).huge
    ensures NextTable(s1, t, p[|p| - 1], flags).1.Done?
  {
    var p1, i := p[..|p| - 1], p[|p| - 1];
    assert p == p1 + [i];
    WalkSnoc(s1.mem, root, p1, i);
    hide Walk, EntryAt, TableTree, Confined, Placed;
    assert PathEffect(s, s1, root, p1, p, flags);
  }

  lemma MapPageDone(s: Phys, root: Frame, p: Path, data: seq<byte>, flags: Flags)
    requires Sound(s, root) && |p| == 4 && |s.pool| >= 4 && NoHugeOn(s.mem, root, p)
    requires EntryAt(s.mem, root, p) == UNUSED
    ensures MapPage(s, root, p, data, flags).1.Done?
  {
    hide Walk, EntryAt, TableTree, Descend;
    var s1 := s.(pool := s.pool[1..]);
    var p1 := p[..3];
    assert p == p1 + [p[3]];
    PrefixNoHuge(s.mem, root, p, 3);
    hide NoHugeOn;
    DescendDone(s1, root, p1, flags);
    DescendEffect(s1, root, p1, flags);
    var (s2, o) := Descend(s1, root, p1, flags);
    assert PathEffect(s1, s2, root, p1, p, flags);
    WalkSnoc(s2.mem, root, p1, p[3]);
  }

  /** Nothing is in the way of mapping a page at `p`: no huge page above it, and its slot unused. */
  ghost predicate Free(mem: Memory, root: Frame, p: Path) {
    |p| == 4 && NoHugeOn(mem, root, p) && EntryAt(mem, root, p) == UNUSED
  }

  /** With frames enough, a page can be mapped exactly where nothing is in the way. */
  lemma MapPageWhen(s: Phys, root: Frame, off: Index, p: Path, data: seq<byte>, flags: Flags)
    requires Space(s, root, off, NOTHING) && |p| == 4 && |s.pool| >= 4
    ensures MapPage(s, root, p, data, flags).1.Done? <==> Free(s.mem, root, p)
  {
    hide Walk, EntryAt, MapPage, AddrOf, OwnedTree, NoHugeOn;
    if Free(s.mem, root, p) {
      MapPageDone(s, root, p, data, flags);
    } else if MapPage(s, root, p, data, flags).1.Done? {
      MapPageEffect(s, root, off, NOTHING, p, data, flags);
      MappedWasFree(s, MapPage(s, root, p, data, flags).0, root, p, data, flags);
    }
  }

  lemma {:induction false} MappedWasFree(s: Phys, s': Phys, root: Frame, p: Path, data: seq<byte>, flags: Flags)
    requires PageMapped(s, s', root, p, data, flags)
    ensures Free(s.mem, root, p) && !Free(s'.mem, root, p) && |s.pool| <= |s'.pool| + 4
  {
    WalkIsTarget(s'.mem, root, p);
    forall k | 1 <= k <= 4
      ensures !EntryAt(s.mem, root, p[..k]).huge
    {
      if k == 4 {
        assert p[..k] == p;
      } else {
        WalkPrefix(s'.mem, root, p, k);
        WalkIsTarget(s'.mem, root, p[..k]);
        hide Walk, EntryAt, Confined;
        assert PathEffect(s, s', root, p[..3], p[..k], flags);
      }
    }
  }

  /** Mapping a page puts nothing in the way of another one. */
  lemma FreeKept(s: Phys, s': Phys, root: Frame, p: Path, data: seq<byte>, flags: Flags, q: Path)
    requires PageMapped(s, s', root, p, data, flags) && |q| == 4 && q != p
    ensures Free(s'.mem, root, q) <==> Free(s.mem, root, q)
  {
    hide Walk, EntryAt, Confined;
    assert q[..4] == q;
    forall k | 1 <= k <= 4
      ensures EntryAt(s'.mem, root, q[..k]).huge == EntryAt(s.mem, root, q[..k]).huge
    {
      assert PathEffect(s, s', root, p[..3], q[..k], flags);
    }
    assert PathEffect(s, s', root, p[..3], q, flags);
  }

  ghost predicate DistinctPages(pages: seq<PageSpec>) {
    forall i, j :: 0 <= i < j < |pages| ==> pages[i].addr != pages[j].addr
  }

  ghost predicate AllFree(mem: Memory, root: Frame, pages: seq<PageSpec>) {
    forall i :: 0 <= i < |pages| ==> Free(mem, root, PagePath(pages[i]))
  }

  ghost predicate OnPages(pages: seq<PageSpec>, q: Path) {
    exists i :: 0 <= i < |pages| && PagePath(pages[i]) == q
  }

  /** A successful mapping took the free slots of its pages and no others. */
  ghost predicate TookSlots(s: Phys, s': Phys, root: Frame, pages: seq<PageSpec>) {
    forall q: Path :: |q| == 4 ==> (Free(s'.mem, root, q) <==> Free(s.mem, root, q) && !OnPages(pages, q))
  }

  /** With frames enough, pages can be mapped exactly when they differ and nothing is in the way of any. */
  lemma {:induction false} MapPagesWhen(s: Phys, root: Frame, off: Index, pages: seq<PageSpec>)
    requires Space(s, root, off, NOTHING) && GoodBelow(pages, LOW_LIMIT) && |s.pool| >= 4 * |pages|
    ensures MapPages(s, root, pages).1 <==> DistinctPages(pages) && AllFree(s.mem, root, pages)
    ensures var s' := MapPages(s, root, pages).0;
            MapPages(s, root, pages).1 ==>
              Space(s', root, off, NOTHING) && |s'.pool| >= |s.pool| - 4 * |pages| && TookSlots(s, s', root, pages)
    decreases |pages|
  {
    hide Space, MapPage, PathOf, Walk, EntryAt, Free, PageMapped, Owned;
    if pages != [] {
      var n := |pages| - 1;
      var page := pages[n];
      assert pages == pages[..n] + [page];
      MapPagesWhen(s, root, off, pages[..n]);
      var (s1, ok) := MapPages(s, root, pages[..n]);
      if ok {
        MapPageWhen(s1, root, off, PagePath(page), page.data, PageFlags(page));
        LastPage(s, s1, root, pages, n);
        if MapPage(s1, root, PagePath(page), page.data, PageFlags(page)).1.Done? {
          MapPageEffect(s1, root, off, NOTHING, PagePath(page), page.data, PageFlags(page));
          TookOneMore(s, s1, MapPages(s, root, pages).0, root, pages, n);
        }
      }
    }
  }

  lemma LastPage(s: Phys, s1: Phys, root: Frame, pages: seq<PageSpec>, n: nat)
    requires |pages| == n + 1 && TookSlots(s, s1, root, pages[..n]) && GoodBelow(pages, LOW_LIMIT)
    requires DistinctPages(pages[..n]) && AllFree(s.mem, root, pages[..n])
    ensures Free(s1.mem, root, PagePath(pages[n])) <==> DistinctPages(pages) && AllFree(s.mem, root, pages)
  {
    hide Free, PathOf;
    var q := PagePath(pages[n]);
    assert |q| == 4;
    forall i | 0 <= i < n
      ensures PagePath(pages[i]) == q <==> pages[i].addr == pages[n].addr
      ensures pages[..n][i] == pages[i]
    {
      assert pages[i] in pages && pages[n] in pages;
      if pages[i].addr != pages[n].addr {
        DistinctPaths(pages[i].addr, pages[n].addr);
      }
    }
  }

  lemma TookOneMore(s: Phys, s1: Phys, s2: Phys, root: Frame, pages: seq<PageSpec>, n: nat)
    requires |pages| == n + 1 && TookSlots(s, s1, root, pages[..n])
    requires PageMapped(s1, s2, root, PagePath(pages[n]), pages[n].data, PageFlags(pages[n]))
    ensures TookSlots(s, s2, root, pages) && |s1.pool| <= |s2.pool| + 4
  {
    hide Free, PathOf, PageMapped;
    var p := PagePath(pages[n]);
    MappedWasFree(s1, s2, root, p, pages[n].data, PageFlags(pages[n]));
    forall q: Path | |q| == 4
      ensures Free(s2.mem, root, q) <==> Free(s.mem, root, q) && !OnPages(pages, q)
    {
      assert OnPages(pages, q) <==> OnPages(pages[..n], q) || q == p;
      if q != p {
        FreeKept(s1, s2, root, p, pages[n].data, PageFlags(pages[n]), q);
      }
    }
  }

  /** In a new address space the only things in the way are those the active table shows in the shared slots. */
  lemma {:induction false} NewSpaceFree(s: Phys, active: Frame, off: Index, p: Path)
    requires Sound(s, active) && s.pool != [] && |p| == 4
    ensures var (s1, root) := NewSpace(s, active, off);
            Free(s1.mem, root.value, p) <==> Private(off, p) || Free(s.mem, active, p)
  {
    NewSpaceEffect(s, active, off);
    var (s1, root) := NewSpace(s, active, off);
    hide Walk, EntryAt, NewSpace, Sound, Owned, Space;
    assert p[..4] == p;
    forall k | 1 <= k <= 4
      ensures EntryAt(s1.mem, root.value, p[..k]) == if Private(off, p) then UNUSED else EntryAt(s.mem, active, p[..k])
    {
      assert Blank(s1.mem, root.value, off, p[..k]);
      if !Private(off, p) {
        SharedView(s1.mem, root.value, active, off, p[..k]);
      }
    }
  }

  // ---------------------------------------------------------------- when the loader panics

  /** The loader gets past program header `i`. */
  predicate Passes(bytes: seq<byte>, phoff: nat, phentsize: nat, i: nat) {
    match HeaderAt(bytes, phoff, phentsize, i)
    case None => false
    case Some(Skip) => true
    case Some(Load(_, vaddr, memSize, _)) =>
      !Refused(vaddr, memSize) && !Crosses(vaddr, memSize) && vaddr + memSize < U64_LIMIT
  }

  /** Program header `i` is loadable and crosses the end of the lower half. */
  predicate CrossesAt(bytes: seq<byte>, phoff: nat, phentsize: nat, i: nat) {
    match HeaderAt(bytes, phoff, phentsize, i)
    case Some(Load(_, vaddr, memSize, _)) => Crosses(vaddr, memSize)
    case _ => false
  }

  /** The first program header from `i` on that the loader does not get past crosses the end of the lower half. */
  ghost predicate FirstCrosses(bytes: seq<byte>, phoff: nat, phentsize: nat, phnum: nat, i: nat) {
    exists j ::
      && i <= j < phnum && CrossesAt(bytes, phoff, phentsize, j)
      && forall k :: i <= k < j ==> Passes(bytes, phoff, phentsize, k)
  }

  lemma {:induction false} ScanCrashes(bytes: seq<byte>, phoff: nat, phentsize: nat, phnum: nat, i: nat, highest: nat)
    ensures ScanPlan(bytes, phoff, phentsize, phnum, i, highest).1.ScanCrashed? <==>
              FirstCrosses(bytes, phoff, phentsize, phnum, i)
    decreases phnum - i
  {
    hide ScanPlan, HeaderRound, HeaderAt, Passes, CrossesAt, FirstCrosses;
    if i < phnum {
      RoundCrashes(bytes, phoff, phentsize, i, highest);
      ScanOne(bytes, phoff, phentsize, phnum, i, highest);
      var r := HeaderRound(bytes, phoff, phentsize, i, highest);
      if r.Next? {
        ScanCrashes(bytes, phoff, phentsize, phnum, i + 1, r.highest);
        FirstCrossesNext(bytes, phoff, phentsize, phnum, i);
      } else {
        FirstCrossesHere(bytes, phoff, phentsize, phnum, i);
      }
    } else {
      ScanNone(bytes, phoff, phentsize, phnum, i, highest);
    }
  }

  lemma {:induction false} ScanOne(bytes: seq<byte>, phoff: nat, phentsize: nat, phnum: nat, i: nat, highest: nat)
    requires i < phnum
    ensures var r := HeaderRound(bytes, phoff, phentsize, i, highest);
            ScanPlan(bytes, phoff, phentsize, phnum, i, highest).1 ==
              if r.Stop? then r.end else ScanPlan(bytes, phoff, phentsize, phnum, i + 1, r.highest).1
  {
    hide HeaderRound;
  }

  lemma {:induction false} ScanNone(bytes: seq<byte>, phoff: nat, phentsize: nat, phnum: nat, i: nat, highest: nat)
    requires i >= phnum
    ensures !ScanPlan(bytes, phoff, phentsize, phnum, i, highest).1.ScanCrashed?
    ensures !FirstCrosses(bytes, phoff, phentsize, phnum, i)
  {
  }

  lemma FirstCrossesHere(bytes: seq<byte>, phoff: nat, phentsize: nat, phnum: nat, i: nat)
    requires i < phnum && !Passes(bytes, phoff, phentsize, i)
    ensures FirstCrosses(bytes, phoff, phentsize, phnum, i) <==> CrossesAt(bytes, phoff, phentsize, i)
  {
    hide Passes, CrossesAt;
  }

  lemma RoundCrashes(bytes: seq<byte>, phoff: nat, phentsize: nat, i: nat, highest: nat)
    ensures var r := HeaderRound(bytes, phoff, phentsize, i, highest);
            && (r.Next? <==> Passes(bytes, phoff, phentsize, i))
            && (r.Stop? ==> (r.end.ScanCrashed? <==> CrossesAt(bytes, phoff, phentsize, i)))
            && (r.Next? ==> !CrossesAt(bytes, phoff, phentsize, i))
  {
    hide HeaderAt, SegmentPlan;
  }

  lemma FirstCrossesNext(bytes: seq<byte>, phoff: nat, phentsize: nat, phnum: nat, i: nat)
    requires i < phnum && Passes(bytes, phoff, phentsize, i) && !CrossesAt(bytes, phoff, phentsize, i)
    ensures FirstCrosses(bytes, phoff, phentsize, phnum, i) <==> FirstCrosses(bytes, phoff, phentsize, phnum, i + 1)
  {
    hide Passes, CrossesAt;
    if j :| && i + 1 <= j < phnum && CrossesAt(bytes, phoff, phentsize, j)
            && forall k :: i + 1 <= k < j ==> Passes(bytes, phoff, phentsize, k) {
      assert FirstCrosses(bytes, phoff, phentsize, phnum, i);
    }
  }

  /** The stack and argument pages never cross. */
  lemma TailNeverPanics(entry: nat, highest: nat, args: seq<byte>)
    ensures !TailPlan(entry, highest, args).1.Panic?
    ensures GoodBelow(TailPlan(entry, highest, args).0, LOW_LIMIT)
  {
    hide AlignUp, SegmentPlan, TryNew, ArgsPlan;
    AlignUpIs(highest);
    if AlignUp(highest).Some? {
      var stackBottom := AlignUp(highest).value + PAGE_SIZE;
      PageNeverCrosses([], stackBottom, true);
      ArgsNeverPanic(entry, stackBottom, args);
    }
  }

  lemma ArgsNeverPanic(entry: nat, stackBottom: nat, args: seq<byte>)
    requires stackBottom % PAGE_SIZE == 0
    ensures !ArgsPlan(entry, stackBottom, args).1.Panic?
    ensures GoodBelow(ArgsPlan(entry, stackBottom, args).0, LOW_LIMIT)
  {
    hide SegmentPlan, TryNew;
    PageNeverCrosses(args, stackBottom + PAGE_SIZE, false);
  }

  lemma PageNeverCrosses(file: seq<byte>, vaddr: nat, writable: bool)
    requires vaddr % PAGE_SIZE == 0
    ensures !SegmentPlan(file, vaddr, PAGE_SIZE, writable).Crash?
    ensures SegmentPlan(file, vaddr, PAGE_SIZE, writable).Pages? ==>
              GoodBelow(SegmentPlan(file, vaddr, PAGE_SIZE, writable).pages, LOW_LIMIT)
  {
    assert LOW_LIMIT % PAGE_SIZE == 0;
    if SegmentPlan(file, vaddr, PAGE_SIZE, writable).Pages? {
      SegmentGood(file, vaddr, PAGE_SIZE, writable);
    }
  }

  /** A file whose program headers are read and one of which crosses the end of the lower half before any
      header stops the loader. */
  ghost predicate CrossingFile(bytes: seq<byte>) {
    && ReadUint(bytes, 0, 24, 8).Some? && ReadUint(bytes, 0, 32, 8).Some? && ReadUint(bytes, 0, 54, 2).Some?
         && ReadUint(bytes, 0, 56, 2).Some?
    && FirstCrosses(bytes, ReadUint(bytes, 0, 32, 8).value, ReadUint(bytes, 0, 54, 2).value,
                    ReadUint(bytes, 0, 56, 2).value, 0)
  }

  lemma PlanPanics(bytes: seq<byte>, args: seq<byte>)
    ensures Plan(bytes, args).1.Panic? <==> CrossingFile(bytes)
    ensures GoodBelow(Plan(bytes, args).0, LOW_LIMIT)
  {
    var entry, phoff := ReadUint(bytes, 0, 24, 8), ReadUint(bytes, 0, 32, 8);
    var phentsize, phnum := ReadUint(bytes, 0, 54, 2), ReadUint(bytes, 0, 56, 2);
    hide ReadUint, ScanPlan, TailPlan, FirstCrosses;
    if entry.Some? && phoff.Some? && phentsize.Some? && phnum.Some? {
      ScanCrashes(bytes, phoff.value, phentsize.value, phnum.value, 0, 0);
      ScanGood(bytes, phoff.value, phentsize.value, phnum.value, 0, 0);
      var (pages, end) := ScanPlan(bytes, phoff.value, phentsize.value, phnum.value, 0, 0);
      if end.Scanned? {
        TailNeverPanics(entry.value, end.highest, args);
        GoodBelowConcat(pages, TailPlan(entry.value, end.highest, args).0, LOW_LIMIT, LOW_LIMIT);
      }
    }
  }

  /** A page to be mapped lies in a shared slot, where the active table already maps it or covers it with a
      huge page. */
  ghost predicate Clashes(mem: Memory, active: Frame, off: Index, pages: seq<PageSpec>) {
    exists i :: 0 <= i < |pages| && !PrivatePage(off, pages[i]) && !Free(mem, active, PagePath(pages[i]))
  }

  /** With frames enough, the loader panics exactly when two of the pages it is to map coincide, a program
      header crosses the end of the lower half, or a page clashes with what a shared slot already maps. */
  lemma LoadPanicsWhen(s: Phys, s': Phys, active: Frame, off: Index, bytes: seq<byte>, args: seq<byte>, r: LoadOutcome)
    requires Sound(s, active) && |s.pool| >= 1 + 4 * |Plan(bytes, args).0|
    requires LoadStep(s, s', active, off, bytes, args, r)
    ensures var pages := Plan(bytes, args).0;
            r == Panicked <==>
              HeaderOk(bytes) && (!DistinctPages(pages) || CrossingFile(bytes) || Clashes(s.mem, active, off, pages))
  {
    hide Plan, HeaderOk, MapPages, CrossingFile, Clashes, DistinctPages, NewSpace, Sound, Returned;
    if HeaderOk(bytes) {
      PanicCauses(s, active, off, bytes, args);
    }
  }

  lemma PanicCauses(s: Phys, active: Frame, off: Index, bytes: seq<byte>, args: seq<byte>)
    requires Sound(s, active) && |s.pool| >= 1 + 4 * |Plan(bytes, args).0|
    ensures var (pages, verdict) := Plan(bytes, args);
            var (s1, root) := NewSpace(s, active, off);
            && root.Some?
            && (!MapPages(s1, root.value, pages).1 || verdict.Panic? <==>
                  !DistinctPages(pages) || CrossingFile(bytes) || Clashes(s.mem, active, off, pages))
  {
    PlanPanics(bytes, args);
    hide Plan, MapPages, CrossingFile, DistinctPages, Space, Owned, Free, PathOf;
    var pages := Plan(bytes, args).0;
    NewSpaceEffect(s, active, off);
    var (s1, root) := NewSpace(s, active, off);
    hide NewSpace, Sound;
    MapPagesWhen(s1, root.value, off, pages);
    forall i | 0 <= i < |pages|
      ensures Free(s1.mem, root.value, PagePath(pages[i])) <==>
                PrivatePage(off, pages[i]) || Free(s.mem, active, PagePath(pages[i]))
    {
      NewSpaceFree(s, active, off, PagePath(pages[i]));
    }
  }

  // ---------------------------------------------------------------- a refusal that loses a frame

  /** A header with no program headers and a non-canonical entry point: the loader maps a stack at
      address 0x1000, in the shared low slot, before it looks at the entry point and refuses. */
  function NoSegmentsBadEntry(): (f: seq<byte>)
    ensures |f| == 64 && forall i :: 0 <= i < 64 ==> f[i] == HeaderByte(i)
  {
    seq(64, i requires 0 <= i < 64 => HeaderByte(i))
  }

  function HeaderByte(i: nat): byte {
    if i == 0 then 0x7f else if i == 1 then 0x45 else if i == 2 then 0x4c else if i == 3 then 0x46
    else if i == 4 then 2 else if i == 5 then 1 else if i == 16 then 2 else if i == 18 then 0x3e
    else if i == 31 then 0x80 else 0
  }

  lemma {:induction false} LittleZeros(s: seq<byte>)
    requires forall i :: 0 <= i < |s| ==> s[i] == 0
    ensures LittleEndian(s) == 0
  {
    if s != [] {
      LittleZeros(s[1..]);
    }
  }

  lemma Field16(at: nat, low: byte)
    requires at <= 62 && HeaderByte(at) == low && HeaderByte(at + 1) == 0
    ensures ReadUint(NoSegmentsBadEntry(), 0, at, 2) == Some(low)
  {
    var f := NoSegmentsBadEntry()[at..at + 2];
    assert f[0] == low && f[1..] == [0];
    LittleZeros(f[1..]);
  }

  lemma FieldZero64(at: nat)
    requires at <= 56 && forall i :: at <= i < at + 8 ==> HeaderByte(i) == 0
    ensures ReadUint(NoSegmentsBadEntry(), 0, at, 8) == Some(0)
  {
    LittleZeros(NoSegmentsBadEntry()[at..at + 8]);
  }

  /** A number whose top byte is set exceeds every lower-half address and misses the upper half. */
  lemma {:induction false} LittleTop(s: seq<byte>, n: nat)
    requires |s| == n + 1 && (forall i :: 0 <= i < n ==> s[i] == 0)
    ensures LittleEndian(s) == Bits.Pow2(8 * n) * s[n]
  {
    if n == 0 {
      assert s[1..] == [];
    } else {
      hide Bits.Pow2;
      LittleTop(s[1..], n - 1);
      Bits.Pow2Add(8, 8 * (n - 1));
      Bits.Pow2Values();
      assert 8 + 8 * (n - 1) == 8 * n;
      Regroup(256, Bits.Pow2(8 * (n - 1)), s[n]);
    }
  }

  lemma Regroup(a: nat, b: nat, c: nat)
    ensures a * (b * c) == (a * b) * c
  {
  }

  lemma EntryField()
    ensures ReadUint(NoSegmentsBadEntry(), 0, 24, 8) == Some(0x8000_0000_0000_0000)
  {
    hide Bits.Pow2, LittleEndian;
    var f := NoSegmentsBadEntry()[24..32];
    assert f[7] == 0x80;
    LittleTop(f, 7);
    Bits.Pow2Values();
  }

  lemma NoSegmentsHeader()
    ensures var f := NoSegmentsBadEntry();
            && HeaderOk(f)
            && ReadUint(f, 0, 24, 8) == Some(0x8000_0000_0000_0000)
            && ReadUint(f, 0, 32, 8) == Some(0) && ReadUint(f, 0, 54, 2) == Some(0) && ReadUint(f, 0, 56, 2) == Some(0)
  {
    var f := NoSegmentsBadEntry();
    Field16(16, 2);
    Field16(18, 0x3e);
    Field16(54, 0);
    Field16(56, 0);
    FieldZero64(32);
    EntryField();
    hide ReadUint;
    assert f[0..4] == [0x7f, 0x45, 0x4c, 0x46];
  }

  /** Refusing this file takes at least one frame out of circulation for good. */
  lemma RefusedLoadCanLoseFrames(s: Phys, s': Phys, active: Frame, off: Index)
    requires Sound(s, active) && LoadStep(s, s', active, off, NoSegmentsBadEntry(), [], NotLoaded)
    ensures !(forall x :: x in s'.pool <==> x in s.pool)
  {
    hide NoSegmentsBadEntry, HeaderOk, LoadStep, Sound, Plan, PathOf;
    NoSegmentsHeader();
    var f := NoSegmentsBadEntry();
    NoSegmentsPlan();
    LowSlot(off);
    assert !PrivatePage(off, Plan(f, []).0[0]);
    RefusedLoadReturnsFrames(s, s', active, off, f, []);
  }

  lemma NoSegmentsPlan()
    ensures Plan(NoSegmentsBadEntry(), []).0 == [PageSpec(0x1000, PageData([], 0), true)]
  {
    hide ReadUint, NoSegmentsBadEntry, AlignUp, PageData, SegmentPlan;
    NoSegmentsHeader();
    AlignUpIs(0);
    ZeroAligned(AlignUp(0).value);
    FirstPage();
  }

  lemma ZeroAligned(a: nat)
    requires a % PAGE_SIZE == 0 && a < PAGE_SIZE
    ensures a == 0
  {
  }

  lemma FirstPage()
    ensures SegmentPlan([], 0x1000, PAGE_SIZE, true) == Pages([PageSpec(0x1000, PageData([], 0), true)])
  {
    hide PageData;
    OnePage([], 0x1000, true);
  }

  lemma LowSlot(off: Index)
    ensures !Private(off, PathOf(0x1000))
  {
    assert PathOf(0x1000)[0] == 0;
  }

  // ---------------------------------------------------------------- the losing refusal happens

  /** Below a table without entries there is nothing. */
  lemma {:induction false} EmptyRoot(mem: Memory, root: Frame, q: Path)
    requires TableAt(mem, root) == EmptyTable() && q != []
    ensures Walk(mem, root, q).None? && EntryAt(mem, root, q) == UNUSED
    decreases |q|
  {
    var q1 := q[..|q| - 1];
    if q1 != [] {
      EmptyRoot(mem, root, q1);
    }
  }

  /** A machine whose kernel L4 table, in frame 0, is empty, with five available frames. */
  function SmallMachine(): Phys {
    Phys(map[0 := Table(EmptyTable())], [1, 2, 3, 4, 5])
  }

  lemma SmallMachineSound()
    ensures Sound(SmallMachine(), 0)
  {
    var s := SmallMachine();
    assert TableAt(s.mem, 0) == EmptyTable();
    forall q: Path | q != []
      ensures Walk(s.mem, 0, q).None? && EntryAt(s.mem, 0, q) == UNUSED
    {
      EmptyRoot(s.mem, 0, q);
    }
    hide Walk, EntryAt;
    assert Walk(s.mem, 0, []) == Some(0) by {
      RootWalk(s.mem);
    }
    forall q, t | Names(s.mem, 0, q, t)
      ensures q == [] && t == 0
    {
    }
    forall q
      ensures CleanSlot(s.mem, 0, q)
    {
    }
  }

  lemma {:induction false} RootWalk(mem: Memory)
    ensures Walk(mem, 0, []) == Some(0)
  {
  }

  /** On this machine the stack page of the file is mapped, in the shared low slot. */
  lemma SmallMachineMaps(off: Index)
    ensures var (s1, root) := NewSpace(SmallMachine(), 0, off);
            && root == Some(1)
            && MapPage(s1, 1, PathOf(0x1000), PageData([], 0), Flags(true, true)).1.Done?
            && var s2 := MapPage(s1, 1, PathOf(0x1000), PageData([], 0), Flags(true, true)).0;
            forall x :: Owned(s2.mem, 1, off, NOTHING, x) <==> x == 1
  {
    SmallMachineSound();
    var s := SmallMachine();
    var p := PathOf(0x1000);
    NewSpaceEffect(s, 0, off);
    NewSpaceFree(s, 0, off, p);
    LowSlot(off);
    SmallMachineFree(p);
    hide PathOf, PageData, AddrOf, Walk, EntryAt, MapPage, NewSpace, Owned, Sound, OwnedTree, Free, SmallMachine,
         ViewAgrees;
    assert s.pool == [1, 2, 3, 4, 5];
    var s1 := NewSpace(s, 0, off).0;
    MapPageWhen(s1, 1, off, p, PageData([], 0), Flags(true, true));
    MapPageEffect(s1, 1, off, NOTHING, p, PageData([], 0), Flags(true, true));
  }

  lemma SmallMachineFree(p: Path)
    requires |p| == 4
    ensures Free(SmallMachine().mem, 0, p) && SmallMachine().pool == [1, 2, 3, 4, 5]
  {
    var mem := SmallMachine().mem;
    assert TableAt(mem, 0) == EmptyTable();
    forall k | 1 <= k <= 4
      ensures EntryAt(mem, 0, p[..k]) == UNUSED
    {
      EmptyRoot(mem, 0, p[..k]);
    }
    assert p[..4] == p;
  }

  /** The file is refused on this machine, and frames are lost. */
  lemma RefusedLoadLosesFrames(off: Index) returns (s': Phys)
    ensures Sound(SmallMachine(), 0) && LoadStep(SmallMachine(), s', 0, off, NoSegmentsBadEntry(), [], NotLoaded)
    ensures !(forall x :: x in s'.pool <==> x in SmallMachine().pool)
  {
    SmallMachineSound();
    SmallMachineMaps(off);
    NoSegmentsHeader();
    NoSegmentsPlan();
    NoSegmentsRefused();
    hide NoSegmentsBadEntry, HeaderOk, Sound, Plan, PathOf, PageData, MapPage, NewSpace, Owned;
    var s := SmallMachine();
    var (s1, root) := NewSpace(s, 0, off);
    var pages := [PageSpec(0x1000, PageData([], 0), true)];
    OnlyPage(s1, 1, pages[0]);
    var s2 := MapPages(s1, 1, pages).0;
    s' := Phys(s2.mem, [1] + s2.pool);
    assert Reversed([1]) == [1];
    assert IsFreedList(s2.mem, 1, off, NOTHING, [1]);
    assert Returned(s2, s'.pool, 1, off, NOTHING);
    hide MapPages, Returned;
    RefusedLoadCanLoseFrames(s, s', 0, off);
  }

  lemma {:induction false} OnlyPage(s: Phys, root: Frame, page: PageSpec)
    ensures MapPages(s, root, [page]) ==
            var (s', o) := MapPage(s, root, PagePath(page), page.data, PageFlags(page)); (s', o.Done?)
  {
    hide MapPage, PathOf;
    assert [page][..0] == [];
    assert MapPages(s, root, []) == (s, true);
  }

  lemma NoSegmentsRefused()
    ensures Plan(NoSegmentsBadEntry(), []).1 == Refuse
  {
    hide ReadUint, NoSegmentsBadEntry, AlignUp, PageData, SegmentPlan;
    NoSegmentsHeader();
    AlignUpIs(0);
    ZeroAligned(AlignUp(0).value);
    FirstPage();
  }

  // ---------------------------------------------------------------- a file that makes the loader panic

  const OVERLAP_ADDR: nat := 0x80_0000_0000

  /** One page at the start of L4 slot 1. */
  function OverlapSegment(): Format.ProgramHeader {
    Format.ProgramHeader(PT_LOAD, 4, 0, OVERLAP_ADDR, OVERLAP_ADDR, 0, PAGE_SIZE, PAGE_SIZE)
  }

  function OverlapHeader(): (h: Format.FileHeader)
    ensures Format.FileFits(h)
  {
    Format.FileHeader([0x7f, 0x45, 0x4c, 0x46, 2, 1] + Zeros(10), ET_EXEC, EM_X86_64, 1, OVERLAP_ADDR, 64, 0, 0, 64,
                      56, 2, Zeros(6))
  }

  /** A well-formed executable with the same segment twice. */
  function OverlapFile(): seq<byte> {
    Format.Concat(Format.FileFields(OverlapHeader()))
      + (Format.Concat(Format.HeaderFields(OverlapSegment())) + Format.Concat(Format.HeaderFields(OverlapSegment())))
  }

  lemma OverlapHolds()
    ensures Format.Holds(OverlapFile(), 0, Format.FileFields(OverlapHeader()))
    ensures Format.Holds(OverlapFile(), 64, Format.HeaderFields(OverlapSegment()))
    ensures Format.Holds(OverlapFile(), 120, Format.HeaderFields(OverlapSegment()))
    ensures |OverlapFile()| == 176
  {
    hide Format.Concat, Format.FileFields, Format.HeaderFields, OverlapHeader, OverlapSegment;
    Format.FileLength(OverlapHeader());
    Format.HeaderLength(OverlapSegment());
    ThreeParts(Format.Concat(Format.FileFields(OverlapHeader())), Format.Concat(Format.HeaderFields(OverlapSegment())));
  }

  lemma ThreeParts(a: seq<byte>, b: seq<byte>)
    requires |a| == 64 && |b| == 56
    ensures var file := a + (b + b);
            |file| == 176 && file[0..64] == a && file[64..120] == b && file[120..176] == b
  {
  }

  lemma OverlapHeaders()
    ensures var file := OverlapFile();
            && HeaderOk(file)
            && ReadUint(file, 0, 24, 8) == Some(OVERLAP_ADDR) && ReadUint(file, 0, 32, 8) == Some(64)
            && ReadUint(file, 0, 54, 2) == Some(56) && ReadUint(file, 0, 56, 2) == Some(2)
            && HeaderAt(file, 64, 56, 0) == Some(Load([], OVERLAP_ADDR, PAGE_SIZE, false))
            && HeaderAt(file, 64, 56, 1) == Some(Load([], OVERLAP_ADDR, PAGE_SIZE, false))
  {
    hide OverlapFile, HeaderOk, ReadUint, HeaderAt;
    OverlapFileHeader();
    OverlapProgramHeader(0);
    OverlapProgramHeader(1);
  }

  lemma OverlapFileHeader()
    ensures var file := OverlapFile();
            && HeaderOk(file)
            && ReadUint(file, 0, 24, 8) == Some(OVERLAP_ADDR) && ReadUint(file, 0, 32, 8) == Some(64)
            && ReadUint(file, 0, 54, 2) == Some(56) && ReadUint(file, 0, 56, 2) == Some(2)
  {
    hide OverlapFile, HeaderOk, ReadUint, Format.Holds, Format.FileFields, OverlapSegment, OverlapHeader;
    OverlapHolds();
    OverlapIdent();
    Format.FileHeaderRead(OverlapFile(), OverlapHeader());
  }

  lemma OverlapIdent()
    ensures var h := OverlapHeader();
            && h.ident[0..4] == [0x7f, 0x45, 0x4c, 0x46] && h.ident[4] == 2 && h.ident[5] == 1
            && h.kind == ET_EXEC && h.machine == EM_X86_64 && h.entry == OVERLAP_ADDR
            && h.phoff == 64 && h.phentsize == 56 && h.phnum == 2
  {
  }

  lemma OverlapProgramHeader(i: nat)
    requires i < 2
    ensures HeaderAt(OverlapFile(), 64, 56, i) == Some(Load([], OVERLAP_ADDR, PAGE_SIZE, false))
  {
    hide OverlapFile, HeaderAt, Format.Holds, Format.HeaderFields, OverlapHeader;
    OverlapHolds();
    Format.ProgramHeaderRead(OverlapFile(), 64, 56, i, OverlapSegment());
    assert OverlapFile()[0..0] == [];
  }

  function OverlapPage(): PageSpec {
    PageSpec(OVERLAP_ADDR, PageData([], 0), false)
  }

  lemma OverlapRound(i: nat, highest: nat)
    requires i < 2 && highest <= OVERLAP_ADDR + PAGE_SIZE
    ensures HeaderRound(OverlapFile(), 64, 56, i, highest) == Next([OverlapPage()], OVERLAP_ADDR + PAGE_SIZE)
  {
    hide SegmentPlan, HeaderAt, OverlapFile, PageData, HeaderOk, ReadUint, TryNew;
    OverlapHeaders();
    OnePage([], OVERLAP_ADDR, false);
  }

  lemma {:induction false} OverlapScan()
    ensures ScanPlan(OverlapFile(), 64, 56, 2, 0, 0) == ([OverlapPage(), OverlapPage()],
                                                         Scanned(OVERLAP_ADDR + PAGE_SIZE))
  {
    hide OverlapFile, HeaderRound, OverlapPage;
    var file, p, top := OverlapFile(), OverlapPage(), OVERLAP_ADDR + PAGE_SIZE;
    OverlapRound(0, 0);
    OverlapRound(1, top);
    assert ScanPlan(file, 64, 56, 2, 2, top) == ([], Scanned(top));
    assert ScanPlan(file, 64, 56, 2, 1, top) == ([p] + [], Scanned(top));
    assert [p] + ([p] + []) == [p, p];
  }

  /** The loader is to map the same page twice, then stack and arguments. */
  lemma OverlapPlan()
    ensures Plan(OverlapFile(), []).0 ==
            [OverlapPage(), OverlapPage(), PageSpec(OVERLAP_ADDR + 2 * PAGE_SIZE, PageData([], 0), true),
             PageSpec(OVERLAP_ADDR + 3 * PAGE_SIZE, PageData([], 0), false)]
  {
    hide OverlapFile, ReadUint, ScanPlan, SegmentPlan, AlignUp, OverlapPage, PageData;
    OverlapHeaders();
    OverlapScan();
    var highest := OVERLAP_ADDR + PAGE_SIZE;
    AlignUpIs(highest);
    AlignedTwice(AlignUp(highest).value, highest);
    OverlapTail();
  }

  lemma AlignedTwice(a: nat, b: nat)
    requires a % PAGE_SIZE == 0 && b % PAGE_SIZE == 0 && b <= a < b + PAGE_SIZE
    ensures a == b
  {
  }

  lemma OverlapTail()
    ensures SegmentPlan([], OVERLAP_ADDR + 2 * PAGE_SIZE, PAGE_SIZE, true)
         == Pages([PageSpec(OVERLAP_ADDR + 2 * PAGE_SIZE, PageData([], 0), true)])
    ensures SegmentPlan([], OVERLAP_ADDR + 3 * PAGE_SIZE, PAGE_SIZE, false)
         == Pages([PageSpec(OVERLAP_ADDR + 3 * PAGE_SIZE, PageData([], 0), false)])
  {
    hide PageData;
    OnePage([], OVERLAP_ADDR + 2 * PAGE_SIZE, true);
    OnePage([], OVERLAP_ADDR + 3 * PAGE_SIZE, false);
  }

  /** A well-formed file with overlapping segments: wherever there are frames enough, loading it panics. */
  lemma OverlappingSegmentsPanic(s: Phys, s': Phys, active: Frame, off: Index, r: LoadOutcome)
    requires Sound(s, active) && |s.pool| >= 17
    ensures LoadStep(s, s', active, off, OverlapFile(), [], r) <==> r == Panicked
  {
    hide OverlapFile, Plan, HeaderOk, Sound, DistinctPages, CrossingFile, Clashes, MapPages, NewSpace;
    OverlapFacts();
    PanicCauses(s, active, off, OverlapFile(), []);
  }

  lemma OverlapFacts()
    ensures HeaderOk(OverlapFile())
    ensures |Plan(OverlapFile(), []).0| == 4 && !DistinctPages(Plan(OverlapFile(), []).0)
  {
    hide OverlapFile, Plan, HeaderOk, ReadUint, HeaderAt, PageData;
    OverlapPlan();
    OverlapFileHeader();
    var pages := Plan(OverlapFile(), []).0;
    assert pages[0].addr == pages[1].addr;
  }

  /** The file without segments needs the page at 0x1000, in the shared low slot: with frames enough it makes
      the loader panic exactly when the active table already maps that page or covers it with a huge one. */
  lemma LowStackPanics(s: Phys, s': Phys, active: Frame, off: Index)
    requires Sound(s, active) && |s.pool| >= 5
    ensures LoadStep(s, s', active, off, NoSegmentsBadEntry(), [], Panicked) <==> !Free(s.mem, active, PathOf(0x1000))
  {
    hide NoSegmentsBadEntry, HeaderOk, Sound, Plan, PathOf, Free, CrossingFile, MapPages, NewSpace, PageData;
    NoSegmentsHeader();
    NoSegmentsPlan();
    LowSlot(off);
    PanicCauses(s, active, off, NoSegmentsBadEntry(), []);
    NotCrossing();
    var pages := Plan(NoSegmentsBadEntry(), []).0;
    assert PagePath(pages[0]) == PathOf(0x1000);
  }

  lemma NotCrossing()
    ensures !CrossingFile(NoSegmentsBadEntry())
  {
    hide NoSegmentsBadEntry, HeaderOk, ReadUint, CrossesAt, Passes;
    NoSegmentsHeader();
  }
}
