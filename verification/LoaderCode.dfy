/** The imperative form of `new_address_space`, `map_to`, `map_segment`, `load_segments_and_stack` and
    `load`, each proved to do what its value-level description says (src/memory.rs, src/elf.rs). */
module LoaderCode {
  import opened Basics
  import opened Frames
  import opened Paging
  import opened Mapping
  import opened AddressSpace
  import opened Ownership
  import opened Elf
  import opened Loader
  import Bits

  ghost function State(ram: PhysicalMemory, fa: BootInfoFrameAllocator): Phys
    requires fa.Valid()
    reads ram, fa
  {
    Phys(ram.mem, fa.Pool())
  }

  method NewAddressSpace(ram: PhysicalMemory, off: Index, fa: BootInfoFrameAllocator) returns (r: Option<Frame>)
    requires fa.Valid()
    modifies ram`mem, fa
    ensures fa.Valid() && (State(ram, fa), r) == NewSpace(old(State(ram, fa)), ram.cr3, off)
  {
    r := fa.AllocateFrame();
    if r.Some? {
      var active := TableAt(ram.mem, ram.cr3);
      var table: Entries := EmptyTable();
      table := table[0 := active[0]];
      table := table[off := active[off]];
      ram.mem := ram.mem[r.value := Table(table)];
    }
  }

  /** A descent that fails part of the way fails as a whole. */
  lemma {:induction false} DescendStops(s: Phys, root: Frame, p: Path, flags: Flags, k: nat)
    requires k <= |p| && !Descend(s, root, p[..k], flags).1.Done?
    ensures Descend(s, root, p, flags) == Descend(s, root, p[..k], flags)
    decreases |p|
  {
    if k == |p| {
      assert p[..k] == p;
    } else {
      assert p[..|p| - 1][..k] == p[..k];
      DescendStops(s, root, p[..|p| - 1], flags, k);
    }
  }

  method MapToPage(ram: PhysicalMemory, fa: BootInfoFrameAllocator, root: Frame, p: Path, frame: Frame, flags: Flags)
      returns (o: Outcome)
    requires fa.Valid() && |p| == 4
    modifies ram`mem, fa
    ensures fa.Valid() && (State(ram, fa), o) == MapTo(old(State(ram, fa)), root, p, frame, flags)
  {
    ghost var s := State(ram, fa);
    var t := root;
    for k := 0 to 3
      invariant fa.Valid() && (State(ram, fa), Done(t)) == Descend(s, root, p[..k], flags)
    {
      assert p[..k + 1][..k] == p[..k];
      assert p[..3][..k + 1] == p[..k + 1];
      o := CreateNextTable(ram, fa, t, p[k], flags);
      if !o.Done? {
        DescendStops(s, root, p[..3], flags, k + 1);
        return;
      }
      t := o.table;
    }
    if TableAt(ram.mem, t)[p[3]] != UNUSED {
      return PageAlreadyMapped;
    }
    ram.mem := Put(ram.mem, t, p[3], Slot(frame, flags));
    o := Done(t);
  }

  method CreateNextTable(ram: PhysicalMemory, fa: BootInfoFrameAllocator, t: Frame, i: Index, flags: Flags)
    returns (o: Outcome)
    requires fa.Valid()
    modifies ram`mem, fa
    ensures fa.Valid() && (State(ram, fa), o) == NextTable(old(State(ram, fa)), t, i, flags)
  {
    var e := TableAt(ram.mem, t)[i];
    if e == UNUSED {
      var c := fa.AllocateFrame();
      if c.None? {
        return FrameAllocationFailed;
      }
      ram.mem := Put(ram.mem, t, i, Slot(c.value, flags));
      ram.mem := ram.mem[c.value := Table(EmptyTable())];
      return Done(c.value);
    }
    ram.mem := Put(ram.mem, t, i, Widen(e, flags));
    o := if e.huge then ParentEntryHugePage else Done(e.frame);
  }

  // ---------------------------------------------------------------- map_segment

  datatype Step = Proceed | GiveUp | Abort

  lemma {:induction false} MapPagesStops(s: Phys, root: Frame, pages: seq<PageSpec>, k: nat)
    requires k <= |pages| && !MapPages(s, root, pages[..k]).1
    ensures !MapPages(s, root, pages).1
    decreases |pages|
  {
    if k == |pages| {
      assert pages[..k] == pages;
    } else {
      assert pages[..|pages| - 1][..k] == pages[..k];
      MapPagesStops(s, root, pages[..|pages| - 1], k);
    }
  }

  lemma {:induction false} MapPagesConcat(s: Phys, root: Frame, a: seq<PageSpec>, b: seq<PageSpec>)
    requires MapPages(s, root, a).1
    ensures MapPages(s, root, a + b) == MapPages(MapPages(s, root, a).0, root, b)
    decreases |b|
  {
    hide MapPage;
    if b == [] {
      assert a + b == a;
    } else {
      var n := |b| - 1;
      MapPagesConcat(s, root, a, b[..n]);
      var all := a + b;
      assert all[..|all| - 1] == a + b[..n] && all[|all| - 1] == b[n];
    }
  }

  /** What a step that maps `pages` may report. */
  ghost predicate MapsAll(s: Phys, s': Phys, root: Frame, pages: seq<PageSpec>, r: Step) {
    var (s1, ok) := MapPages(s, root, pages);
    if ok then r.Proceed? && s' == s1 else r.Abort?
  }

  method FillPage(file: seq<byte>, at: nat) returns (data: seq<byte>)
    ensures data == PageData(file, at)
  {
    data := Zeros(PAGE_SIZE);
    if at < |file| {
      var copyLen := if |file| - at < PAGE_SIZE then |file| - at else PAGE_SIZE;
      data := file[at..at + copyLen] + data[copyLen..];
    }
  }

  method MapSegment(ram: PhysicalMemory, fa: BootInfoFrameAllocator, root: Frame, file: seq<byte>, vaddr: nat,
                    memSize: nat, writable: bool)
      returns (r: Step)
    requires fa.Valid() && vaddr < U64_LIMIT && memSize < U64_LIMIT
    modifies ram`mem, fa
    ensures fa.Valid()
    ensures match SegmentPlan(file, vaddr, memSize, writable)
            case Reject => r.GiveUp? && State(ram, fa) == old(State(ram, fa))
            case Crash => r.Abort?
            case Pages(pages) => MapsAll(old(State(ram, fa)), State(ram, fa), root, pages, r)
  {
    if memSize == 0 {
      return Proceed;
    }
    if vaddr % PAGE_SIZE != 0 || vaddr >= LOW_LIMIT {
      return GiveUp;
    }
    var end := CheckedAdd(vaddr, memSize);
    if end.None? || TryNew(end.value - 1).None? {
      return GiveUp;
    }
    if end.value - 1 >= LOW_LIMIT {
      return Abort;
    }
    var count := (end.value - 1) / PAGE_SIZE - vaddr / PAGE_SIZE + 1;
    r := MapRun(ram, fa, root, file, vaddr, count, writable, SegmentPlan(file, vaddr, memSize, writable).pages);
  }

  lemma {:induction false} MapPagesLast(s: Phys, root: Frame, pages: seq<PageSpec>, i: nat)
    requires i < |pages| && MapPages(s, root, pages[..i]).1
    ensures var (s', o) := MapPage(MapPages(s, root, pages[..i]).0, root, PagePath(pages[i]), pages[i].data,
                                   PageFlags(pages[i]));
            MapPages(s, root, pages[..i + 1]) == (s', o.Done?)
  {
    hide MapPage, PathOf;
    assert pages[..i + 1][..i] == pages[..i];
  }

  /** The loop of `map_segment` over `count` consecutive pages. */
  method MapRun(ram: PhysicalMemory, fa: BootInfoFrameAllocator, root: Frame, file: seq<byte>, vaddr: nat, count: nat,
                writable: bool,
                ghost pages: seq<PageSpec>)
      returns (r: Step)
    requires fa.Valid() && |pages| == count
    requires forall i :: 0 <= i < count ==> pages[i] == PageSpec(vaddr + i * PAGE_SIZE, PageData(file, i * PAGE_SIZE),
                                                                 writable)
    modifies ram`mem, fa
    ensures fa.Valid() && MapsAll(old(State(ram, fa)), State(ram, fa), root, pages, r)
  {
    ghost var s := State(ram, fa);
    MapPagesNone(s, root, pages);
    for i := 0 to count
      invariant fa.Valid() && MapPages(s, root, pages[..i]) == (State(ram, fa), true)
    {
      hide *;
      var ok := MapNext(ram, fa, root, file, vaddr, i, writable, pages, s);
      if !ok {
        MapPagesStops(s, root, pages, i + 1);
        return Abort;
      }
    }
    assert pages[..count] == pages;
    r := Proceed;
  }

  method MapNext(ram: PhysicalMemory, fa: BootInfoFrameAllocator, root: Frame, file: seq<byte>, vaddr: nat, i: nat,
                 writable: bool,
                 ghost pages: seq<PageSpec>, ghost s: Phys)
      returns (ok: bool)
    requires fa.Valid() && i < |pages|
    requires pages[i] == PageSpec(vaddr + i * PAGE_SIZE, PageData(file, i * PAGE_SIZE), writable)
    requires MapPages(s, root, pages[..i]) == (State(ram, fa), true)
    modifies ram`mem, fa
    ensures fa.Valid() && MapPages(s, root, pages[..i + 1]) == (State(ram, fa), ok)
  {
    hide MapPage, PageData, PathOf, MapPages, State;
    MapPagesLast(s, root, pages, i);
    ok := MapOnePage(ram, fa, root, vaddr + i * PAGE_SIZE, file, i * PAGE_SIZE, writable);
  }

  lemma {:induction false} MapPagesNone(s: Phys, root: Frame, pages: seq<PageSpec>)
    ensures MapPages(s, root, pages[..0]) == (s, true)
  {
  }

  /** The body of the loop: allocate, map, zero, copy. */
  method MapOnePage(ram: PhysicalMemory, fa: BootInfoFrameAllocator, root: Frame, addr: nat, file: seq<byte>, at: nat,
                    writable: bool)
      returns (ok: bool)
    requires fa.Valid()
    modifies ram`mem, fa
    ensures fa.Valid()
    ensures var (s', o) := MapPage(old(State(ram, fa)), root, PathOf(addr), PageData(file, at), Flags(writable, true));
            State(ram, fa) == s' && ok == o.Done?
  {
    hide PathOf, PageData, MapTo;
    var frame := fa.AllocateFrame();
    if frame.None? {
      return false;
    }
    ghost var s1 := State(ram, fa);
    assert s1 == old(State(ram, fa)).(pool := old(State(ram, fa)).pool[1..]);
    var o := MapToPage(ram, fa, root, PathOf(addr), frame.value, Flags(writable, true));
    if !o.Done? {
      return false;
    }
    var data := FillPage(file, at);
    ram.mem := ram.mem[frame.value := Bytes(data)];
    ok := true;
  }

  // ---------------------------------------------------------------- load_segments_and_stack

  /** One program header: `MapHeader` maps its pages and moves the high-water mark. */
  method MapHeader(ram: PhysicalMemory, fa: BootInfoFrameAllocator, root: Frame, bytes: seq<byte>, phoff: nat,
                   phentsize: nat, i: nat, highest: nat)
      returns (r: Step, next: nat)
    requires fa.Valid()
    modifies ram`mem, fa
    ensures fa.Valid()
    ensures var round := HeaderRound(bytes, phoff, phentsize, i, highest);
            var (s', ok) := MapPages(old(State(ram, fa)), root, round.pages);
            if !ok || (round.Stop? && round.end.ScanCrashed?) then r.Abort?
            else
              && State(ram, fa) == s'
              && (if round.Stop? then r.GiveUp? else r.Proceed? && next == round.highest)
  {
    hide MapPage, SegmentPlan, HeaderAt, State;
    next := highest;
    var h := HeaderAt(bytes, phoff, phentsize, i);
    if h.None? {
      return GiveUp, next;
    }
    if h.value.Skip? {
      return Proceed, next;
    }
    HeaderFields(bytes, phoff, phentsize, i);
    r := MapSegment(ram, fa, root, h.value.file, h.value.vaddr, h.value.memSize, h.value.writable);
    if !r.Proceed? {
      return;
    }
    var end := CheckedAdd(h.value.vaddr, h.value.memSize);
    if end.None? {
      return GiveUp, next;
    }
    next := Max(highest, end.value);
  }

  lemma HeaderFields(bytes: seq<byte>, phoff: nat, phentsize: nat, i: nat)
    ensures var h := HeaderAt(bytes, phoff, phentsize, i);
            h.Some? && h.value.Load? ==> h.value.vaddr < U64_LIMIT && h.value.memSize < U64_LIMIT
  {
    forall b: seq<byte> | |b| == 8
      ensures LittleEndian(b) < U64_LIMIT
    {
      LittleBound(b);
      Bits.Pow2Values();
    }
  }

  lemma {:induction false} LittleBound(b: seq<byte>)
    ensures LittleEndian(b) < Bits.Pow2(8 * |b|)
  {
    if b != [] {
      LittleBound(b[1..]);
      Bits.Pow2Add(8, 8 * |b[1..]|);
      Bits.Pow2Values();
    }
  }

  lemma ScanUnfold(bytes: seq<byte>, phoff: nat, phentsize: nat, phnum: nat, i: nat, highest: nat)
    requires i < phnum
    ensures var round := HeaderRound(bytes, phoff, phentsize, i, highest);
            ScanPlan(bytes, phoff, phentsize, phnum, i, highest) ==
            if round.Stop? then (round.pages, round.end)
            else
              var rest := ScanPlan(bytes, phoff, phentsize, phnum, i + 1, round.highest);
              (round.pages + rest.0, rest.1)
  {
    hide HeaderRound;
  }

  /** How far the loop over the headers has come: `mapped` lists the pages mapped so far, and the rest
      of the plan is what the remaining headers ask for. */
  ghost predicate ScanState(s: Phys, now: Phys, root: Frame, bytes: seq<byte>, phoff: nat, phentsize: nat, phnum: nat,
                            i: nat, highest: nat, mapped: seq<PageSpec>) {
    var (pages, end) := ScanPlan(bytes, phoff, phentsize, phnum, 0, 0);
    var (rest, restEnd) := ScanPlan(bytes, phoff, phentsize, phnum, i, highest);
    MapPages(s, root, mapped) == (now, true) && pages == mapped + rest && end == restEnd
  }

  ghost predicate ScanDone(s: Phys, now: Phys, root: Frame, bytes: seq<byte>, phoff: nat, phentsize: nat, phnum: nat,
                           r: Step, highest: nat) {
    var (pages, end) := ScanPlan(bytes, phoff, phentsize, phnum, 0, 0);
    var (s', ok) := MapPages(s, root, pages);
    if !ok || end.ScanCrashed? then r.Abort?
    else now == s' && (if end.ScanRejected? then r.GiveUp? else r.Proceed? && highest == end.highest)
  }

  lemma ScanStart(s: Phys, root: Frame, bytes: seq<byte>, phoff: nat, phentsize: nat, phnum: nat)
    ensures ScanState(s, s, root, bytes, phoff, phentsize, phnum, 0, 0, [])
  {
    hide ScanPlan;
  }

  lemma ScanFinish(s: Phys, now: Phys, root: Frame, bytes: seq<byte>, phoff: nat, phentsize: nat, phnum: nat,
                   highest: nat, mapped: seq<PageSpec>)
    requires ScanState(s, now, root, bytes, phoff, phentsize, phnum, phnum, highest, mapped)
    ensures ScanDone(s, now, root, bytes, phoff, phentsize, phnum, Proceed, highest)
  {
    hide MapPages, HeaderRound;
    assert mapped + [] == mapped;
  }

  /** The loop over the program headers. */
  method ScanHeaders(ram: PhysicalMemory, fa: BootInfoFrameAllocator, root: Frame, bytes: seq<byte>, phoff: nat,
                     phentsize: nat, phnum: nat)
      returns (r: Step, highest: nat)
    requires fa.Valid()
    modifies ram`mem, fa
    ensures fa.Valid()
    ensures ScanDone(old(State(ram, fa)), State(ram, fa), root, bytes, phoff, phentsize, phnum, r, highest)
  {
    hide *;
    ghost var s := State(ram, fa);
    ghost var mapped: seq<PageSpec> := [];
    highest := 0;
    ScanStart(s, root, bytes, phoff, phentsize, phnum);
    for i := 0 to phnum
      invariant fa.Valid() && ScanState(s, State(ram, fa), root, bytes, phoff, phentsize, phnum, i, highest, mapped)
    {
      hide *;
      r, highest, mapped := ScanNext(ram, fa, root, bytes, phoff, phentsize, phnum, i, highest, mapped, s);
      if !r.Proceed? {
        return;
      }
    }
    ScanFinish(s, State(ram, fa), root, bytes, phoff, phentsize, phnum, highest, mapped);
    r := Proceed;
  }

  method ScanNext(ram: PhysicalMemory, fa: BootInfoFrameAllocator, root: Frame, bytes: seq<byte>, phoff: nat,
                  phentsize: nat, phnum: nat,
                  i: nat, highest: nat, ghost before: seq<PageSpec>, ghost s: Phys)
      returns (r: Step, next: nat, ghost mapped: seq<PageSpec>)
    requires fa.Valid() && i < phnum
    requires ScanState(s, State(ram, fa), root, bytes, phoff, phentsize, phnum, i, highest, before)
    modifies ram`mem, fa
    ensures fa.Valid()
    ensures if r.Proceed? then ScanState(s, State(ram, fa), root, bytes, phoff, phentsize, phnum, i + 1, next, mapped)
            else ScanDone(s, State(ram, fa), root, bytes, phoff, phentsize, phnum, r, next)
  {
    hide State, HeaderRound, ScanPlan, MapPages;
    ghost var round := HeaderRound(bytes, phoff, phentsize, i, highest);
    ghost var rest := ScanPlan(bytes, phoff, phentsize, phnum, i, highest);
    ScanUnfold(bytes, phoff, phentsize, phnum, i, highest);
    RoundEnds(bytes, phoff, phentsize, i, highest);
    RoundMapped(s, root, before, round.pages, rest.0);
    r, next := MapHeader(ram, fa, root, bytes, phoff, phentsize, i, highest);
    mapped := before + round.pages;
    if round.Next? {
      ConcatAssoc(before, round.pages, ScanPlan(bytes, phoff, phentsize, phnum, i + 1, round.highest).0);
    }
  }

  lemma RoundEnds(bytes: seq<byte>, phoff: nat, phentsize: nat, i: nat, highest: nat)
    ensures var round := HeaderRound(bytes, phoff, phentsize, i, highest); round.Stop? ==> !round.end.Scanned?
  {
    hide HeaderAt, SegmentPlan;
  }

  /** Mapping one round's pages after those already mapped. */
  lemma {:induction false} RoundMapped(s: Phys, root: Frame, before: seq<PageSpec>, pages: seq<PageSpec>,
                                       rest: seq<PageSpec>)
    requires MapPages(s, root, before).1 && pages <= rest
    ensures MapPages(s, root, before + pages) == MapPages(MapPages(s, root, before).0, root, pages)
    ensures !MapPages(s, root, before + pages).1 ==> !MapPages(s, root, before + rest).1
  {
    hide MapPage;
    MapPagesConcat(s, root, before, pages);
    var all := before + rest;
    assert all[..|before + pages|] == before + pages;
    if !MapPages(s, root, before + pages).1 {
      MapPagesStops(s, root, all, |before + pages|);
    }
  }

  /** A part of the loader carried out the plan `(pages, verdict)` from `s` to `now`. */
  ghost predicate Carried(s: Phys, now: Phys, root: Frame, plan: (seq<PageSpec>, Verdict), r: Verdict) {
    var (s', ok) := MapPages(s, root, plan.0);
    if !ok || plan.1.Panic? then r.Panic? else now == s' && r == plan.1
  }

  lemma {:induction false} CarriedAfter(s: Phys, s1: Phys, now: Phys, root: Frame, first: seq<PageSpec>,
                                        rest: (seq<PageSpec>, Verdict), r: Verdict)
    requires MapPages(s, root, first) == (s1, true) && Carried(s1, now, root, rest, r)
    ensures Carried(s, now, root, (first + rest.0, rest.1), r)
  {
    hide MapPages;
    MapPagesConcat(s, root, first, rest.0);
  }

  lemma {:induction false} CarriedFailed(s: Phys, now: Phys, root: Frame, first: seq<PageSpec>,
                                         rest: (seq<PageSpec>, Verdict))
    requires !MapPages(s, root, first).1
    ensures Carried(s, now, root, (first + rest.0, rest.1), Panic)
  {
    hide MapPages;
    var all := first + rest.0;
    assert all[..|first|] == first;
    MapPagesStops(s, root, all, |first|);
  }

  lemma CarriedNothing(s: Phys, root: Frame, v: Verdict)
    ensures Carried(s, s, root, ([], v), if v.Panic? then Panic else v)
  {
  }

  method MapArgs(ram: PhysicalMemory, fa: BootInfoFrameAllocator, root: Frame, entry: nat, stackBottom: nat,
                 args: seq<byte>)
      returns (r: Verdict)
    requires fa.Valid()
    modifies ram`mem, fa
    ensures fa.Valid() && Carried(old(State(ram, fa)), State(ram, fa), root, ArgsPlan(entry, stackBottom, args), r)
  {
    hide State, SegmentPlan, TryNew;
    var argsBottom := CheckedAdd(stackBottom, PAGE_SIZE);
    if argsBottom.None? {
      return Refuse;
    }
    var stackTop, start := TryNew(argsBottom.value - 16), TryNew(entry);
    if stackTop.None? || start.None? {
      return Refuse;
    }
    var step := MapSegment(ram, fa, root, args, argsBottom.value, PAGE_SIZE, false);
    var argsPtr := TryNew(argsBottom.value);
    if step.GiveUp? || (step.Proceed? && argsPtr.None?) {
      return Refuse;
    }
    if step.Abort? {
      return Panic;
    }
    r := Accept(start.value, stackTop.value, argsPtr.value, |args|);
  }

  method MapTail(ram: PhysicalMemory, fa: BootInfoFrameAllocator, root: Frame, entry: nat, highest: nat,
                 args: seq<byte>)
      returns (r: Verdict)
    requires fa.Valid()
    modifies ram`mem, fa
    ensures fa.Valid() && Carried(old(State(ram, fa)), State(ram, fa), root, TailPlan(entry, highest, args), r)
  {
    hide State, SegmentPlan, AlignUp, ArgsPlan;
    ghost var s := State(ram, fa);
    var top := AlignUp(highest);
    if top.None? {
      return Refuse;
    }
    var stackBottom := CheckedAdd(top.value, PAGE_SIZE);
    if stackBottom.None? {
      return Refuse;
    }
    var step := MapSegment(ram, fa, root, [], stackBottom.value, PAGE_SIZE, true);
    if step.GiveUp? {
      return Refuse;
    }
    if SegmentPlan([], stackBottom.value, PAGE_SIZE, true).Crash? {
      return Panic;
    }
    ghost var stack := SegmentPlan([], stackBottom.value, PAGE_SIZE, true).pages;
    if step.Abort? {
      CarriedFailed(s, s, root, stack, ArgsPlan(entry, stackBottom.value, args));
      return Panic;
    }
    ghost var s1 := State(ram, fa);
    r := MapArgs(ram, fa, root, entry, stackBottom.value, args);
    CarriedAfter(s, s1, State(ram, fa), root, stack, ArgsPlan(entry, stackBottom.value, args), r);
  }

  method LoadSegmentsAndStack(ram: PhysicalMemory, fa: BootInfoFrameAllocator, root: Frame, bytes: seq<byte>,
                              args: seq<byte>)
      returns (r: Verdict)
    requires fa.Valid()
    modifies ram`mem, fa
    ensures fa.Valid() && Carried(old(State(ram, fa)), State(ram, fa), root, Plan(bytes, args), r)
  {
    hide State, ReadUint, ScanPlan, TailPlan;
    ghost var s := State(ram, fa);
    var entry, phoff := ReadUint(bytes, 0, 24, 8), ReadUint(bytes, 0, 32, 8);
    var phentsize, phnum := ReadUint(bytes, 0, 54, 2), ReadUint(bytes, 0, 56, 2);
    if entry.None? || phoff.None? || phentsize.None? || phnum.None? {
      CarriedNothing(s, root, Refuse);
      return Refuse;
    }
    var step, highest := ScanHeaders(ram, fa, root, bytes, phoff.value, phentsize.value, phnum.value);
    ghost var s1 := State(ram, fa);
    ghost var (scan, end) := ScanPlan(bytes, phoff.value, phentsize.value, phnum.value, 0, 0);
    if end.Scanned? && step.Abort? {
      CarriedFailed(s, s1, root, scan, TailPlan(entry.value, end.highest, args));
    }
    if step.GiveUp? {
      return Refuse;
    }
    if step.Abort? {
      return Panic;
    }
    r := MapTail(ram, fa, root, entry.value, highest, args);
    CarriedAfter(s, s1, State(ram, fa), root, scan, TailPlan(entry.value, highest, args), r);
  }

  /** `free_address_space` as a step on the pool. */
  method ReleaseSpace(ram: PhysicalMemory, off: Index, borrowed: Range, fa: BootInfoFrameAllocator, root: Frame)
    requires fa.Valid() && OwnedTree(ram.mem, root, off, borrowed)
    modifies fa`freeList
    ensures fa.Valid() && Returned(old(State(ram, fa)), fa.Pool(), root, off, borrowed)
  {
    hide OwnedTree, Owned;
    ghost var freed := FreeAddressSpace(root, ram, off, borrowed, fa);
    ReversedConcat(old(fa.Returned()), freed);
    ConcatAssoc(Reversed(freed), Reversed(old(fa.Returned())), fa.Fresh());
    assert IsFreedList(ram.mem, root, off, borrowed, freed);
    assert fa.Pool() == Reversed(freed) + old(fa.Pool());
  }

  lemma {:induction false} RefusedSpace(s: Phys, s1: Phys, root: Frame, off: Index, bytes: seq<byte>, args: seq<byte>)
    requires Space(s1, root, off, NOTHING) && Image(s1.mem, root, off, []) && Account(s, s1, root, off, [])
    requires MapPages(s1, root, Plan(bytes, args).0).1
    ensures OwnedTree(MapPages(s1, root, Plan(bytes, args).0).0.mem, root, off, NOTHING)
  {
    hide Plan, MapPages, Image, Account;
    MapPagesEffect(s, s1, root, off, Plan(bytes, args).0);
  }

  /** `elf::load`, proved against `LoadStep`. */
  method LoadElf(ram: PhysicalMemory, off: Index, fa: BootInfoFrameAllocator, bytes: seq<byte>, args: seq<byte>)
      returns (r: LoadOutcome)
    requires fa.Valid() && Sound(State(ram, fa), ram.cr3)
    modifies ram`mem, fa
    ensures fa.Valid() && LoadStep(old(State(ram, fa)), State(ram, fa), ram.cr3, off, bytes, args, r)
  {
    hide HeaderOk, Plan, MapPages, Sound, OwnedTree, Space, Image, Account, Returned;
    if !HeaderOk(bytes) {
      return NotLoaded;
    }
    ghost var s := State(ram, fa);
    var root := NewAddressSpace(ram, off, fa);
    if root.None? {
      return Panicked;
    }
    NewSpaceAccount(s, ram.cr3, off);
    ghost var s1 := State(ram, fa);
    var v := LoadSegmentsAndStack(ram, fa, root.value, bytes, args);
    if v.Panic? {
      return Panicked;
    }
    if v.Accept? {
      return Loaded(root.value, v.entry, v.stackTop, v.argsPtr, v.argsLen);
    }
    RefusedSpace(s, s1, root.value, off, bytes, args);
    ReleaseSpace(ram, off, NOTHING, fa, root.value);
    r := NotLoaded;
  }
}
