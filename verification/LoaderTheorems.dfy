/** What a ring-3 program finds in memory after `elf::load`. */
module LoaderTheorems {
  import opened Basics
  import opened Frames
  import opened Paging
  import opened Mapping
  import opened AddressSpace
  import opened Elf
  import opened Loader

  // ---------------------------------------------------------------- the plan of an accepted file

  predicate GoodPage(page: PageSpec) {
    page.addr % PAGE_SIZE == 0 && page.addr + PAGE_SIZE <= LOW_LIMIT && |page.data| == PAGE_SIZE
  }

  ghost predicate GoodBelow(pages: seq<PageSpec>, limit: nat) {
    forall page :: page in pages ==> GoodPage(page) && page.addr < limit
  }

  lemma GoodBelowConcat(a: seq<PageSpec>, b: seq<PageSpec>, low: nat, limit: nat)
    requires GoodBelow(a, low) && GoodBelow(b, limit) && low <= limit
    ensures GoodBelow(a + b, limit)
  {
  }

  lemma SegmentGood(file: seq<byte>, vaddr: nat, memSize: nat, writable: bool)
    requires SegmentPlan(file, vaddr, memSize, writable).Pages?
    ensures GoodBelow(SegmentPlan(file, vaddr, memSize, writable).pages, vaddr + memSize)
    ensures vaddr + memSize <= LOW_LIMIT || SegmentPlan(file, vaddr, memSize, writable).pages == []
  {
    var pages := SegmentPlan(file, vaddr, memSize, writable).pages;
    forall i | 0 <= i < |pages|
      ensures GoodPage(pages[i]) && pages[i].addr < vaddr + memSize
    {
      assert i * PAGE_SIZE <= (|pages| - 1) * PAGE_SIZE;
      assert LOW_LIMIT % PAGE_SIZE == 0;
    }
  }

  lemma RoundGood(bytes: seq<byte>, phoff: nat, phentsize: nat, i: nat, highest: nat)
    ensures var r := HeaderRound(bytes, phoff, phentsize, i, highest);
            && GoodBelow(r.pages, LOW_LIMIT)
            && (r.Stop? ==> !r.end.Scanned?)
            && (r.Next? ==> highest <= r.highest && GoodBelow(r.pages, r.highest))
  {
    hide SegmentPlan, HeaderAt;
    var h := HeaderAt(bytes, phoff, phentsize, i);
    if h.Some? && h.value.Load? && SegmentPlan(h.value.file, h.value.vaddr, h.value.memSize, h.value.writable).Pages? {
      SegmentGood(h.value.file, h.value.vaddr, h.value.memSize, h.value.writable);
    }
  }

  /** Every page the scan maps is a whole page of the lower half and starts below the final
      high-water mark. */
  lemma {:induction false} ScanGood(bytes: seq<byte>, phoff: nat, phentsize: nat, phnum: nat, i: nat, highest: nat)
    ensures var (pages, end) := ScanPlan(bytes, phoff, phentsize, phnum, i, highest);
            && GoodBelow(pages, LOW_LIMIT)
            && (end.Scanned? ==> highest <= end.highest && GoodBelow(pages, end.highest))
    decreases phnum - i
  {
    if i < phnum {
      hide HeaderRound, GoodBelow;
      RoundGood(bytes, phoff, phentsize, i, highest);
      var r := HeaderRound(bytes, phoff, phentsize, i, highest);
      if r.Next? {
        ScanGood(bytes, phoff, phentsize, phnum, i + 1, r.highest);
        var (rest, e) := ScanPlan(bytes, phoff, phentsize, phnum, i + 1, r.highest);
        GoodBelowConcat(r.pages, rest, LOW_LIMIT, LOW_LIMIT);
        if e.Scanned? {
          GoodBelowConcat(r.pages, rest, r.highest, e.highest);
        }
      }
    }
  }

  /** A completed scan mapped every page of every loadable header. */
  lemma {:induction false} ScanCovers(bytes: seq<byte>, phoff: nat, phentsize: nat, phnum: nat, i: nat, highest: nat,
                                      j: nat)
    requires ScanPlan(bytes, phoff, phentsize, phnum, i, highest).1.Scanned? && i <= j < phnum
    requires HeaderAt(bytes, phoff, phentsize, j).Some? && HeaderAt(bytes, phoff, phentsize, j).value.Load?
    ensures var Load(file, vaddr, memSize, writable) := HeaderAt(bytes, phoff, phentsize, j).value;
            && SegmentPlan(file, vaddr, memSize, writable).Pages?
            && forall page :: page in SegmentPlan(file, vaddr, memSize, writable).pages ==>
                 page in ScanPlan(bytes, phoff, phentsize, phnum, i, highest).0
    decreases phnum - i
  {
    hide HeaderAt, SegmentPlan;
    RoundGood(bytes, phoff, phentsize, i, highest);
    if i < j {
      var r := HeaderRound(bytes, phoff, phentsize, i, highest);
      ScanCovers(bytes, phoff, phentsize, phnum, i + 1, r.highest, j);
    }
  }

  /** Where the segment of header `j` ends, if it is loadable. */
  function EndOf(bytes: seq<byte>, phoff: nat, phentsize: nat, j: nat): Option<nat> {
    match HeaderAt(bytes, phoff, phentsize, j)
    case Some(Load(_, vaddr, memSize, _)) => Some(vaddr + memSize)
    case _ => None
  }

  /** The mark of a completed scan is the greatest of its start and the ends of the loadable segments. */
  lemma {:induction false} ScanMark(bytes: seq<byte>, phoff: nat, phentsize: nat, phnum: nat, i: nat, highest: nat)
    requires ScanPlan(bytes, phoff, phentsize, phnum, i, highest).1.Scanned?
    ensures var mark := ScanPlan(bytes, phoff, phentsize, phnum, i, highest).1.highest;
            && highest <= mark
            && (forall j :: i <= j < phnum && EndOf(bytes, phoff, phentsize, j).Some? ==>
                  EndOf(bytes, phoff, phentsize, j).value <= mark)
            && (mark == highest || exists j :: i <= j < phnum && EndOf(bytes, phoff, phentsize, j) == Some(mark))
    decreases phnum - i
  {
    hide HeaderAt, SegmentPlan, EndOf;
    if i < phnum {
      RoundMark(bytes, phoff, phentsize, i, highest);
      hide HeaderRound;
      ScanMark(bytes, phoff, phentsize, phnum, i + 1, HeaderRound(bytes, phoff, phentsize, i, highest).highest);
    }
  }

  lemma RoundMark(bytes: seq<byte>, phoff: nat, phentsize: nat, i: nat, highest: nat)
    ensures var r := HeaderRound(bytes, phoff, phentsize, i, highest);
            var end := EndOf(bytes, phoff, phentsize, i);
            && (r.Stop? ==> !r.end.Scanned?)
            && (r.Next? ==> r.highest == if end.Some? && highest < end.value then end.value else highest)
  {
    hide HeaderAt, SegmentPlan;
  }

  /** The stack page, the argument page and the hole below them. */
  lemma TailLayout(entry: nat, highest: nat, args: seq<byte>)
    requires TailPlan(entry, highest, args).1.Accept?
    ensures var (tail, v) := TailPlan(entry, highest, args);
            && v.argsPtr >= 2 * PAGE_SIZE && v.argsPtr % PAGE_SIZE == 0 && v.argsPtr + PAGE_SIZE <= LOW_LIMIT
            && tail == [PageSpec(v.argsPtr - PAGE_SIZE, PageData([], 0), true),
                        PageSpec(v.argsPtr, PageData(args, 0), false)]
            && v.stackTop == v.argsPtr - 16 && v.stackTop % 16 == 0 && v.argsLen == |args|
            && highest <= v.argsPtr - 2 * PAGE_SIZE < highest + PAGE_SIZE
  {
    hide AlignUp, SegmentPlan, PageData;
    AlignUpIs(highest);
    var stackBottom := AlignUp(highest).value + PAGE_SIZE;
    OnePage([], stackBottom, true);
    OnePage(args, stackBottom + PAGE_SIZE, false);
    StackAligned(stackBottom);
  }

  lemma StackAligned(stackBottom: nat)
    requires stackBottom % 4096 == 0
    ensures (stackBottom + 4096 - 16) % 16 == 0 && (stackBottom + 4096) % 4096 == 0
  {
    var n := stackBottom / 4096;
    assert stackBottom + 4096 - 16 == (256 * n + 255) * 16;
  }

  lemma OnePage(file: seq<byte>, vaddr: nat, writable: bool)
    requires SegmentPlan(file, vaddr, PAGE_SIZE, writable).Pages?
    ensures SegmentPlan(file, vaddr, PAGE_SIZE, writable).pages == [PageSpec(vaddr, PageData(file, 0), writable)]
    ensures vaddr % PAGE_SIZE == 0 && vaddr + PAGE_SIZE <= LOW_LIMIT
  {
    hide PageData;
    var pages := SegmentPlan(file, vaddr, PAGE_SIZE, writable).pages;
    assert |pages| == 1;
    assert pages[0] == PageSpec(vaddr, PageData(file, 0), writable);
  }

  /** An accepted plan: segment pages, then the stack page, then the argument page, with the page
      between the segments and the stack left out. */
  lemma AcceptedLayout(bytes: seq<byte>, args: seq<byte>)
    requires Plan(bytes, args).1.Accept?
    ensures var (pages, v) := Plan(bytes, args);
            && |pages| >= 2 && (forall page :: page in pages ==> GoodPage(page))
            && pages[|pages| - 2] == PageSpec(v.argsPtr - PAGE_SIZE, PageData([], 0), true)
            && pages[|pages| - 1] == PageSpec(v.argsPtr, PageData(args, 0), false)
            && v.argsPtr >= 2 * PAGE_SIZE
            && v.stackTop == v.argsPtr - 16 && v.stackTop % 16 == 0 && v.argsLen == |args|
            && (forall i :: 0 <= i < |pages| - 2 ==> pages[i].addr + PAGE_SIZE <= v.argsPtr - 2 * PAGE_SIZE)
  {
    hide PageData, ReadUint, ScanPlan, TailPlan;
    var phoff, phentsize, phnum := ReadUint(bytes, 0, 32, 8), ReadUint(bytes, 0, 54, 2), ReadUint(bytes, 0, 56, 2);
    var (scan, end) := ScanPlan(bytes, phoff.value, phentsize.value, phnum.value, 0, 0);
    var entry := ReadUint(bytes, 0, 24, 8).value;
    ScanGood(bytes, phoff.value, phentsize.value, phnum.value, 0, 0);
    TailLayout(entry, end.highest, args);
    var (tail, v) := TailPlan(entry, end.highest, args);
    JoinLayout(scan, tail, end.highest, v.argsPtr);
  }

  lemma JoinLayout(scan: seq<PageSpec>, tail: seq<PageSpec>, highest: nat, argsPtr: nat)
    requires GoodBelow(scan, highest)
    requires |tail| == 2 && GoodPage(tail[0]) && GoodPage(tail[1])
    requires argsPtr >= 2 * PAGE_SIZE && argsPtr % PAGE_SIZE == 0 && highest <= argsPtr - 2 * PAGE_SIZE
    ensures var pages := scan + tail;
            && (forall page :: page in pages ==> GoodPage(page))
            && pages[|pages| - 2] == tail[0] && pages[|pages| - 1] == tail[1]
            && (forall i :: 0 <= i < |pages| - 2 ==> pages[i].addr + PAGE_SIZE <= argsPtr - 2 * PAGE_SIZE)
  {
    var pages := scan + tail;
    forall i | 0 <= i < |scan|
      ensures pages[i].addr + PAGE_SIZE <= argsPtr - 2 * PAGE_SIZE
    {
      assert pages[i] in scan;
      Aligned(pages[i].addr, argsPtr - 2 * PAGE_SIZE);
    }
  }

  lemma Aligned(a: nat, b: nat)
    requires a % PAGE_SIZE == 0 && b % PAGE_SIZE == 0 && a < b
    ensures a + PAGE_SIZE <= b
  {
  }

  // ---------------------------------------------------------------- bytes in memory

  /** The byte a load from virtual address `a` reads. */
  function ByteAt(mem: Memory, root: Frame, a: nat): Option<byte> {
    var f := Walk(mem, root, PathOf(a));
    if f.Some? && f.value in mem && mem[f.value].Bytes? && a % PAGE_SIZE < |mem[f.value].data|
    then Some(mem[f.value].data[a % PAGE_SIZE]) else None
  }

  lemma ImageByte(mem: Memory, root: Frame, off: Index, pages: seq<PageSpec>, page: PageSpec, a: nat)
    requires Image(mem, root, off, pages) && page in pages && PrivatePage(off, page) && GoodPage(page)
    requires page.addr <= a < page.addr + PAGE_SIZE
    ensures ByteAt(mem, root, a) == Some(page.data[a - page.addr])
  {
    hide Walk, EntryAt, PathOf;
    var i :| 0 <= i < |pages| && pages[i] == page;
    ShowsWalk(mem, root, PagePath(page), page.data, PageFlags(page));
    SamePage(page.addr, a);
  }

  lemma SamePage(page: nat, a: nat)
    requires page % PAGE_SIZE == 0 && page <= a < page + PAGE_SIZE
    ensures PathOf(a) == PathOf(page) && a % PAGE_SIZE == a - page
  {
    assert a / PAGE_SIZE == page / PAGE_SIZE;
  }

  /** Whole pages that hold `n` bytes. */
  function PageCount(n: nat): nat {
    (n + PAGE_SIZE - 1) / PAGE_SIZE
  }

  /** Byte `k` of a planned segment lies in page `k / 4096` of it. */
  lemma SegmentByte(file: seq<byte>, vaddr: nat, memSize: nat, writable: bool, k: nat)
    requires SegmentPlan(file, vaddr, memSize, writable).Pages? && k < PageCount(memSize) * PAGE_SIZE
    ensures var pages := SegmentPlan(file, vaddr, memSize, writable).pages;
            && k / PAGE_SIZE < |pages|
            && var page := pages[k / PAGE_SIZE];
            && page.addr <= vaddr + k < page.addr + PAGE_SIZE && |page.data| == PAGE_SIZE
            && page.writable == writable
            && page.data[vaddr + k - page.addr] == if k < |file| then file[k] else 0
  {
    var pages := SegmentPlan(file, vaddr, memSize, writable).pages;
    var i := k / PAGE_SIZE;
    assert |pages| == PageCount(memSize);
    assert pages[i] == PageSpec(vaddr + i * PAGE_SIZE, PageData(file, i * PAGE_SIZE), writable);
  }

  /** After a successful load of a file with private pages, every byte of every segment page reads as
      the segment's file byte, or as zero beyond the file bytes. */
  lemma LoadedSegmentBytes(s: Phys, s': Phys, active: Frame, off: Index, bytes: seq<byte>, args: seq<byte>,
                           r: LoadOutcome,
                           j: nat, k: nat)
    requires Sound(s, active) && LoadStep(s, s', active, off, bytes, args, r) && r.Loaded?
    requires AllPrivate(off, Plan(bytes, args).0)
    requires var phoff, phentsize, phnum :=
               ReadUint(bytes, 0, 32, 8), ReadUint(bytes, 0, 54, 2), ReadUint(bytes, 0, 56, 2);
             && phoff.Some? && phentsize.Some? && phnum.Some? && j < phnum.value
             && var h := HeaderAt(bytes, phoff.value, phentsize.value, j);
             h.Some? && h.value.Load? && k < PageCount(h.value.memSize) * PAGE_SIZE
    ensures var h := HeaderAt(bytes, ReadUint(bytes, 0, 32, 8).value, ReadUint(bytes, 0, 54, 2).value, j).value;
            ByteAt(s'.mem, r.root, h.vaddr + k) == Some(if k < |h.file| then h.file[k] else 0)
  {
    hide Walk, EntryAt, PathOf, Image, MapPages, ReadUint, HeaderAt, HeaderOk, Plan, Sound, Space, ByteAt;
    AcceptedLoadShowsPlan(s, s', active, off, bytes, args, r);
    var h := HeaderAt(bytes, ReadUint(bytes, 0, 32, 8).value, ReadUint(bytes, 0, 54, 2).value, j).value;
    var page := PlannedByte(bytes, args, j, k);
    var pages := Plan(bytes, args).0;
    var i :| 0 <= i < |pages| && pages[i] == page;
    ImageByte(s'.mem, r.root, off, pages, page, h.vaddr + k);
  }

  /** The page of an accepted plan that holds byte `k` of segment `j`. */
  lemma PlannedByte(bytes: seq<byte>, args: seq<byte>, j: nat, k: nat) returns (page: PageSpec)
    requires Plan(bytes, args).1.Accept?
    requires var phoff, phentsize, phnum :=
               ReadUint(bytes, 0, 32, 8), ReadUint(bytes, 0, 54, 2), ReadUint(bytes, 0, 56, 2);
             && phoff.Some? && phentsize.Some? && phnum.Some? && j < phnum.value
             && var h := HeaderAt(bytes, phoff.value, phentsize.value, j);
             h.Some? && h.value.Load? && k < PageCount(h.value.memSize) * PAGE_SIZE
    ensures page in Plan(bytes, args).0 && GoodPage(page)
    ensures var h := HeaderAt(bytes, ReadUint(bytes, 0, 32, 8).value, ReadUint(bytes, 0, 54, 2).value, j).value;
            && page.addr <= h.vaddr + k < page.addr + PAGE_SIZE && page.writable == h.writable
            && page.data[h.vaddr + k - page.addr] == if k < |h.file| then h.file[k] else 0
  {
    hide ReadUint, HeaderAt, TailPlan, SegmentPlan, PageData, ScanPlan;
    AcceptedLayout(bytes, args);
    var phoff, phentsize, phnum := ReadUint(bytes, 0, 32, 8).value, ReadUint(bytes, 0, 54, 2).value,
        ReadUint(bytes, 0, 56, 2).value;
    var h := HeaderAt(bytes, phoff, phentsize, j).value;
    ScanCovers(bytes, phoff, phentsize, phnum, 0, 0, j);
    SegmentByte(h.file, h.vaddr, h.memSize, h.writable, k);
    page := SegmentPlan(h.file, h.vaddr, h.memSize, h.writable).pages[k / PAGE_SIZE];
    assert page in ScanPlan(bytes, phoff, phentsize, phnum, 0, 0).0;
  }

  /** The stack page reads as zeros and the argument page as the arguments followed by zeros; both
      are above every segment page, with an unmapped page below the stack; the stack is writable and
      the arguments are not. */
  lemma LoadedStackAndArgs(s: Phys, s': Phys, active: Frame, off: Index, bytes: seq<byte>, args: seq<byte>,
                           r: LoadOutcome, k: nat)
    requires Sound(s, active) && LoadStep(s, s', active, off, bytes, args, r) && r.Loaded?
    requires AllPrivate(off, Plan(bytes, args).0) && k < PAGE_SIZE
    ensures r.argsPtr >= 2 * PAGE_SIZE && r.argsPtr - PAGE_SIZE <= r.stackTop < r.argsPtr && r.stackTop % 16 == 0
    ensures ByteAt(s'.mem, r.root, r.argsPtr - PAGE_SIZE + k) == Some(0)
    ensures ByteAt(s'.mem, r.root, r.argsPtr + k) == Some(if k < |args| then args[k] else 0)
    ensures Grants(s'.mem, r.root, PathOf(r.argsPtr - PAGE_SIZE), true)
    ensures Grants(s'.mem, r.root, PathOf(r.argsPtr), false) && !Grants(s'.mem, r.root, PathOf(r.argsPtr), true)
    ensures var guard := PathOf(r.argsPtr - 2 * PAGE_SIZE);
            Private(off, guard) ==> EntryAt(s'.mem, r.root, guard) == UNUSED
  {
    hide Walk, EntryAt, PathOf, MapPages, Plan, PageData, Sound, Space, ByteAt, Grants, Shows;
    AcceptedLoadShowsPlan(s, s', active, off, bytes, args, r);
    AcceptedLayout(bytes, args);
    var pages := Plan(bytes, args).0;
    var n := |pages|;
    var stack, arg := pages[n - 2], pages[n - 1];
    ImageByte(s'.mem, r.root, off, pages, stack, stack.addr + k);
    ImageByte(s'.mem, r.root, off, pages, arg, arg.addr + k);
    ShowsGrants(s'.mem, r.root, PagePath(stack), stack.data, PageFlags(stack), true);
    ShowsGrants(s'.mem, r.root, PagePath(arg), arg.data, PageFlags(arg), true);
    ShowsGrants(s'.mem, r.root, PagePath(arg), arg.data, PageFlags(arg), false);
    var guard := PathOf(r.argsPtr - 2 * PAGE_SIZE);
    assert Listed(s'.mem, r.root, off, pages, guard);
    forall i | 0 <= i < n
      ensures PagePath(pages[i]) != guard
    {
      assert pages[i] in pages;
      DistinctPaths(pages[i].addr, r.argsPtr - 2 * PAGE_SIZE);
    }
  }

  lemma DistinctPaths(a: nat, b: nat)
    requires a < LOW_LIMIT && b < LOW_LIMIT && a % PAGE_SIZE == 0 && b % PAGE_SIZE == 0 && a != b
    ensures PathOf(a) != PathOf(b)
  {
    hide PathOf;
    if PathOf(a) == PathOf(b) {
      PathInjective(a, b);
    }
  }
}
