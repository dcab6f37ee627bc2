/** What a program written as an ELF file becomes: its headers as they stand in the file, against the outcome of
    `elf::load` and the memory it leaves (src/elf.rs). */
module WrittenPrograms {
  import opened Basics
  import opened Frames
  import opened Paging
  import opened Mapping
  import opened AddressSpace
  import opened Ownership
  import opened Elf
  import opened Loader
  import opened LoaderTheorems
  import opened LoaderFailures
  import opened Format

  /** `bytes` starts with the file header `h` and holds the program headers `phs` where `h` puts them. */
  ghost predicate Written(bytes: seq<byte>, h: FileHeader, phs: seq<ProgramHeader>) {
    && FileFits(h) && Holds(bytes, 0, FileFields(h)) && |phs| == h.phnum
    && forall j: nat :: j < |phs| ==> WrittenAt(bytes, h, phs[j], j)
  }

  ghost predicate WrittenAt(bytes: seq<byte>, h: FileHeader, ph: ProgramHeader, j: nat) {
    HeaderFits(ph) && Holds(bytes, h.phoff + j * h.phentsize, HeaderFields(ph))
  }

  lemma HeaderWritten(bytes: seq<byte>, h: FileHeader, phs: seq<ProgramHeader>, j: nat)
    requires Written(bytes, h, phs) && j < |phs|
    ensures var ph := phs[j];
            && HeaderFits(ph)
            && HeaderAt(bytes, h.phoff, h.phentsize, j) ==
                 (if ph.kind != 1 then Some(Skip)
                  else if ph.offset + ph.fileSize > |bytes| then None
                  else Some(Load(bytes[ph.offset..ph.offset + ph.fileSize], ph.vaddr, ph.memSize,
                                 ph.flags / 2 % 2 == 1)))
            && EndOf(bytes, h.phoff, h.phentsize, j) ==
                 (if ph.kind == 1 && ph.offset + ph.fileSize <= |bytes| then Some(ph.vaddr + ph.memSize) else None)
  {
    hide FileFields, HeaderFields, Holds, HeaderAt;
    assert WrittenAt(bytes, h, phs[j], j);
    ProgramHeaderRead(bytes, h.phoff, h.phentsize, j, phs[j]);
  }

  /** `mark` is the greatest end of a loadable segment, or 0 when there is none. */
  ghost predicate GreatestEnd(phs: seq<ProgramHeader>, mark: nat) {
    && (forall j :: 0 <= j < |phs| && phs[j].kind == 1 ==> phs[j].vaddr + phs[j].memSize <= mark)
    && (mark == 0 || exists j :: 0 <= j < |phs| && phs[j].kind == 1 && phs[j].vaddr + phs[j].memSize == mark)
  }

  lemma Headed(bytes: seq<byte>, h: FileHeader, phs: seq<ProgramHeader>)
    requires Written(bytes, h, phs)
    ensures HeaderOk(bytes) <==>
              && h.ident[0..4] == [0x7f, 0x45, 0x4c, 0x46] && h.ident[4] == 2 && h.ident[5] == 1
              && h.kind == 2 && h.machine == 62
    ensures |h.ident| == 16 && |phs| == h.phnum
    ensures ReadUint(bytes, 0, 24, 8) == Some(h.entry) && ReadUint(bytes, 0, 32, 8) == Some(h.phoff)
    ensures ReadUint(bytes, 0, 54, 2) == Some(h.phentsize) && ReadUint(bytes, 0, 56, 2) == Some(h.phnum)
  {
    hide FileFields, Holds, ReadUint, HeaderOk;
    FileHeaderRead(bytes, h);
  }

  // ---------------------------------------------------------------- exactly which files are loaded

  /** An address that `VirtAddr::try_new` takes. */
  predicate AddressOk(a: nat) {
    a < 0x1_0000_0000_0000 || 0xFFFF_8000_0000_0000 <= a < U64_LIMIT
  }

  /** A segment whose bytes are in the file and that can be mapped, with room above it for the unused page, the
      stack and the arguments. */
  predicate SegmentOk(ph: ProgramHeader, size: nat) {
    && ph.offset + ph.fileSize <= size
    && (ph.memSize == 0 || ph.vaddr % 4096 == 0)
    && ph.vaddr + ph.memSize <= 0x7FFF_FFFF_D000
  }

  /** The loader gets past this header. */
  predicate Passing(ph: ProgramHeader, size: nat) {
    ph.kind == 1 ==>
      && ph.offset + ph.fileSize <= size
      && (ph.memSize > 0 ==> ph.vaddr % 4096 == 0 && ph.vaddr + ph.memSize <= 0x8000_0000_0000)
  }

  /** A loadable segment that starts in the lower half and whose last byte is an address beyond it. */
  predicate Crossing(ph: ProgramHeader, size: nat) {
    && ph.kind == 1 && ph.offset + ph.fileSize <= size && ph.memSize > 0 && ph.vaddr % 4096 == 0
    && ph.vaddr < 0x8000_0000_0000 < ph.vaddr + ph.memSize < U64_LIMIT && AddressOk(ph.vaddr + ph.memSize - 1)
  }

  /** The scan gets to its end exactly when it gets past every header. */
  lemma {:induction false} ScanPasses(bytes: seq<byte>, phoff: nat, phentsize: nat, phnum: nat, i: nat, highest: nat)
    ensures ScanPlan(bytes, phoff, phentsize, phnum, i, highest).1.Scanned? <==>
              forall j :: i <= j < phnum ==> Passes(bytes, phoff, phentsize, j)
    decreases phnum - i
  {
    hide HeaderAt, SegmentPlan, Passes, CrossesAt;
    if i < phnum {
      RoundCrashes(bytes, phoff, phentsize, i, highest);
      RoundGood(bytes, phoff, phentsize, i, highest);
      hide HeaderRound;
      var r := HeaderRound(bytes, phoff, phentsize, i, highest);
      if r.Next? {
        ScanPasses(bytes, phoff, phentsize, phnum, i + 1, r.highest);
      }
    }
  }

  lemma TailAccepts(entry: nat, highest: nat, args: seq<byte>)
    ensures TailPlan(entry, highest, args).1.Accept? <==> AddressOk(entry) && highest <= 0x7FFF_FFFF_D000
  {
    AlignUpIs(highest);
    hide AlignUp;
    if AlignUp(highest).Some? {
      RoundedBelow(AlignUp(highest).value, highest);
    }
  }

  lemma RoundedBelow(up: nat, highest: nat)
    requires up % 4096 == 0 && highest <= up < highest + 4096
    ensures up <= 0x7FFF_FFFF_D000 <==> highest <= 0x7FFF_FFFF_D000
  {
    var q := up / 4096;
    assert up == 4096 * q && 0x7FFF_FFFF_D000 == 4096 * 0x7_FFFF_FFFD;
  }

  lemma PassesWhen(bytes: seq<byte>, h: FileHeader, phs: seq<ProgramHeader>, j: nat)
    requires Written(bytes, h, phs) && j < |phs|
    ensures Passes(bytes, h.phoff, h.phentsize, j) <==> Passing(phs[j], |bytes|)
    ensures CrossesAt(bytes, h.phoff, h.phentsize, j) <==> Crossing(phs[j], |bytes|)
  {
    HeaderWritten(bytes, h, phs, j);
    hide HeaderAt, Written;
  }

  /** A written file is accepted exactly when its entry point is an address and each loadable segment is mapped
      at a page boundary, with room above it in the lower half. */
  lemma AcceptedExactly(bytes: seq<byte>, args: seq<byte>, h: FileHeader, phs: seq<ProgramHeader>)
    requires Written(bytes, h, phs)
    ensures Plan(bytes, args).1.Accept? <==>
              AddressOk(h.entry) && forall j :: 0 <= j < |phs| && phs[j].kind == 1 ==> SegmentOk(phs[j], |bytes|)
  {
    hide ReadUint, ScanPlan, TailPlan, Passes, Written, HeaderAt, EndOf;
    Headed(bytes, h, phs);
    ScanPasses(bytes, h.phoff, h.phentsize, h.phnum, 0, 0);
    forall j: nat | j < |phs|
      ensures Passes(bytes, h.phoff, h.phentsize, j) <==> Passing(phs[j], |bytes|)
      ensures EndOf(bytes, h.phoff, h.phentsize, j) ==
                if phs[j].kind == 1 && phs[j].offset + phs[j].fileSize <= |bytes|
                then Some(phs[j].vaddr + phs[j].memSize) else None
    {
      PassesWhen(bytes, h, phs, j);
      HeaderWritten(bytes, h, phs, j);
    }
    var end := ScanPlan(bytes, h.phoff, h.phentsize, h.phnum, 0, 0).1;
    if end.Scanned? {
      ScanMark(bytes, h.phoff, h.phentsize, h.phnum, 0, 0);
      TailAccepts(h.entry, end.highest, args);
    }
  }

  /** The plan of a written file panics exactly when the first header the loader does not get past is a crossing
      one. */
  lemma PanicsExactly(bytes: seq<byte>, args: seq<byte>, h: FileHeader, phs: seq<ProgramHeader>)
    requires Written(bytes, h, phs)
    ensures Plan(bytes, args).1.Panic? <==>
              exists j ::
                && 0 <= j < |phs| && Crossing(phs[j], |bytes|)
                && forall k :: 0 <= k < j ==> Passing(phs[k], |bytes|)
  {
    PlanPanics(bytes, args);
    Headed(bytes, h, phs);
    hide ReadUint, Plan, Passes, CrossesAt, Written, Passing, Crossing;
    forall j: nat | j < |phs|
      ensures Passes(bytes, h.phoff, h.phentsize, j) <==> Passing(phs[j], |bytes|)
      ensures CrossesAt(bytes, h.phoff, h.phentsize, j) <==> Crossing(phs[j], |bytes|)
    {
      PassesWhen(bytes, h, phs, j);
    }
  }

  /** With frames enough, a written file is loaded exactly when it is a 64-bit little-endian x86-64 executable
      that is accepted, its pages differ and none clashes with what a shared slot already maps. */
  lemma LoadedExactly(s: Phys, s': Phys, active: Frame, off: Index, bytes: seq<byte>, args: seq<byte>, r: LoadOutcome,
                      h: FileHeader, phs: seq<ProgramHeader>)
    requires Sound(s, active) && |s.pool| >= 1 + 4 * |Plan(bytes, args).0| && Written(bytes, h, phs)
    requires LoadStep(s, s', active, off, bytes, args, r)
    ensures r.Loaded? <==>
              && h.ident[0..4] == [0x7f, 0x45, 0x4c, 0x46] && h.ident[4] == 2 && h.ident[5] == 1
              && h.kind == 2 && h.machine == 62 && AddressOk(h.entry)
              && (forall j :: 0 <= j < |phs| && phs[j].kind == 1 ==> SegmentOk(phs[j], |bytes|))
              && DistinctPages(Plan(bytes, args).0) && !Clashes(s.mem, active, off, Plan(bytes, args).0)
  {
    hide Plan, HeaderOk, MapPages, NewSpace, Sound, Returned, DistinctPages, Clashes, CrossingFile, Written;
    Headed(bytes, h, phs);
    AcceptedExactly(bytes, args, h, phs);
    PanicCauses(s, active, off, bytes, args);
    PlanPanics(bytes, args);
  }

  // ---------------------------------------------------------------- what a loaded file becomes

  /** Once a file is loaded it was a 64-bit little-endian x86-64 executable; the program starts at the file's
      entry point, sign-extended if it is an address of 48 bits, and an entry point that is no address is
      never accepted; the stack lies above an unused page above the greatest segment end, rounded up to a
      page, and the arguments follow it. */
  lemma LoadedAsWritten(s: Phys, s': Phys, active: Frame, off: Index, bytes: seq<byte>, args: seq<byte>, r: LoadOutcome,
                        h: FileHeader, phs: seq<ProgramHeader>) returns (mark: nat)
    requires LoadStep(s, s', active, off, bytes, args, r) && r.Loaded? && Written(bytes, h, phs)
    ensures h.ident[0..4] == [0x7f, 0x45, 0x4c, 0x46] && h.ident[4] == 2 && h.ident[5] == 1
    ensures h.kind == 2 && h.machine == 62
    ensures h.entry < 0x1_0000_0000_0000 || h.entry >= 0xFFFF_8000_0000_0000
    ensures r.entry ==
              if 0x8000_0000_0000 <= h.entry < 0x1_0000_0000_0000 then h.entry + 0xFFFF_0000_0000_0000 else h.entry
    ensures GreatestEnd(phs, mark) && r.argsPtr % 4096 == 0 && mark <= r.argsPtr - 8192 < mark + 4096
    ensures r.stackTop == r.argsPtr - 16 && r.argsLen == |args|
  {
    hide FileFields, Holds, ReadUint, ScanPlan, TailPlan, MapPages, HeaderOk, Written, GreatestEnd;
    Headed(bytes, h, phs);
    mark := MarkWritten(bytes, h, phs, args);
    EntryWritten(h.entry, mark, args);
    TailLayout(h.entry, mark, args);
  }

  lemma MarkWritten(bytes: seq<byte>, h: FileHeader, phs: seq<ProgramHeader>, args: seq<byte>) returns (mark: nat)
    requires Written(bytes, h, phs) && Plan(bytes, args).1.Accept?
    ensures GreatestEnd(phs, mark) && TailPlan(h.entry, mark, args).1 == Plan(bytes, args).1
  {
    AcceptedExactly(bytes, args, h, phs);
    hide FileFields, Holds, ReadUint, ScanPlan, TailPlan, HeaderAt, EndOf;
    Headed(bytes, h, phs);
    ScanMark(bytes, h.phoff, h.phentsize, h.phnum, 0, 0);
    mark := ScanPlan(bytes, h.phoff, h.phentsize, h.phnum, 0, 0).1.highest;
    forall j: nat | j < |phs|
      ensures EndOf(bytes, h.phoff, h.phentsize, j)
           == if phs[j].kind == 1 then Some(phs[j].vaddr + phs[j].memSize) else None
    {
      HeaderWritten(bytes, h, phs, j);
    }
  }

  lemma EntryWritten(entry: nat, highest: nat, args: seq<byte>)
    requires TailPlan(entry, highest, args).1.Accept?
    ensures TryNew(entry) == Some(TailPlan(entry, highest, args).1.entry)
  {
    hide SegmentPlan, AlignUp, TryNew;
  }

  /** Every byte of a loadable segment reads as the file has it, or as zero beyond the file bytes, up to the end of
      its last page; ring 3 may write it exactly when the header's flags have the write bit. */
  lemma SegmentAsWritten(s: Phys, s': Phys, active: Frame, off: Index, bytes: seq<byte>, args: seq<byte>,
                         r: LoadOutcome, h: FileHeader, phs: seq<ProgramHeader>, j: nat, k: nat)
    requires Sound(s, active) && LoadStep(s, s', active, off, bytes, args, r) && r.Loaded?
    requires Written(bytes, h, phs) && AllPrivate(off, Plan(bytes, args).0)
    requires j < |phs| && phs[j].kind == 1 && k < (phs[j].memSize + 4095) / 4096 * 4096
    ensures var ph := phs[j];
            && ph.offset + ph.fileSize <= |bytes|
            && ByteAt(s'.mem, r.root, ph.vaddr + k) == Some(if k < ph.fileSize then bytes[ph.offset + k] else 0)
            && Grants(s'.mem, r.root, PathOf(ph.vaddr + k), false)
            && (Grants(s'.mem, r.root, PathOf(ph.vaddr + k), true) <==> ph.flags / 2 % 2 == 1)
  {
    hide Written, Plan, ReadUint, HeaderAt, MapPages, HeaderOk, Sound, ByteAt, PathOf, Walk, EntryAt, Grants,
         AllPrivate,
         Image, Space;
    Headed(bytes, h, phs);
    AcceptedExactly(bytes, args, h, phs);
    HeaderWritten(bytes, h, phs, j);
    LoadedSegmentBytes(s, s', active, off, bytes, args, r, j, k);
    var page := PlannedByte(bytes, args, j, k);
    AcceptedLoadShowsPlan(s, s', active, off, bytes, args, r);
    PageRights(s'.mem, r.root, off, Plan(bytes, args).0, page, phs[j].vaddr + k);
  }

  lemma PageRights(mem: Memory, root: Frame, off: Index, pages: seq<PageSpec>, page: PageSpec, a: nat)
    requires Image(mem, root, off, pages) && AllPrivate(off, pages) && page in pages && GoodPage(page)
    requires page.addr <= a < page.addr + PAGE_SIZE
    ensures Grants(mem, root, PathOf(a), false) && (Grants(mem, root, PathOf(a), true) <==> page.writable)
  {
    hide PathOf, Walk, EntryAt, Shows, Grants;
    var i :| 0 <= i < |pages| && pages[i] == page;
    SamePage(page.addr, a);
    ShowsGrants(mem, root, PagePath(page), page.data, PageFlags(page), false);
    ShowsGrants(mem, root, PagePath(page), page.data, PageFlags(page), true);
  }
}
