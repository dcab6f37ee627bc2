/** The pure half of src/elf.rs: which pages a byte string asks for, and what the loader decides.
    A plan lists every page mapped before the decision, so a rejected file has one too. */
module Elf {
  import opened Basics
  import opened Frames
  import opened Paging
  import Bits

  const ET_EXEC := 2
  const EM_X86_64 := 0x3e
  const PT_LOAD := 1

  function LittleEndian(bs: seq<byte>): nat {
    if bs == [] then 0 else bs[0] + 256 * LittleEndian(bs[1..])
  }

  /** `read_u16`, `read_u32`, `read_u64` with `n` = 2, 4, 8. */
  function ReadUint(bytes: seq<byte>, base: nat, offset: nat, n: nat): (r: Option<nat>)
    ensures r.Some? <==> base + offset + n <= |bytes| && base + offset + n < U64_LIMIT
    ensures r.Some? ==> r.value == LittleEndian(bytes[base + offset..base + offset + n])
  {
    var start := CheckedAdd(base, offset);
    if start.None? then None
    else
      var end := CheckedAdd(start.value, n);
      if end.None? || end.value > |bytes| then None
      else Some(LittleEndian(bytes[start.value..end.value]))
  }

  /** `align_up` to a page: add, then clear the low bits. */
  function AlignUp(addr: nat): Option<nat> {
    var sum := CheckedAdd(addr, PAGE_SIZE - 1);
    if sum.None? then None else Some(Bits.And(sum.value, U64_LIMIT - PAGE_SIZE))
  }

  lemma AlignUpIs(addr: nat)
    ensures AlignUp(addr).Some? ==>
              && AlignUp(addr).value % PAGE_SIZE == 0 && addr <= AlignUp(addr).value < addr + PAGE_SIZE
    ensures AlignUp(addr).Some? <==> addr + 4095 < U64_LIMIT
  {
    var sum := addr + 4095;
    if sum < U64_LIMIT {
      hide Bits.And;
      ClearPage(sum);
      RoundDown(sum);
    }
  }

  lemma {:induction false} ClearPage(n: nat)
    requires n < U64_LIMIT
    ensures Bits.And(n, U64_LIMIT - 4096) == n - n % 4096
  {
    hide Bits.Pow2, Bits.And;
    Bits.Pow2Values();
    Bits.AndHighMask(n, 12, 64);
  }

  lemma RoundDown(n: nat)
    ensures (n - n % 4096) % 4096 == 0
  {
  }

  /** One page to be mapped for ring 3: its address and its 4096 bytes. */
  datatype PageSpec = PageSpec(addr: nat, data: seq<byte>, writable: bool)

  function Zeros(n: nat): (z: seq<byte>)
    ensures |z| == n && forall i :: 0 <= i < n ==> z[i] == 0
  {
    seq(n, i => 0)
  }

  /** The page at offset `at` of a segment: file bytes while there are any, then zeros. */
  function PageData(file: seq<byte>, at: nat): (d: seq<byte>)
    ensures |d| == PAGE_SIZE
    ensures forall k :: 0 <= k < PAGE_SIZE ==> d[k] == if at + k < |file| then file[at + k] else 0
  {
    if at < |file| then
      var copy := if |file| - at < PAGE_SIZE then |file| - at else PAGE_SIZE;
      file[at..at + copy] + Zeros(PAGE_SIZE - copy)
    else Zeros(PAGE_SIZE)
  }

  /** A segment that starts in the lower half and whose last byte is an address beyond it: the page count
      then spans the non-canonical gap, and counting pages up from the start runs into it, if frames do
      not run out before. */
  predicate Crosses(vaddr: nat, memSize: nat) {
    && memSize > 0 && vaddr % PAGE_SIZE == 0 && vaddr < LOW_LIMIT <= vaddr + memSize - 1
    && vaddr + memSize < U64_LIMIT && TryNew(vaddr + memSize - 1).Some?
  }

  /** A segment that is not page-aligned, starts in the upper half, overflows, or ends at no address. */
  predicate Refused(vaddr: nat, memSize: nat) {
    && memSize > 0
    && (|| vaddr % PAGE_SIZE != 0 || vaddr >= LOW_LIMIT || vaddr + memSize >= U64_LIMIT
        || SIGN_LIMIT <= vaddr + memSize - 1 < HIGH_BASE)
  }

  /** What `map_segment` does with its arguments. `Crash` stands for the panics of a segment that crosses
      the end of the lower half. */
  datatype Segment = Pages(pages: seq<PageSpec>) | Reject | Crash

  function SegmentPlan(file: seq<byte>, vaddr: nat, memSize: nat, writable: bool): (r: Segment)
    ensures r.Pages? && memSize > 0 ==>
              && vaddr % PAGE_SIZE == 0 && vaddr + memSize <= LOW_LIMIT
              && |r.pages| * PAGE_SIZE >= memSize && (|r.pages| - 1) * PAGE_SIZE < memSize
    ensures r.Pages? && memSize == 0 ==> r.pages == []
    ensures r.Crash? <==> Crosses(vaddr, memSize)
    ensures r.Reject? <==> Refused(vaddr, memSize)
    ensures r.Pages? ==> forall i :: 0 <= i < |r.pages| ==>
              r.pages[i] == PageSpec(vaddr + i * PAGE_SIZE, PageData(file, i * PAGE_SIZE), writable)
  {
    if memSize == 0 then Pages([])
    else if vaddr % PAGE_SIZE != 0 || vaddr >= LOW_LIMIT then Reject
    else
      var end := CheckedAdd(vaddr, memSize);
      if end.None? || TryNew(end.value - 1).None? then Reject
      else if end.value - 1 >= LOW_LIMIT then Crash
      else
        var count := (end.value - 1) / PAGE_SIZE - vaddr / PAGE_SIZE + 1;
        Pages(seq(count, i requires 0 <= i => PageSpec(vaddr + i * PAGE_SIZE, PageData(file, i * PAGE_SIZE), writable)))
  }

  /** The fields of one program header that the loader reads. */
  datatype Header = Skip | Load(file: seq<byte>, vaddr: nat, memSize: nat, writable: bool)

  /** Header `i` of the program header table, or None where the loader gives up. */
  function HeaderAt(bytes: seq<byte>, phoff: nat, phentsize: nat, i: nat): (r: Option<Header>)
  {
    if i * phentsize >= U64_LIMIT then None else
    var ph := CheckedAdd(phoff, i * phentsize);
    if ph.None? then None else
    var kind := ReadUint(bytes, ph.value, 0, 4);
    if kind.None? then None else
    if kind.value != PT_LOAD then Some(Skip) else
    var flags := ReadUint(bytes, ph.value, 4, 4);
    var offset := ReadUint(bytes, ph.value, 8, 8);
    var vaddr := ReadUint(bytes, ph.value, 16, 8);
    var fileSize := ReadUint(bytes, ph.value, 32, 8);
    var memSize := ReadUint(bytes, ph.value, 40, 8);
    if flags.None? || offset.None? || vaddr.None? || fileSize.None? || memSize.None? then None else
    var fileEnd := CheckedAdd(offset.value, fileSize.value);
    if fileEnd.None? || fileEnd.value > |bytes| then None
    else Some(Load(bytes[offset.value..fileEnd.value], vaddr.value, memSize.value, flags.value / 2 % 2 == 1))
  }

  datatype Scan = Scanned(highest: nat) | ScanRejected | ScanCrashed

  function Max(a: nat, b: nat): nat {
    if a < b then b else a
  }

  /** One round of the loop over program headers: the pages it maps, and either the end of the loop
      or the new high-water mark. */
  datatype Round = Stop(pages: seq<PageSpec>, end: Scan) | Next(pages: seq<PageSpec>, highest: nat)

  function HeaderRound(bytes: seq<byte>, phoff: nat, phentsize: nat, i: nat, highest: nat): Round {
    match HeaderAt(bytes, phoff, phentsize, i)
    case None => Stop([], ScanRejected)
    case Some(Skip) => Next([], highest)
    case Some(Load(file, vaddr, memSize, writable)) =>
      match SegmentPlan(file, vaddr, memSize, writable)
      case Reject => Stop([], ScanRejected)
      case Crash => Stop([], ScanCrashed)
      case Pages(pages) =>
        var end := CheckedAdd(vaddr, memSize);
        if end.None? then Stop(pages, ScanRejected) else Next(pages, Max(highest, end.value))
  }

  /** The loop over program headers from `i` on: the pages it maps and how it ends. */
  function ScanPlan(bytes: seq<byte>, phoff: nat, phentsize: nat, phnum: nat, i: nat, highest: nat)
    : (seq<PageSpec>, Scan)
    decreases phnum - i
  {
    if i >= phnum then ([], Scanned(highest))
    else
      match HeaderRound(bytes, phoff, phentsize, i, highest)
      case Stop(pages, end) => (pages, end)
      case Next(pages, next) =>
        var (rest, end) := ScanPlan(bytes, phoff, phentsize, phnum, i + 1, next);
        (pages + rest, end)
  }

  datatype Verdict = Accept(entry: nat, stackTop: nat, argsPtr: nat, argsLen: nat) | Refuse | Panic

  /** What follows the stack page: the entry point and the argument page. */
  function ArgsPlan(entry: nat, stackBottom: nat, args: seq<byte>): (seq<PageSpec>, Verdict) {
    var argsBottom := CheckedAdd(stackBottom, PAGE_SIZE);
    if argsBottom.None? then ([], Refuse) else
    var stackTop, start := TryNew(argsBottom.value - 16), TryNew(entry);
    if stackTop.None? || start.None? then ([], Refuse) else
    var argPages := SegmentPlan(args, argsBottom.value, PAGE_SIZE, false);
    if argPages.Reject? then ([], Refuse) else if argPages.Crash? then ([], Panic) else
    var argsPtr := TryNew(argsBottom.value);
    if argsPtr.None? then (argPages.pages, Refuse)
    else (argPages.pages, Accept(start.value, stackTop.value, argsPtr.value, |args|))
  }

  /** The stack page, the guard page below it, and the argument page above it. */
  function TailPlan(entry: nat, highest: nat, args: seq<byte>): (seq<PageSpec>, Verdict) {
    var top := AlignUp(highest);
    if top.None? then ([], Refuse) else
    var stackBottom := CheckedAdd(top.value, PAGE_SIZE);
    if stackBottom.None? then ([], Refuse) else
    var stack := SegmentPlan([], stackBottom.value, PAGE_SIZE, true);
    if stack.Reject? then ([], Refuse) else if stack.Crash? then ([], Panic) else
    var (rest, verdict) := ArgsPlan(entry, stackBottom.value, args);
    (stack.pages + rest, verdict)
  }

  /** The fixed part of the file header. */
  predicate HeaderOk(bytes: seq<byte>) {
    && |bytes| >= 64
    && bytes[0..4] == [0x7f, 0x45, 0x4c, 0x46] && bytes[4] == 2 && bytes[5] == 1
    && ReadUint(bytes, 0, 16, 2) == Some(ET_EXEC) && ReadUint(bytes, 0, 18, 2) == Some(EM_X86_64)
  }

  /** `load_segments_and_stack`: the pages it maps, in order, and its verdict. */
  function Plan(bytes: seq<byte>, args: seq<byte>): (seq<PageSpec>, Verdict) {
    var entry := ReadUint(bytes, 0, 24, 8);
    var phoff := ReadUint(bytes, 0, 32, 8);
    var phentsize := ReadUint(bytes, 0, 54, 2);
    var phnum := ReadUint(bytes, 0, 56, 2);
    if entry.None? || phoff.None? || phentsize.None? || phnum.None? then ([], Refuse)
    else
      var (pages, end) := ScanPlan(bytes, phoff.value, phentsize.value, phnum.value, 0, 0);
      match end
      case ScanRejected => (pages, Refuse)
      case ScanCrashed => (pages, Panic)
      case Scanned(highest) =>
        var (tail, verdict) := TailPlan(entry.value, highest, args);
        (pages + tail, verdict)
  }
}
