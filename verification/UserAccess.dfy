/** Validated access to a caller's memory: the page walks of src/memory.rs that guard every system call. */
module UserAccess {
  import opened Basics
  import opened Frames
  import opened Paging

  datatype Translation = NotMapped | HugePage | At(physical: nat)

  /** The walk meets a huge page before it ends. */
  ghost predicate MeetsHuge(mem: Memory, root: Frame, p: Path) {
    exists k :: 1 <= k <= |p| && HugeAt(mem, root, p, k)
  }

  predicate HugeAt(mem: Memory, root: Frame, p: Path, k: nat)
    requires 1 <= k <= |p|
  {
    Walk(mem, root, p[..k - 1]).Some? && EntryAt(mem, root, p[..k]).present && EntryAt(mem, root, p[..k]).huge
  }

  /** One step of a walk. */
  lemma {:induction false} NextEntry(mem: Memory, root: Frame, p: Path, k: nat, frame: Frame)
    requires k < |p| && Walk(mem, root, p[..k]) == Some(frame)
    ensures EntryAt(mem, root, p[..k + 1]) == TableAt(mem, frame)[p[k]]
    ensures Walk(mem, root, p[..k + 1]) == Target(TableAt(mem, frame)[p[k]])
    ensures HugeAt(mem, root, p, k + 1) <==> TableAt(mem, frame)[p[k]].present && TableAt(mem, frame)[p[k]].huge
  {
    WalkSnoc(mem, root, p[..k], p[k]);
    assert p[..k] + [p[k]] == p[..k + 1];
  }

  /** `translate_addr_inner`: the frame the four-level walk reaches, plus the page offset. The source panics
      on a huge page. */
  method Translate(mem: Memory, root: Frame, addr: nat) returns (r: Translation)
    ensures r.At? <==> Walk(mem, root, PathOf(addr)).Some?
    ensures r.At? ==> r.physical == Walk(mem, root, PathOf(addr)).value * PAGE_SIZE + addr % PAGE_SIZE
    ensures r.HugePage? <==> MeetsHuge(mem, root, PathOf(addr))
  {
    hide PathOf, Walk, MeetsHuge;
    var found := Follow(mem, root, PathOf(addr));
    r := if found.At? then At(found.physical * PAGE_SIZE + addr % PAGE_SIZE) else found;
  }

  /** The loop of the walk; its result is a frame number. */
  method Follow(mem: Memory, root: Frame, p: Path) returns (r: Translation)
    requires |p| == 4
    ensures r.At? <==> Walk(mem, root, p).Some?
    ensures r.At? ==> r.physical == Walk(mem, root, p).value
    ensures r.HugePage? <==> MeetsHuge(mem, root, p)
  {
    var frame := root;
    var k := 0;
    assert Walk(mem, root, p[..0]) == Some(root);
    hide Walk, EntryAt, TableAt, HugeAt, NoHugeTo, MeetsHuge;
    NoHugeYet(mem, root, p, 0);
    while k < 4
      invariant k <= 4 && Walk(mem, root, p[..k]) == Some(frame) && NoHugeTo(mem, root, p, k)
    {
      NextEntry(mem, root, p, k, frame);
      var entry := TableAt(mem, frame)[p[k]];
      if !entry.present {
        Unreached(mem, root, p, k + 1);
        return NotMapped;
      }
      if entry.huge {
        Unreached(mem, root, p, k + 1);
        return HugePage;
      }
      NoHugeYet(mem, root, p, k + 1);
      frame := entry.frame;
      k := k + 1;
    }
    NoHugeAtAll(mem, root, p);
    assert p[..4] == p;
    r := At(frame);
  }

  ghost predicate NoHugeTo(mem: Memory, root: Frame, p: Path, k: nat) {
    forall j :: 1 <= j <= k && j <= |p| ==> !HugeAt(mem, root, p, j)
  }

  lemma NoHugeYet(mem: Memory, root: Frame, p: Path, k: nat)
    requires k <= |p| && (k > 0 ==> NoHugeTo(mem, root, p, k - 1) && !HugeAt(mem, root, p, k))
    ensures NoHugeTo(mem, root, p, k)
  {
    hide HugeAt;
  }

  lemma NoHugeAtAll(mem: Memory, root: Frame, p: Path)
    requires NoHugeTo(mem, root, p, |p|)
    ensures !MeetsHuge(mem, root, p)
  {
    hide HugeAt;
  }

  /** Nothing lies behind an entry that leads nowhere. */
  lemma {:induction false} Unreached(mem: Memory, root: Frame, p: Path, k: nat)
    requires 1 <= k <= |p| && Walk(mem, root, p[..k]).None? && NoHugeTo(mem, root, p, k - 1)
    ensures Walk(mem, root, p).None?
    ensures MeetsHuge(mem, root, p) <==> HugeAt(mem, root, p, k)
  {
    if Walk(mem, root, p).Some? {
      WalkPrefix(mem, root, p, k);
    }
    forall j | k < j <= |p|
      ensures !HugeAt(mem, root, p, j)
    {
      assert p[..j - 1][..k] == p[..k];
      if Walk(mem, root, p[..j - 1]).Some? {
        WalkPrefix(mem, root, p[..j - 1], k);
      }
    }
    hide HugeAt;
  }

  /** `page_accessible`: whether every level of the walk grants the access. */
  method PageAccessible(mem: Memory, root: Frame, addr: nat, write: bool) returns (ok: bool)
    ensures ok <==> Grants(mem, root, PathOf(addr), write)
  {
    hide *;
    ok := PathAccessible(mem, root, PathOf(addr), write);
  }

  method PathAccessible(mem: Memory, root: Frame, p: Path, write: bool) returns (ok: bool)
    requires |p| == 4
    ensures ok <==> Grants(mem, root, p, write)
  {
    var frame := root;
    var k := 0;
    assert Walk(mem, root, p[..0]) == Some(root);
    hide Walk, EntryAt, TableAt, HugeAt, GrantsTo, Grants;
    GrantedYet(mem, root, p, write, 0);
    while k < 4
      invariant k <= 4 && Walk(mem, root, p[..k]) == Some(frame) && GrantsTo(mem, root, p, write, k)
    {
      NextEntry(mem, root, p, k, frame);
      var entry := TableAt(mem, frame)[p[k]];
      if !(entry.present && entry.user && (write ==> entry.writable)) {
        NotGranted(mem, root, p, write, k + 1);
        return false;
      }
      if entry.huge {
        NotGranted(mem, root, p, write, k + 1);
        return false;
      }
      GrantedYet(mem, root, p, write, k + 1);
      frame := entry.frame;
      k := k + 1;
    }
    GrantedAll(mem, root, p, write);
    ok := true;
  }

  ghost predicate GrantsTo(mem: Memory, root: Frame, p: Path, write: bool, k: nat) {
    forall j :: 1 <= j <= k && j <= |p| ==> Permits(EntryAt(mem, root, p[..j]), write)
  }

  lemma {:induction false} GrantedYet(mem: Memory, root: Frame, p: Path, write: bool, k: nat)
    requires k <= |p| && (k > 0 ==> GrantsTo(mem, root, p, write, k - 1) && Permits(EntryAt(mem, root, p[..k]), write))
    ensures GrantsTo(mem, root, p, write, k)
  {
    hide EntryAt;
  }

  lemma {:induction false} GrantedAll(mem: Memory, root: Frame, p: Path, write: bool)
    requires GrantsTo(mem, root, p, write, |p|)
    ensures Grants(mem, root, p, write)
  {
    hide EntryAt;
  }

  lemma {:induction false} NotGranted(mem: Memory, root: Frame, p: Path, write: bool, k: nat)
    requires 1 <= k <= |p| && !Permits(EntryAt(mem, root, p[..k]), write)
    ensures !Grants(mem, root, p, write)
  {
    hide EntryAt;
  }

  // ---------------------------------------------------------------- ranges

  /** Ring 3 may access this byte. */
  predicate ByteGranted(mem: Memory, root: Frame, a: nat, write: bool) {
    Canonical(a) && Grants(mem, root, PathOf(a), write)
  }

  ghost predicate RangeGranted(mem: Memory, root: Frame, addr: nat, len: nat, write: bool) {
    forall a: nat :: addr <= a < addr + len ==> ByteGranted(mem, root, a, write)
  }

  /** `Answer` is the function's result; `Panics` is the construction of an impossible address. */
  datatype Verdict = Answer(ok: bool) | Panics

  /** Every address from `from` to `to` may be accessed, the non-canonical gap between the halves skipped. */
  ghost predicate SpanGranted(mem: Memory, root: Frame, from: nat, to: nat, write: bool) {
    forall a: nat :: from <= a <= to && Canonical(a) ==> ByteGranted(mem, root, a, write)
  }

  /** What checking a range comes to: the span up to its last byte, as an address, is granted. */
  ghost function Check(mem: Memory, root: Frame, addr: nat, len: nat, write: bool): Verdict {
    if len == 0 then Answer(true)
    else if addr + len - 1 >= U64_LIMIT then Answer(false)
    else
      match TryNew(addr + len - 1)
      case None => Panics
      case Some(last) => Answer(SpanGranted(mem, root, addr, last, write))
  }

  /** All bytes of a page get the same answer. */
  lemma PageUniform(mem: Memory, root: Frame, a: nat, write: bool)
    requires Canonical(a)
    ensures Canonical(a / PAGE_SIZE * PAGE_SIZE)
    ensures ByteGranted(mem, root, a, write) <==> Grants(mem, root, PathOf(a / PAGE_SIZE * PAGE_SIZE), write)
  {
    PathOfPage(a);
    hide PathOf, Grants;
  }

  ghost predicate PageGranted(mem: Memory, root: Frame, page: nat, write: bool) {
    Canonical(page * PAGE_SIZE) ==> Grants(mem, root, PathOf(page * PAGE_SIZE), write)
  }

  ghost predicate PagesGranted(mem: Memory, root: Frame, from: nat, to: nat, write: bool) {
    forall page: nat :: from <= page < to ==> PageGranted(mem, root, page, write)
  }

  /** A span is granted exactly when all the pages it touches are. */
  lemma SpanByPages(mem: Memory, root: Frame, from: nat, to: nat, write: bool)
    requires from <= to && Canonical(from) && Canonical(to)
    ensures SpanGranted(mem, root, from, to, write) <==>
            PagesGranted(mem, root, from / PAGE_SIZE, to / PAGE_SIZE + 1, write)
  {
    hide PathOf, Grants, ByteGranted;
    var first, last := from / PAGE_SIZE, to / PAGE_SIZE;
    forall a: nat | from <= a <= to && Canonical(a)
      ensures first <= a / PAGE_SIZE <= last
      ensures ByteGranted(mem, root, a, write) <==> PageGranted(mem, root, a / PAGE_SIZE, write)
    {
      PageUniform(mem, root, a, write);
    }
    if SpanGranted(mem, root, from, to, write) {
      forall page: nat | first <= page < last + 1
        ensures PageGranted(mem, root, page, write)
      {
        var a := if page == first then from else page * PAGE_SIZE;
        assert a / PAGE_SIZE == page && from <= a <= to;
        if Canonical(a) {
          assert ByteGranted(mem, root, a, write);
        }
      }
    }
    if PagesGranted(mem, root, first, last + 1, write) {
      forall a: nat | from <= a <= to && Canonical(a)
        ensures ByteGranted(mem, root, a, write)
      {
        assert PageGranted(mem, root, a / PAGE_SIZE, write);
      }
    }
  }

  lemma PageOrder(a: nat, b: nat)
    requires Canonical(a) && Canonical(b) && a <= b
    ensures Canonical(a / PAGE_SIZE * PAGE_SIZE) && Canonical(b / PAGE_SIZE * PAGE_SIZE)
    ensures a / PAGE_SIZE <= b / PAGE_SIZE
  {
  }

  /** `user_range_mapped`. */
  method UserRangeMapped(mem: Memory, root: Frame, addr: nat, len: nat, write: bool) returns (r: Verdict)
    requires Canonical(addr) && len < U64_LIMIT
    ensures r == Check(mem, root, addr, len, write)
  {
    if len == 0 {
      return Answer(true);
    }
    var lastByte := addr + len - 1;
    if lastByte >= U64_LIMIT {
      return Answer(false);
    }
    var last := TryNew(lastByte);
    if last.None? {
      return Panics;
    }
    hide PathOf, Grants, ByteGranted, PagesGranted, SpanGranted, TryNew, Canonical;
    var ok := CheckSpan(mem, root, addr, last.value, write);
    r := Answer(ok);
  }

  method CheckSpan(mem: Memory, root: Frame, from: nat, to: nat, write: bool) returns (ok: bool)
    requires Canonical(from) && Canonical(to) && from <= to
    ensures ok == SpanGranted(mem, root, from, to, write)
  {
    hide PathOf, Grants, ByteGranted, PagesGranted, SpanGranted, Canonical;
    PageOrder(from, to);
    SpanByPages(mem, root, from, to, write);
    ok := CheckPages(mem, root, from / PAGE_SIZE, to / PAGE_SIZE, write);
  }

  /** The page loop of `user_range_mapped`. Stepping to the next page never panics: from the last page of the
      lower half it lands, sign-extended, on the first page of the upper half. */
  method CheckPages(mem: Memory, root: Frame, first: nat, last: nat, write: bool) returns (ok: bool)
    requires first <= last && Canonical(first * PAGE_SIZE) && Canonical(last * PAGE_SIZE)
    ensures ok == PagesGranted(mem, root, first, last + 1, write)
  {
    hide PathOf, Grants;
    var page := first;
    while true
      invariant first <= page <= last && PagesGranted(mem, root, first, page, write)
      invariant Canonical(page * PAGE_SIZE)
      decreases last - page
    {
      var granted := PageAccessible(mem, root, page * PAGE_SIZE, write);
      if !granted {
        assert !PageGranted(mem, root, page, write);
        return false;
      }
      assert PageGranted(mem, root, page, write);
      if page == last {
        return true;
      }
      var next := TryNew((page + 1) * PAGE_SIZE).value / PAGE_SIZE;
      PageStep(page, last);
      page := next;
    }
  }

  /** Between a page and the next one there is no other page. */
  lemma PageStep(page: nat, last: nat)
    requires page < last && Canonical(page * PAGE_SIZE) && Canonical(last * PAGE_SIZE)
    ensures TryNew((page + 1) * PAGE_SIZE).Some?
    ensures var next := TryNew((page + 1) * PAGE_SIZE).value / PAGE_SIZE;
            && page < next <= last && Canonical(next * PAGE_SIZE)
            && forall p :: page < p < next ==> !Canonical(p * PAGE_SIZE)
  {
  }

  // ---------------------------------------------------------------- when the check is right

  /** A range inside one half of the address space. */
  predicate OneHalf(addr: nat, len: nat) {
    addr + len <= LOW_LIMIT || (HIGH_BASE <= addr && addr + len <= U64_LIMIT)
  }

  /** The check panics exactly when the last byte is no address. */
  lemma CheckPanicsWhen(mem: Memory, root: Frame, addr: nat, len: nat, write: bool)
    requires Canonical(addr)
    ensures Check(mem, root, addr, len, write).Panics? <==> len > 0 && SIGN_LIMIT <= addr + len - 1 < HIGH_BASE
  {
    hide SpanGranted;
  }

  /** Where it does not panic, the check says whether ring 3 may access every byte, except exactly when the
      range crosses the end of the lower half and both the rest of that half and the part of the upper half
      up to the sign-extended last byte are granted: then it says yes, although the range contains bytes
      without an address. */
  lemma CheckRight(mem: Memory, root: Frame, addr: nat, len: nat, write: bool)
    requires Canonical(addr) && !Check(mem, root, addr, len, write).Panics?
    ensures Check(mem, root, addr, len, write) == Answer(RangeGranted(mem, root, addr, len, write)) <==>
            !(len > 0 && addr < LOW_LIMIT <= addr + len - 1 < U64_LIMIT
              && SpanGranted(mem, root, addr, LOW_LIMIT - 1, write)
              && SpanGranted(mem, root, HIGH_BASE, TryNew(addr + len - 1).value, write))
  {
    hide PathOf, Grants;
    if len > 0 {
      var lastByte := addr + len - 1;
      if lastByte >= U64_LIMIT {
        assert !ByteGranted(mem, root, lastByte, write);
      } else if addr < LOW_LIMIT <= lastByte {
        assert !ByteGranted(mem, root, LOW_LIMIT, write);
        hide ByteGranted;
        SpanSplits(mem, root, addr, TryNew(lastByte).value, write);
      } else {
        HalfIsSpan(mem, root, addr, len, write);
      }
    }
  }

  lemma HalfIsSpan(mem: Memory, root: Frame, addr: nat, len: nat, write: bool)
    requires len > 0 && OneHalf(addr, len)
    ensures RangeGranted(mem, root, addr, len, write) <==> SpanGranted(mem, root, addr, addr + len - 1, write)
  {
    hide ByteGranted;
  }

  lemma SpanSplits(mem: Memory, root: Frame, addr: nat, last: nat, write: bool)
    requires addr < LOW_LIMIT && HIGH_BASE <= last < U64_LIMIT
    ensures SpanGranted(mem, root, addr, last, write) <==>
            SpanGranted(mem, root, addr, LOW_LIMIT - 1, write) && SpanGranted(mem, root, HIGH_BASE, last, write)
  {
    hide ByteGranted;
  }

  /** Once a range has been found accessible, every shorter range at the same address is found accessible
      too, exactly when the range ends within 48 bits or starts in the upper half; the kernel's own calls,
      of at most 1024 bytes, always do. */
  lemma RecheckSucceeds(mem: Memory, root: Frame, addr: nat, len: nat, write: bool)
    requires Canonical(addr) && Check(mem, root, addr, len, write) == Answer(true)
    ensures (forall part :: 0 <= part <= len ==> Check(mem, root, addr, part, write) == Answer(true)) <==>
            !(addr < LOW_LIMIT && addr + len - 1 >= SIGN_LIMIT)
  {
    hide ByteGranted;
    if addr < LOW_LIMIT && addr + len - 1 >= SIGN_LIMIT {
      var part := SIGN_LIMIT - addr + 1;
      assert Check(mem, root, addr, part, write) == Panics;
    } else {
      forall part | 0 <= part <= len
        ensures Check(mem, root, addr, part, write) == Answer(true)
      {
        if part > 0 {
          ShorterSpan(mem, root, addr, TryNew(addr + part - 1).value, TryNew(addr + len - 1).value, write);
        }
      }
    }
  }

  lemma ShorterSpan(mem: Memory, root: Frame, from: nat, to: nat, further: nat, write: bool)
    requires SpanGranted(mem, root, from, further, write) && to <= further
    ensures SpanGranted(mem, root, from, to, write)
  {
    hide ByteGranted;
  }

  // ---------------------------------------------------------------- user_range_ok

  /** `user_range_ok`: null is refused, and so is a pointer that is no address; any other is checked as the
      address it is sign-extended to. */
  ghost function Usable(mem: Memory, root: Frame, ptr: nat, len: nat, write: bool): Verdict {
    if ptr == 0 then Answer(false)
    else
      match TryNew(ptr)
      case None => Answer(false)
      case Some(addr) => Check(mem, root, addr, len, write)
  }

  method UserRangeOk(mem: Memory, root: Frame, ptr: nat, len: nat, write: bool) returns (r: Verdict)
    requires len < U64_LIMIT
    ensures r == Usable(mem, root, ptr, len, write)
  {
    if ptr == 0 {
      return Answer(false);
    }
    var addr := TryNew(ptr);
    if addr.None? {
      return Answer(false);
    }
    r := UserRangeMapped(mem, root, addr.value, len, write);
  }

  /** A null pointer and a pointer of more than 48 bits that is no address are refused whatever the length, and an
      empty range at any other pointer is accepted. */
  lemma RefusedPointers(mem: Memory, root: Frame, ptr: nat, len: nat, write: bool)
    ensures ptr == 0 || 0x1_0000_0000_0000 <= ptr < 0xFFFF_8000_0000_0000 ==>
              Usable(mem, root, ptr, len, write) == Answer(false)
    ensures 0 < ptr < 0x1_0000_0000_0000 || 0xFFFF_8000_0000_0000 <= ptr < U64_LIMIT ==>
              Usable(mem, root, ptr, 0, write) == Answer(true)
  {
    hide SpanGranted;
  }

  /** Ranges of at most 2^47 bytes, hence all that the system calls check, never make the check panic. */
  lemma ShortChecksAnswer(mem: Memory, root: Frame, ptr: nat, len: nat, write: bool)
    requires len <= LOW_LIMIT
    ensures Usable(mem, root, ptr, len, write).Answer?
  {
    hide SpanGranted;
  }

  /** No address of the upper half is open to ring 3. */
  ghost predicate UpperClosed(mem: Memory, root: Frame, write: bool) {
    forall a: nat :: HIGH_BASE <= a < U64_LIMIT ==> !ByteGranted(mem, root, a, write)
  }

  /** For a pointer and a length the system calls can pass, the answer is whether ring 3 may access every byte
      of the raw range, except exactly when the pointer itself, or the end of the range, lies in
      [2^47, 2^48) and the addresses they are sign-extended to are granted. */
  lemma UsableRight(mem: Memory, root: Frame, ptr: nat, len: nat, write: bool)
    requires ptr != 0 && 0 < len <= LOW_LIMIT
    ensures Usable(mem, root, ptr, len, write) == Answer(RangeGranted(mem, root, ptr, len, write)) <==>
            !(|| (ptr < LOW_LIMIT < ptr + len && SpanGranted(mem, root, ptr, LOW_LIMIT - 1, write)
                  && SpanGranted(mem, root, HIGH_BASE, TryNew(ptr + len - 1).value, write))
              || (LOW_LIMIT <= ptr < SIGN_LIMIT && TryNew(ptr).value + len <= U64_LIMIT
                  && SpanGranted(mem, root, TryNew(ptr).value, TryNew(ptr).value + len - 1, write)))
  {
    hide PathOf, Grants;
    if Canonical(ptr) {
      hide ByteGranted;
      CheckPanicsWhen(mem, root, ptr, len, write);
      CheckRight(mem, root, ptr, len, write);
    } else {
      assert !ByteGranted(mem, root, ptr, write);
    }
  }

  /** With the upper half closed to ring 3 the answer is always right. */
  lemma UsableRightWhenClosed(mem: Memory, root: Frame, ptr: nat, len: nat, write: bool)
    requires UpperClosed(mem, root, write) && ptr != 0 && 0 < len <= LOW_LIMIT
    ensures Usable(mem, root, ptr, len, write) == Answer(RangeGranted(mem, root, ptr, len, write))
  {
    UsableRight(mem, root, ptr, len, write);
    hide ByteGranted;
    forall from: nat, to: nat | HIGH_BASE <= from <= to < U64_LIMIT
      ensures !SpanGranted(mem, root, from, to, write)
    {
      assert !ByteGranted(mem, root, from, write);
    }
  }

  /** What an accepted copy can rely on: if the raw bytes all have addresses, they are granted. */
  lemma AddressableUsable(mem: Memory, root: Frame, ptr: nat, len: nat, write: bool)
    requires len > 0 && OneHalf(ptr, len) && Usable(mem, root, ptr, len, write) == Answer(true)
    ensures RangeGranted(mem, root, ptr, len, write)
  {
    hide ByteGranted;
    CheckRight(mem, root, ptr, len, write);
  }

  /** An accepted range stays accepted for a shorter copy. */
  lemma UsablePart(mem: Memory, root: Frame, ptr: nat, len: nat, part: nat, write: bool)
    requires Usable(mem, root, ptr, len, write) == Answer(true) && part <= len <= LOW_LIMIT
    ensures Usable(mem, root, ptr, part, write) == Answer(true)
  {
    hide Check;
    RecheckSucceeds(mem, root, TryNew(ptr).value, len, write);
  }

  // ---------------------------------------------------------------- a check that is wrong

  /** A table all of whose entries lead back to itself, open to ring 3. */
  function OpenTable(): Entries {
    seq(512, i => Entry(0, true, true, true, false))
  }

  lemma {:induction false} OpenWalk(p: Path)
    ensures Walk(map[0 := Table(OpenTable())], 0, p) == Some(0)
  {
    if p != [] {
      OpenWalk(p[..|p| - 1]);
    }
  }

  lemma OpenGrants(p: Path, write: bool)
    ensures Grants(map[0 := Table(OpenTable())], 0, p, write)
  {
    var mem := map[0 := Table(OpenTable())];
    forall k | 1 <= k <= |p|
      ensures Permits(EntryAt(mem, 0, p[..k]), write)
    {
      OpenWalk(p[..k][..k - 1]);
    }
  }

  /** Two bytes at the end of the lower half: where the pages on both sides of the gap are open, the check
      accepts them, although the second one has no address. */
  lemma EndOfLowerHalfMisleads(write: bool)
    ensures var mem := map[0 := Table(OpenTable())];
            && Usable(mem, 0, LOW_LIMIT - 1, 2, write) == Answer(true)
            && !RangeGranted(mem, 0, LOW_LIMIT - 1, 2, write)
  {
    var mem := map[0 := Table(OpenTable())];
    assert !ByteGranted(mem, 0, LOW_LIMIT, write);
    forall a: nat | Canonical(a)
      ensures ByteGranted(mem, 0, a, write)
    {
      OpenGrants(PathOf(a), write);
    }
  }
}
