/** Four-level page tables (Intel SDM volume 3A, section 4.5) held in physical memory, and the walks
    of src/memory.rs over them. A table slot is named by the path of indices that leads to it from
    the L4 root, so every statement below is about paths. */
module Paging {
  import opened Basics
  import opened Frames

  type Index = i: int | 0 <= i < 512

  type Path = seq<Index>

  datatype Entry = Entry(frame: Frame, present: bool, writable: bool, user: bool, huge: bool)

  const UNUSED: Entry := Entry(0, false, false, false, false)

  type Entries = s: seq<Entry> | |s| == 512 witness seq(512, i => UNUSED)

  /** `PageTable::new`. */
  function EmptyTable(): (t: Entries)
    ensures forall i :: 0 <= i < 512 ==> t[i] == UNUSED
  {
    seq(512, i => UNUSED)
  }

  datatype Content = Table(entries: Entries) | Bytes(data: seq<byte>)

  type Memory = map<Frame, Content>

  /** `table_at`: the frame read as a page table. */
  function TableAt(mem: Memory, f: Frame): Entries {
    if f in mem && mem[f].Table? then mem[f].entries else EmptyTable()
  }

  /** `PageTableEntry::frame`: the frame an entry leads to, unless absent or a huge page. */
  function Target(e: Entry): Option<Frame> {
    if e.present && !e.huge then Some(e.frame) else None
  }

  /** The frame reached from `root` by following `p`. */
  function Walk(mem: Memory, root: Frame, p: Path): Option<Frame> {
    if p == [] then Some(root)
    else
      var t := Walk(mem, root, p[..|p| - 1]);
      if t.None? then None else Target(TableAt(mem, t.value)[p[|p| - 1]])
  }

  /** The entry at the end of `p`; a slot in a table that does not exist reads as unused. */
  function EntryAt(mem: Memory, root: Frame, p: Path): Entry
    requires p != []
  {
    var t := Walk(mem, root, p[..|p| - 1]);
    if t.None? then UNUSED else TableAt(mem, t.value)[p[|p| - 1]]
  }

  predicate Permits(e: Entry, write: bool) {
    e.present && e.user && (write ==> e.writable) && !e.huge
  }

  /** Ring 3 may use the slot at `p`: every entry on the way grants it (Intel SDM volume 3A,
      section 4.6). */
  predicate Grants(mem: Memory, root: Frame, p: Path, write: bool) {
    forall k :: 1 <= k <= |p| ==> Permits(EntryAt(mem, root, p[..k]), write)
  }

  lemma {:induction false} WalkSnoc(mem: Memory, root: Frame, p: Path, i: Index)
    ensures Walk(mem, root, p + [i]) ==
            var t := Walk(mem, root, p);
            if t.None? then None else Target(TableAt(mem, t.value)[i])
    ensures EntryAt(mem, root, p + [i]) ==
            var t := Walk(mem, root, p);
            if t.None? then UNUSED else TableAt(mem, t.value)[i]
  {
    assert (p + [i])[..|p|] == p;
  }

  /** A path that resolves has every prefix resolve. */
  lemma {:induction false} WalkPrefix(mem: Memory, root: Frame, p: Path, k: nat)
    requires k <= |p| && Walk(mem, root, p).Some?
    ensures Walk(mem, root, p[..k]).Some?
    decreases |p|
  {
    if k == |p| {
      assert p[..k] == p;
    } else {
      WalkPrefix(mem, root, p[..|p| - 1], k);
      assert p[..|p| - 1][..k] == p[..k];
    }
  }

  /** A granted path resolves. */
  lemma {:induction false} GrantsWalk(mem: Memory, root: Frame, p: Path, write: bool)
    requires Grants(mem, root, p, write)
    ensures Walk(mem, root, p).Some?
  {
    if p != [] {
      var q := p[..|p| - 1];
      forall k | 1 <= k <= |q|
        ensures Permits(EntryAt(mem, root, q[..k]), write)
      {
        assert q[..k] == p[..k];
      }
      GrantsWalk(mem, root, q, write);
      assert p[..|p|] == p;
      assert Permits(EntryAt(mem, root, p), write);
    }
  }

  // ---------------------------------------------------------------- virtual addresses

  const LOW_LIMIT: nat := 0x8000_0000_0000

  const HIGH_BASE: nat := 0xFFFF_8000_0000_0000

  /** The first address above the 48 bits that the tables translate. */
  const SIGN_LIMIT: nat := 0x1_0000_0000_0000

  /** A value of type `VirtAddr`: bits 47 to 63 are all equal. */
  predicate Canonical(a: int) {
    0 <= a < LOW_LIMIT || HIGH_BASE <= a < U64_LIMIT
  }

  /** `VirtAddr::try_new`: a canonical address is itself, an address of 48 bits is sign-extended, and
      anything else is refused; `VirtAddr::new` and address addition panic where this gives None. */
  function TryNew(a: nat): (r: Option<nat>)
    ensures r.Some? ==> Canonical(r.value) && a <= r.value
    ensures r.Some? <==> a < SIGN_LIMIT || HIGH_BASE <= a < U64_LIMIT
    ensures Canonical(a) ==> r == Some(a)
    ensures LOW_LIMIT <= a < SIGN_LIMIT ==> r.Some? && r.value >= HIGH_BASE
  {
    if Canonical(a) then Some(a)
    else if a < SIGN_LIMIT then Some(a + 0xFFFF_0000_0000_0000)
    else None
  }

  /** Bytes covered by one entry at depth `k` (0 is the L4 table). */
  function Span(k: nat): (s: nat)
    requires k < 4
    ensures s > 0
  {
    if k == 0 then 0x80_0000_0000 else if k == 1 then 0x4000_0000 else if k == 2 then 0x20_0000 else 0x1000
  }

  /** The number formed by the indices of `p`, nine bits each. */
  function Number(p: Path): nat {
    if p == [] then 0 else 512 * Number(p[..|p| - 1]) + p[|p| - 1]
  }

  /** The address `free_table` has assembled after following `p`. */
  function AddrOf(p: Path): nat
    requires |p| <= 4
  {
    if p == [] then 0 else Number(p) * Span(|p| - 1)
  }

  /** `p4_index`, `p3_index`, `p2_index`, `p1_index`. */
  function PathOf(a: nat): (p: Path)
    ensures |p| == 4
  {
    var n := a / 4096;
    [n / 512 / 512 / 512 % 512, n / 512 / 512 % 512, n / 512 % 512, n % 512]
  }

  lemma Split512(q: nat, r: nat)
    requires r < 512
    ensures (512 * q + r) / 512 == q && (512 * q + r) % 512 == r
  {
  }

  lemma {:induction false} Number4(p: Path)
    requires |p| == 4
    ensures Number(p[..1]) == p[0] && Number(p[..2]) == 512 * Number(p[..1]) + p[1]
    ensures Number(p[..3]) == 512 * Number(p[..2]) + p[2] && Number(p) == 512 * Number(p[..3]) + p[3]
  {
    assert p[..1][..0] == [];
    assert p[..2][..1] == p[..1];
    assert p[..3][..2] == p[..2];
  }

  /** Splitting an assembled address returns the indices it was assembled from. */
  lemma PathOfAddrOf(p: Path)
    requires |p| == 4
    ensures AddrOf(p) % 4096 == 0 && PathOf(AddrOf(p)) == p
  {
    hide Number;
    Number4(p);
    assert AddrOf(p) / 4096 == Number(p);
    Split512(Number(p[..3]), p[3]);
    Split512(Number(p[..2]), p[2]);
    Split512(Number(p[..1]), p[1]);
  }

  /** Reassembling the indices of a page address drops everything above bit 47. */
  lemma AddrOfPathOf(a: nat)
    requires a % 4096 == 0
    ensures AddrOf(PathOf(a)) == a - (a / 4096 / 512 / 512 / 512 / 512) * 0x1_0000_0000_0000
  {
    hide Number;
    var p := PathOf(a);
    Number4(p);
    var n := a / 4096;
    var n1 := n / 512;
    var n2 := n1 / 512;
    var n3 := n2 / 512;
    var h := n3 / 512;
    assert Number(p[..1]) == n3 - 512 * h;
    assert Number(p[..2]) == n2 - 0x4_0000 * h;
    assert Number(p[..3]) == n1 - 0x800_0000 * h;
    assert Number(p) == n - 0x10_0000_0000 * h;
  }

  lemma HighBits(a: nat)
    requires Canonical(a)
    ensures a / 4096 / 512 / 512 / 512 / 512 == if a < LOW_LIMIT then 0 else 0xFFFF
    ensures PathOf(a)[0] < 256 <==> a < LOW_LIMIT
  {
    if a < LOW_LIMIT {
      assert a / 4096 < 0x8_0000_0000;
      assert a / 4096 / 512 < 0x400_0000;
      assert a / 4096 / 512 / 512 < 0x2_0000;
      assert a / 4096 / 512 / 512 / 512 < 256;
    } else {
      assert 0xF_FFF8_0000_0000 <= a / 4096 < 0x10_0000_0000_0000;
      assert 0x7FF_FC00_0000 <= a / 4096 / 512 < 0x800_0000_0000;
      assert 0x3_FFFE_0000 <= a / 4096 / 512 / 512 < 0x4_0000_0000;
      assert 0x1FF_FF00 <= a / 4096 / 512 / 512 / 512 < 0x200_0000;
    }
  }

  /** The address assembled without sign extension is the address that the walk resolves exactly in
      the lower half of the address space; in the upper half it lacks the sign bits. */
  lemma AssembledIsCanonical(a: nat)
    requires Canonical(a) && a % 4096 == 0
    ensures AddrOf(PathOf(a)) == a <==> PathOf(a)[0] < 256
    ensures PathOf(a)[0] >= 256 ==> AddrOf(PathOf(a)) + 0xFFFF_0000_0000_0000 == a
  {
    hide AddrOf, PathOf;
    AddrOfPathOf(a);
    HighBits(a);
  }

  /** Sign extension changes nothing that the walk looks at. */
  lemma TryNewPath(a: nat)
    requires TryNew(a).Some?
    ensures PathOf(TryNew(a).value) == PathOf(a) && TryNew(a).value % 4096 == a % 4096
  {
    if !Canonical(a) {
      var n := a / 4096;
      assert TryNew(a).value / 4096 == n + 512 * 0x7FF_F800_0000;
      Shifted(n, 0x7FF_F800_0000);
      Shifted(n / 512, 0x3_FFFC_0000);
      Shifted(n / 512 / 512, 0x1FF_FE00);
      Shifted(n / 512 / 512 / 512, 0xFFFF);
    }
  }

  lemma Shifted(n: nat, c: nat)
    ensures (n + 512 * c) / 512 == n / 512 + c && (n + 512 * c) % 512 == n % 512
  {
  }

  /** All bytes of one page share their path. */
  lemma PathOfPage(a: nat)
    ensures PathOf(a) == PathOf(a / 4096 * 4096)
  {
    assert a / 4096 * 4096 / 4096 == a / 4096;
  }

  /** Distinct pages of the lower half have distinct paths. */
  lemma PathInjective(a: nat, b: nat)
    requires a < LOW_LIMIT && b < LOW_LIMIT && PathOf(a) == PathOf(b)
    ensures a / 4096 == b / 4096
  {
    hide AddrOf, PathOf;
    PageAddr(a);
    PageAddr(b);
  }

  lemma PageAddr(a: nat)
    requires a < LOW_LIMIT
    ensures AddrOf(PathOf(a)) == a / 4096 * 4096
  {
    hide AddrOf, PathOf;
    var page := a / 4096 * 4096;
    PathOfPage(a);
    AddrOfPathOf(page);
    HighBits(page);
  }
}
