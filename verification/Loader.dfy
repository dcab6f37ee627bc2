/** `elf::load` on physical memory: what mapping the planned pages does to the frame pool and to the
    address space (src/elf.rs). */
module Loader {
  import opened Basics
  import opened Frames
  import opened Paging
  import opened Mapping
  import opened AddressSpace
  import opened Ownership
  import opened Elf

  const NOTHING: Range := Range(0, 0)

  function PagePath(page: PageSpec): (p: Path)
    ensures |p| == 4
  {
    PathOf(page.addr)
  }

  function PageFlags(page: PageSpec): Flags {
    Flags(page.writable, true)
  }

  predicate PrivatePage(off: Index, page: PageSpec) {
    Private(off, PagePath(page))
  }

  predicate AllPrivate(off: Index, pages: seq<PageSpec>) {
    forall i :: 0 <= i < |pages| ==> PrivatePage(off, pages[i])
  }

  /** Mapping the pages in order, stopping at the first failure. */
  function MapPages(s: Phys, root: Frame, pages: seq<PageSpec>): (Phys, bool) {
    if pages == [] then (s, true)
    else
      var n := |pages| - 1;
      var (s1, ok) := MapPages(s, root, pages[..n]);
      if !ok then (s1, false)
      else
        var (s2, o) := MapPage(s1, root, PagePath(pages[n]), pages[n].data, PageFlags(pages[n]));
        (s2, o.Done?)
  }

  // ---------------------------------------------------------------- what is shown where

  /** Every slot above `q` exists and grants at least `flags`. */
  ghost predicate Escorted(mem: Memory, root: Frame, q: Path, flags: Flags) {
    |q| == 4 && forall k :: 1 <= k <= 3 ==> Escort(EntryAt(mem, root, q[..k]), flags)
  }

  predicate Escort(e: Entry, flags: Flags) {
    e.present && !e.huge && (flags.user ==> e.user) && (flags.writable ==> e.writable)
  }

  /** The page at `q` holds `data`, with leaf rights `flags` that the slots above it do not narrow. */
  ghost predicate Shows(mem: Memory, root: Frame, q: Path, data: seq<byte>, flags: Flags) {
    && Escorted(mem, root, q, flags)
    && var d := EntryAt(mem, root, q).frame;
    && EntryAt(mem, root, q) == Slot(d, flags) && d in mem && mem[d] == Bytes(data)
  }

  /** What the processor grants at a shown page is what its leaf says. */
  lemma ShowsGrants(mem: Memory, root: Frame, q: Path, data: seq<byte>, flags: Flags, write: bool)
    requires Shows(mem, root, q, data, flags)
    ensures Grants(mem, root, q, write) <==> flags.user && (write ==> flags.writable)
  {
    hide Walk, EntryAt;
    assert q[..4] == q;
    if flags.user && (write ==> flags.writable) {
      forall k | 1 <= k <= |q|
        ensures Permits(EntryAt(mem, root, q[..k]), write)
      {
        if k <= 3 {
          assert Escort(EntryAt(mem, root, q[..k]), flags);
        }
      }
    } else {
      assert !Permits(EntryAt(mem, root, q[..4]), write);
    }
  }

  /** A shown page resolves. */
  lemma {:induction false} ShowsWalk(mem: Memory, root: Frame, q: Path, data: seq<byte>, flags: Flags)
    requires Shows(mem, root, q, data, flags)
    ensures Walk(mem, root, q) == Some(EntryAt(mem, root, q).frame)
  {
    WalkIsTarget(mem, root, q);
  }

  lemma NewPageShows(s: Phys, s': Phys, root: Frame, off: Index, p: Path, data: seq<byte>, flags: Flags)
    requires PageMapped(s, s', root, p, data, flags) && Private(off, p) && Space(s', root, off, NOTHING)
    ensures Shows(s'.mem, root, p, data, flags)
  {
    hide Walk, EntryAt, Confined, TableTree;
    forall k | 1 <= k <= 3
      ensures Escort(EntryAt(s'.mem, root, p[..k]), flags)
    {
      assert PathEffect(s, s', root, p[..3], p[..k], flags);
      assert p[..k] <= p[..3];
      assert NoHuge(s'.mem, root, off, p[..k]);
    }
  }

  /** A `map_to` at the free slot `p` that changed nothing beyond its own path. */
  ghost predicate GrewAt(s: Phys, s': Phys, root: Frame, p: Path, flags: Flags) {
    && |p| == 4 && EntryAt(s.mem, root, p) == UNUSED && Confined(s, s', root, p)
    && (forall q: Path :: 1 <= |q| <= 4 && q != p ==> PathEffect(s, s', root, p[..3], q, flags))
  }

  lemma ShowsKept(s: Phys, s': Phys, root: Frame, off: Index, b: Range, p: Path, flags: Flags,
                  q: Path, qdata: seq<byte>, qflags: Flags)
    requires Space(s, root, off, b) && GrewAt(s, s', root, p, flags)
    requires Shows(s.mem, root, q, qdata, qflags) && Private(off, q) && !b.Contains(AddrOf(q))
    ensures q != p && Shows(s'.mem, root, q, qdata, qflags)
  {
    hide EntryAt, TableTree, AddrOf;
    var d := EntryAt(s.mem, root, q).frame;
    ShowsWalk(s.mem, root, q, qdata, qflags);
    hide Walk;
    assert Owns(s.mem, root, off, b, q, d);
    NotOnPath(s.mem, root, p, d);
    assert !Taken(s, s', d);
    assert Same(s.mem, s'.mem, d);
    assert PathEffect(s, s', root, p[..3], q, flags);
    assert EntryAt(s'.mem, root, q) == EntryAt(s.mem, root, q);
    forall k | 1 <= k <= 3
      ensures Escort(EntryAt(s'.mem, root, q[..k]), qflags)
    {
      assert Escort(EntryAt(s.mem, root, q[..k]), qflags);
      assert PathEffect(s, s', root, p[..3], q[..k], flags);
    }
  }

  lemma PageGrew(s: Phys, s': Phys, root: Frame, p: Path, data: seq<byte>, flags: Flags)
    requires PageMapped(s, s', root, p, data, flags)
    ensures GrewAt(s, s', root, p, flags)
  {
    hide EntryAt, PathEffect, Confined;
  }

  /** The private pages shown are exactly those of the list. */
  ghost predicate Image(mem: Memory, root: Frame, off: Index, pages: seq<PageSpec>) {
    && (forall i :: 0 <= i < |pages| && PrivatePage(off, pages[i]) ==>
          Shows(mem, root, PagePath(pages[i]), pages[i].data, PageFlags(pages[i])))
    && (forall q: Path :: Listed(mem, root, off, pages, q))
  }

  ghost predicate Listed(mem: Memory, root: Frame, off: Index, pages: seq<PageSpec>, q: Path) {
    |q| == 4 && Private(off, q) && EntryAt(mem, root, q) != UNUSED ==>
      exists i :: 0 <= i < |pages| && PagePath(pages[i]) == q
  }

  /** Frames that left the pool without becoming the property of the space. */
  ghost predicate Lost(s0: Phys, s: Phys, root: Frame, off: Index, x: Frame) {
    Taken(s0, s, x) && !Owned(s.mem, root, off, NOTHING, x)
  }

  /** The accounting that every prefix of the page list keeps, relative to the state `s0` before the
      address space was created. */
  ghost predicate Account(s0: Phys, s: Phys, root: Frame, off: Index, pages: seq<PageSpec>) {
    && (forall x :: x in s.pool ==> x in s0.pool)
    && (forall x :: Owned(s.mem, root, off, NOTHING, x) ==> Taken(s0, s, x))
    && ((forall x :: !Lost(s0, s, root, off, x)) <==> AllPrivate(off, pages))
    && (AllPrivate(off, pages) ==> Undisturbed(s0, s))
  }

  /** No frame that was in use changed. */
  ghost predicate Undisturbed(s0: Phys, s: Phys) {
    forall x :: x !in s0.pool ==> Same(s0.mem, s.mem, x)
  }

  lemma ImageStep(s: Phys, s': Phys, root: Frame, off: Index, pages: seq<PageSpec>, page: PageSpec)
    requires Space(s, root, off, NOTHING) && Space(s', root, off, NOTHING)
    requires Image(s.mem, root, off, pages)
    requires PageMapped(s, s', root, PagePath(page), page.data, PageFlags(page))
    ensures Image(s'.mem, root, off, pages + [page])
  {
    hide Walk, EntryAt, PathOf, Space, PageMapped;
    var all := pages + [page];
    forall i | 0 <= i < |all| && PrivatePage(off, all[i])
      ensures Shows(s'.mem, root, PagePath(all[i]), all[i].data, PageFlags(all[i]))
    {
      if i < |pages| {
        PageGrew(s, s', root, PagePath(page), page.data, PageFlags(page));
        ShowsKept(s, s', root, off, NOTHING, PagePath(page), PageFlags(page), PagePath(pages[i]), pages[i].data,
                  PageFlags(pages[i]));
      } else {
        NewPageShows(s, s', root, off, PagePath(page), page.data, PageFlags(page));
      }
    }
    forall q: Path
      ensures Listed(s'.mem, root, off, all, q)
    {
      ListedStep(s, s', root, off, pages, page, q);
    }
  }

  lemma ListedStep(s: Phys, s': Phys, root: Frame, off: Index, pages: seq<PageSpec>, page: PageSpec, q: Path)
    requires PageMapped(s, s', root, PagePath(page), page.data, PageFlags(page))
    requires Listed(s.mem, root, off, pages, q)
    ensures Listed(s'.mem, root, off, pages + [page], q)
  {
    hide Walk, EntryAt, PathOf, Confined;
    var all := pages + [page];
    if |q| == 4 && Private(off, q) && EntryAt(s'.mem, root, q) != UNUSED {
      if q == PagePath(page) {
        assert PagePath(all[|pages|]) == q;
      } else {
        assert PathEffect(s, s', root, PagePath(page)[..3], q, PageFlags(page));
        var i :| 0 <= i < |pages| && PagePath(pages[i]) == q;
        assert PagePath(all[i]) == q;
      }
    }
  }

  lemma AccountStep(s0: Phys, s: Phys, s': Phys, root: Frame, off: Index, pages: seq<PageSpec>, page: PageSpec)
    requires Account(s0, s, root, off, pages) && Popped(s, s', 4)
    requires exists d :: Taken(s, s', d)
    requires forall x :: Owned(s.mem, root, off, NOTHING, x) ==> x !in s.pool
    requires forall x :: Owned(s'.mem, root, off, NOTHING, x) <==>
                           Owned(s.mem, root, off, NOTHING, x) || (PrivatePage(off, page) && Taken(s, s', x))
    requires PrivatePage(off, page) && Undisturbed(s0, s) ==> Undisturbed(s0, s')
    ensures Account(s0, s', root, off, pages + [page])
  {
    hide Owned, PrivatePage;
    PoppedSubset(s, s', 4);
    var all := pages + [page];
    assert AllPrivate(off, all) <==> AllPrivate(off, pages) && PrivatePage(off, page) by {
      assert all[|pages|] == page;
      if AllPrivate(off, all) {
        forall i | 0 <= i < |pages|
          ensures PrivatePage(off, pages[i])
        {
          assert all[i] == pages[i];
        }
      }
    }
    forall x
      ensures Lost(s0, s', root, off, x) <==> Lost(s0, s, root, off, x) || (!PrivatePage(off, page) && Taken(s, s', x))
    {
      assert Taken(s0, s', x) <==> Taken(s0, s, x) || Taken(s, s', x);
    }
  }

  lemma MapPagesStep(s0: Phys, s: Phys, s': Phys, root: Frame, off: Index, pages: seq<PageSpec>, page: PageSpec)
    requires Space(s, root, off, NOTHING) && Image(s.mem, root, off, pages) && Account(s0, s, root, off, pages)
    requires MapPage(s, root, PagePath(page), page.data, PageFlags(page)).1.Done?
    requires s' == MapPage(s, root, PagePath(page), page.data, PageFlags(page)).0
    ensures Space(s', root, off, NOTHING)
    ensures Image(s'.mem, root, off, pages + [page]) && Account(s0, s', root, off, pages + [page])
  {
    hide Space, Image, Account, MapPage, PathOf, Owned, PageMapped;
    MapPageEffect(s, root, off, NOTHING, PagePath(page), page.data, PageFlags(page));
    ImageStep(s, s', root, off, pages, page);
    TakenSome(s, s', root, PagePath(page), page.data, PageFlags(page));
    OwnedNotPooled(s, root, off);
    UndisturbedStep(s0, s, s', root, off, pages, page);
    AccountStep(s0, s, s', root, off, pages, page);
  }

  /** All planned pages, in one statement. */
  lemma {:induction false} MapPagesEffect(s0: Phys, s: Phys, root: Frame, off: Index, pages: seq<PageSpec>)
    requires Space(s, root, off, NOTHING) && Image(s.mem, root, off, []) && Account(s0, s, root, off, [])
    requires MapPages(s, root, pages).1
    ensures var s' := MapPages(s, root, pages).0;
            Space(s', root, off, NOTHING) && Image(s'.mem, root, off, pages) && Account(s0, s', root, off, pages)
    decreases |pages|
  {
    hide Space, Image, Account, MapPage, PathOf;
    if pages != [] {
      var n := |pages| - 1;
      var s1 := MapPages(s, root, pages[..n]).0;
      MapPagesEffect(s0, s, root, off, pages[..n]);
      MapPagesStep(s0, s1, MapPages(s, root, pages).0, root, off, pages[..n], pages[n]);
      assert pages == pages[..n] + [pages[n]];
    }
  }

  lemma TakenSome(s: Phys, s': Phys, root: Frame, p: Path, data: seq<byte>, flags: Flags)
    requires PageMapped(s, s', root, p, data, flags)
    ensures Popped(s, s', 4) && exists d :: Taken(s, s', d)
  {
  }

  lemma OwnedNotPooled(s: Phys, root: Frame, off: Index)
    requires Space(s, root, off, NOTHING)
    ensures forall x :: Owned(s.mem, root, off, NOTHING, x) ==> x !in s.pool
  {
  }

  lemma UndisturbedStep(s0: Phys, s: Phys, s': Phys, root: Frame, off: Index, pages: seq<PageSpec>, page: PageSpec)
    requires Account(s0, s, root, off, pages)
    requires PageMapped(s, s', root, PagePath(page), page.data, PageFlags(page))
    ensures PrivatePage(off, page) && Undisturbed(s0, s) ==> Undisturbed(s0, s')
  {
    hide Walk, EntryAt, PathOf, PathEffect, Lost;
    if PrivatePage(off, page) && Undisturbed(s0, s) {
      forall x | x !in s0.pool
        ensures Same(s0.mem, s'.mem, x)
      {
        OnPathOwned(s.mem, root, off, NOTHING, PagePath(page), x);
        assert !Taken(s0, s, x) && !Taken(s, s', x);
        assert Same(s0.mem, s.mem, x);
        assert Same(s.mem, s'.mem, x);
      }
    }
  }

  // ---------------------------------------------------------------- elf::load

  datatype LoadOutcome =
    | Loaded(root: Frame, entry: nat, stackTop: nat, argsPtr: nat, argsLen: nat)
    | NotLoaded
    | Panicked

  /** `pool'` is `pool` with the frames owned by `root` pushed on it, each once. */
  ghost predicate Returned(s: Phys, pool': seq<Frame>, root: Frame, off: Index, b: Range) {
    exists freed :: IsFreedList(s.mem, root, off, b, freed) && pool' == Reversed(freed) + s.pool
  }

  ghost predicate IsFreedList(mem: Memory, root: Frame, off: Index, b: Range, freed: seq<Frame>) {
    NoDup(freed) && forall x :: x in freed <==> Owned(mem, root, off, b, x)
  }

  /** `load`, from the state `s` to the state `s'`. A panic leaves the state unspecified. */
  ghost predicate LoadStep(s: Phys, s': Phys, active: Frame, off: Index, bytes: seq<byte>, args: seq<byte>,
                           r: LoadOutcome) {
    if !HeaderOk(bytes) then r == NotLoaded && s' == s
    else if s.pool == [] then r == Panicked
    else
      var (pages, verdict) := Plan(bytes, args);
      var (s1, root) := NewSpace(s, active, off);
      var (s2, ok) := MapPages(s1, root.value, pages);
      if !ok || verdict.Panic? then r == Panicked
      else if verdict.Refuse? then
        r == NotLoaded && s'.mem == s2.mem && Returned(s2, s'.pool, root.value, off, NOTHING)
      else
        s' == s2 && r == Loaded(root.value, verdict.entry, verdict.stackTop, verdict.argsPtr, verdict.argsLen)
  }

  lemma NewSpaceAccount(s: Phys, active: Frame, off: Index)
    requires Sound(s, active) && s.pool != []
    ensures var (s1, root) := NewSpace(s, active, off);
            Space(s1, root.value, off, NOTHING) && Image(s1.mem, root.value, off, [])
                && Account(s, s1, root.value, off, [])
  {
    hide Walk, EntryAt;
    NewSpaceEffect(s, active, off);
    var (s1, o) := NewSpace(s, active, off);
    var root := o.value;
    assert s.pool == [root] + s1.pool;
    forall q: Path
      ensures Listed(s1.mem, root, off, [], q)
    {
      assert Blank(s1.mem, root, off, q);
    }
    forall x
      ensures Taken(s, s1, x) <==> x == root
    {
    }
    forall x | x !in s.pool
      ensures Same(s.mem, s1.mem, x)
    {
      assert x != root;
    }
  }

  /** A refused file leaves the set of allocatable frames as it was exactly when every page mapped
      before the refusal lies in a private slot; then nothing in use changed either. */
  lemma RefusedLoadReturnsFrames(s: Phys, s': Phys, active: Frame, off: Index, bytes: seq<byte>, args: seq<byte>)
    requires Sound(s, active) && LoadStep(s, s', active, off, bytes, args, NotLoaded)
    ensures (forall x :: x in s'.pool <==> x in s.pool) <==> (HeaderOk(bytes) ==> AllPrivate(off, Plan(bytes, args).0))
    ensures NoDup(s'.pool)
    ensures (HeaderOk(bytes) ==> AllPrivate(off, Plan(bytes, args).0)) ==> Undisturbed(s, s')
  {
    hide Walk, EntryAt, Plan, MapPages, Image, HeaderOk, Space, Account, Returned;
    if HeaderOk(bytes) {
      var pages := Plan(bytes, args).0;
      var (s1, o) := NewSpace(s, active, off);
      var root := o.value;
      var s2 := MapPages(s1, root, pages).0;
      NewSpaceAccount(s, active, off);
      MapPagesEffect(s, s1, root, off, pages);
      RefusedPool(s, s2, s', root, off, pages);
    }
  }

  lemma RefusedPool(s: Phys, s2: Phys, s': Phys, root: Frame, off: Index, pages: seq<PageSpec>)
    requires Account(s, s2, root, off, pages) && Space(s2, root, off, NOTHING)
    requires s'.mem == s2.mem && Returned(s2, s'.pool, root, off, NOTHING)
    ensures (forall x :: x in s'.pool <==> x in s.pool) <==> AllPrivate(off, pages)
    ensures NoDup(s'.pool)
    ensures AllPrivate(off, pages) ==> Undisturbed(s, s')
  {
    hide Walk, EntryAt, Owned, AllPrivate, TableTree, OwnedTree;
    var freed: seq<Frame> :| IsFreedList(s2.mem, root, off, NOTHING, freed) && s'.pool == Reversed(freed) + s2.pool;
    ReversedElements(freed);
    OwnedNotPooled(s2, root, off);
    NoDupConcat(Reversed(freed), s2.pool);
    forall x
      ensures x in s'.pool <==> x in s2.pool || Owned(s2.mem, root, off, NOTHING, x)
    {
    }
    forall x
      ensures Lost(s, s2, root, off, x) <==> x in s.pool && x !in s'.pool
      ensures x in s'.pool ==> x in s.pool
    {
      if Owned(s2.mem, root, off, NOTHING, x) {
        assert Taken(s, s2, x);
      }
    }
  }

  /** An accepted file whose pages are private becomes an address space that shows exactly the
      planned pages outside the shared slots, without disturbing any frame in use. */
  lemma AcceptedLoadShowsPlan(s: Phys, s': Phys, active: Frame, off: Index, bytes: seq<byte>, args: seq<byte>,
                              r: LoadOutcome)
    requires Sound(s, active) && LoadStep(s, s', active, off, bytes, args, r) && r.Loaded?
    ensures Space(s', r.root, off, NOTHING)
    ensures Image(s'.mem, r.root, off, Plan(bytes, args).0)
    ensures AllPrivate(off, Plan(bytes, args).0) ==>
              && Undisturbed(s, s')
              && (forall x :: x in s.pool <==> x in s'.pool || Owned(s'.mem, r.root, off, NOTHING, x))
  {
    hide Walk, EntryAt, Plan, MapPages, Image, HeaderOk, Space;
    var pages := Plan(bytes, args).0;
    var (s1, o) := NewSpace(s, active, off);
    NewSpaceAccount(s, active, off);
    MapPagesEffect(s, s1, o.value, off, pages);
    forall x | AllPrivate(off, pages)
      ensures x in s.pool <==> x in s'.pool || Owned(s'.mem, r.root, off, NOTHING, x)
    {
      assert !Lost(s, s', r.root, off, x);
    }
  }

  /** Ring 3 can reach, outside the shared slots, exactly the planned pages, and can write exactly
      those planned writable. */
  lemma RingThreeReach(mem: Memory, root: Frame, off: Index, pages: seq<PageSpec>, q: Path, write: bool)
    requires Image(mem, root, off, pages) && |q| == 4 && Private(off, q)
    ensures Grants(mem, root, q, write) <==>
              exists i :: 0 <= i < |pages| && PagePath(pages[i]) == q && (write ==> pages[i].writable)
  {
    hide Walk, EntryAt, PathOf;
    assert q[..4] == q;
    if Grants(mem, root, q, write) {
      assert Permits(EntryAt(mem, root, q[..4]), write);
      assert Listed(mem, root, off, pages, q);
      var i :| 0 <= i < |pages| && PagePath(pages[i]) == q;
      ShowsGrants(mem, root, q, pages[i].data, PageFlags(pages[i]), write);
    }
    if i :| 0 <= i < |pages| && PagePath(pages[i]) == q && (write ==> pages[i].writable) {
      ShowsGrants(mem, root, q, pages[i].data, PageFlags(pages[i]), write);
    }
  }
}
