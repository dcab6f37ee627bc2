/** The physical-frame allocator of src/memory.rs: a cursor over the boot memory map plus a list of
    returned frames. Abstractly it is a stack of frames that starts as the flat enumeration of the
    usable regions. A frame is named by its number, so its address is 4096 times that. */
module Frames {
  import opened Basics

  type Frame = nat

  const PAGE_SIZE: nat := 4096

  /** One entry of the boot memory map: the frames `first`, ..., `limit - 1`. */
  datatype Region = Region(first: Frame, limit: Frame, usable: bool) {
    function StartAddr(): nat { first * PAGE_SIZE }
    function EndAddr(): nat { limit * PAGE_SIZE }
  }

  function FrameRange(first: Frame, limit: Frame): (s: seq<Frame>)
    requires first <= limit
    ensures |s| == limit - first
    ensures forall i :: 0 <= i < |s| ==> s[i] == first + i
  {
    seq(limit - first, (i: nat) => first + i)
  }

  lemma RangeHead(first: Frame, limit: Frame, rest: seq<Frame>)
    requires first < limit
    ensures FrameRange(first, limit) + rest == [first] + (FrameRange(first + 1, limit) + rest)
  {
  }

  /** Popping the last returned frame pops the pool. */
  lemma PoolHead(list: seq<Frame>, rest: seq<Frame>)
    requires list != []
    ensures var last := |list| - 1;
            Reversed(list) + rest == [list[last]] + (Reversed(list[..last]) + rest)
  {
    var last := |list| - 1;
    assert list == list[..last] + [list[last]];
    ReversedSnoc(list[..last], list[last]);
  }

  function RegionFrames(r: Region): seq<Frame> {
    if r.usable && r.first < r.limit then FrameRange(r.first, r.limit) else []
  }

  /** Every usable frame of regions `i` onwards, in memory-map order. */
  function FlatFrom(regions: seq<Region>, i: nat): seq<Frame>
    decreases |regions| - i
  {
    if i >= |regions| then [] else RegionFrames(regions[i]) + FlatFrom(regions, i + 1)
  }

  lemma FlatStep(regions: seq<Region>, i: nat)
    requires i < |regions|
    ensures FlatFrom(regions, i) == RegionFrames(regions[i]) + FlatFrom(regions, i + 1)
    ensures RegionFrames(regions[i]) == [] ==> FlatFrom(regions, i) == FlatFrom(regions, i + 1)
  {
  }

  predicate Overlap(a: Region, b: Region) {
    exists x :: x in RegionFrames(a) && x in RegionFrames(b)
  }

  lemma {:induction false} FlatMember(regions: seq<Region>, i: nat, x: Frame)
    requires x in FlatFrom(regions, i)
    ensures exists k :: i <= k < |regions| && x in RegionFrames(regions[k])
    decreases |regions| - i
  {
    if x !in RegionFrames(regions[i]) {
      FlatMember(regions, i + 1, x);
    }
  }

  /** The enumeration holds exactly the frames of the usable regions. */
  lemma {:induction false} FlatExactly(regions: seq<Region>, i: nat, x: Frame)
    ensures x in FlatFrom(regions, i) <==>
              exists k :: i <= k < |regions| && regions[k].usable && regions[k].first <= x < regions[k].limit
    decreases |regions| - i
  {
    if i < |regions| {
      FlatExactly(regions, i + 1, x);
      RegionExactly(regions[i], x);
      FlatStep(regions, i);
      hide RegionFrames, FlatFrom;
      assert x in FlatFrom(regions, i) <==> x in RegionFrames(regions[i]) || x in FlatFrom(regions, i + 1);
    }
  }

  lemma RegionExactly(r: Region, x: Frame)
    ensures x in RegionFrames(r) <==> r.usable && r.first <= x < r.limit
  {
    if r.usable && r.first <= x < r.limit {
      assert FrameRange(r.first, r.limit)[x - r.first] == x;
    }
  }

  /** A memory map whose usable regions do not overlap enumerates no frame twice. */
  lemma {:induction false} FlatNoDup(regions: seq<Region>, i: nat)
    requires forall j, k :: 0 <= j < k < |regions| ==> !Overlap(regions[j], regions[k])
    ensures NoDup(FlatFrom(regions, i))
    decreases |regions| - i
  {
    if i < |regions| {
      FlatNoDup(regions, i + 1);
      forall x | x in RegionFrames(regions[i])
        ensures x !in FlatFrom(regions, i + 1)
      {
        if x in FlatFrom(regions, i + 1) {
          FlatMember(regions, i + 1, x);
        }
      }
      NoDupConcat(RegionFrames(regions[i]), FlatFrom(regions, i + 1));
    }
  }

  class BootInfoFrameAllocator {
    const memoryMap: seq<Region>
    var regionIndex: nat
    var nextFrameAddr: nat
    var freeList: Option<seq<Frame>>

    ghost predicate Valid()
      reads this
    {
      && regionIndex <= |memoryMap|
      && (regionIndex < |memoryMap| ==>
            var r := memoryMap[regionIndex];
            && r.usable && nextFrameAddr % PAGE_SIZE == 0
            && r.StartAddr() <= nextFrameAddr < r.EndAddr())
    }

    /** Frames never handed out so far. */
    ghost function Fresh(): seq<Frame>
      requires Valid()
      reads this
    {
      if regionIndex == |memoryMap| then []
      else FrameRange(nextFrameAddr / PAGE_SIZE, memoryMap[regionIndex].limit)
           + FlatFrom(memoryMap, regionIndex + 1)
    }

    function Returned(): seq<Frame>
      reads this
    {
      if freeList.Some? then freeList.value else []
    }

    /** Everything that can be handed out, in the order it will be. */
    ghost function Pool(): seq<Frame>
      requires Valid()
      reads this
    {
      Reversed(Returned()) + Fresh()
    }

    constructor (memoryMap: seq<Region>)
      ensures Valid() && this.memoryMap == memoryMap
      ensures freeList == None && Pool() == Fresh() == FlatFrom(memoryMap, 0)
    {
      this.memoryMap := memoryMap;
      this.regionIndex := 0;
      this.nextFrameAddr := 0;
      this.freeList := None;
      new;
      SkipToNextUsableRegion();
    }

    method SkipToNextUsableRegion()
      requires regionIndex <= |memoryMap|
      modifies this`regionIndex, this`nextFrameAddr
      ensures Valid() && Fresh() == FlatFrom(memoryMap, old(regionIndex))
    {
      while regionIndex < |memoryMap|
        invariant regionIndex <= |memoryMap|
        invariant FlatFrom(memoryMap, regionIndex) == FlatFrom(memoryMap, old(regionIndex))
        decreases |memoryMap| - regionIndex
      {
        var region := memoryMap[regionIndex];
        FlatStep(memoryMap, regionIndex);
        if region.usable && region.StartAddr() < region.EndAddr() {
          nextFrameAddr := region.StartAddr();
          assert nextFrameAddr / PAGE_SIZE == region.first;
          return;
        }
        regionIndex := regionIndex + 1;
      }
    }

    /** The cursor half of `AllocateFrame`: pops the remaining enumeration. */
    method AllocateFresh() returns (r: Option<Frame>)
      requires Valid()
      modifies this`regionIndex, this`nextFrameAddr
      ensures Valid()
      ensures r == None ==> old(Fresh()) == Fresh() == []
      ensures r.Some? ==> old(Fresh()) == [r.value] + Fresh()
    {
      if regionIndex >= |memoryMap| {
        return None;
      }
      var frame := nextFrameAddr / PAGE_SIZE;
      ghost var limit, rest := memoryMap[regionIndex].limit, FlatFrom(memoryMap, regionIndex + 1);
      RangeHead(frame, limit, rest);
      nextFrameAddr := nextFrameAddr + 4096;
      if nextFrameAddr >= memoryMap[regionIndex].EndAddr() {
        assert limit == frame + 1;
        regionIndex := regionIndex + 1;
        SkipToNextUsableRegion();
        assert FrameRange(frame + 1, limit) + rest == rest;
      }
      r := Some(frame);
    }

    /** Pops the pool. A fresh frame is consumed only when no returned frame is left, and then it is
        the head of the remaining enumeration. */
    method AllocateFrame() returns (r: Option<Frame>)
      requires Valid()
      modifies this
      ensures Valid()
      ensures old(Pool()) == [] <==> r == None
      ensures r == None ==> Pool() == []
      ensures r.Some? ==> old(Pool()) == [r.value] + Pool()
      ensures Fresh() == if old(Returned()) == [] && r.Some? then old(Fresh())[1..] else old(Fresh())
    {
      if freeList.Some? && freeList.value != [] {
        var last := |freeList.value| - 1;
        r := Some(freeList.value[last]);
        PoolHead(freeList.value, Fresh());
        freeList := Some(freeList.value[..last]);
      } else {
        r := AllocateFresh();
        assert old(Pool()) == old(Fresh()) && Pool() == Fresh();
      }
    }

    /** Pushes onto the pool. */
    method DeallocateFrame(frame: Frame)
      requires Valid()
      modifies this`freeList
      ensures Valid() && Pool() == [frame] + old(Pool())
      ensures Fresh() == old(Fresh()) && Returned() == old(Returned()) + [frame]
    {
      ReversedSnoc(Returned(), frame);
      var list := if freeList.Some? then freeList.value else [];
      freeList := Some(list + [frame]);
    }
  }
}
