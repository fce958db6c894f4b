/** The physical frame allocator (kernel/src/mem/frame_allocator.rs): best fit over a list of
    free page runs, merged again when pages come back. */
module FrameAllocator {
  import opened Basics
  import opened PageRuns
  import opened BootMemory

  datatype Error = OutOfMemory | InvalidArgument

  datatype Result<+T> = Ok(value: T) | Err(error: Error)

  /** Within the configured limits, the last byte included. */
  predicate WithinLimits(r: Run, pages: nat, lower: nat, upper: nat) {
    r.start + pages * PAGE_SIZE - 1 <= upper && r.start >= lower
  }

  function Limits(pages: nat, lower: nat, upper: nat): Run -> bool {
    (b: Run) => WithinLimits(b, pages, lower, upper)
  }

  /** First allocated run with this address and size, or the length of the list. */
  function Find(alloc: seq<Run>, r: Run): (i: nat)
    ensures i <= |alloc| && (i < |alloc| ==> alloc[i] == r)
    ensures forall k | 0 <= k < i :: alloc[k] != r
  {
    if alloc == [] then 0 else if alloc[0] == r then 0
    else
      var i := Find(alloc[1..], r);
      assert forall k | 0 < k < i + 1 :: alloc[k] == alloc[1..][k - 1];
      1 + i
  }

  class PhyMemConBlk {
    var totalMemory: nat
    var avlMemory: nat
    var hardLimit: nat
    var lowerLimit: nat
    var freeBlockList: seq<Run>
    var allocBlockList: seq<Run>
    /** Kept until the boot loader's data has been consumed. */
    var bootloaderRegions: seq<Run>
    ghost var managed: seq<Run>

    /** Free and allocated pages partition the managed memory, and `avlMemory` is the size of
        the free part. */
    ghost predicate Valid()
      reads this
    {
      Partition(freeBlockList, allocBlockList, managed) && avlMemory == PAGE_SIZE * Pages(freeBlockList)
    }

    ghost predicate FullyCoalesced()
      reads this
    {
      NoEmpty(freeBlockList) && Coalesced(freeBlockList, NoBarrier)
    }

    /** From the boot memory map. */
    constructor (descs: seq<MemDesc>, upper: nat)
      ensures hardLimit == upper && lowerLimit == 0
      ensures freeBlockList == RunsIn(descs, FreeMem) && allocBlockList == RunsIn(descs, UsedMem)
      ensures bootloaderRegions == RunsIn(descs, BootMem) && managed == freeBlockList + allocBlockList
      ensures avlMemory == BytesIn(descs, FreeMem)
      ensures totalMemory == BytesIn(descs, FreeMem) + BytesIn(descs, UsedMem) + BytesIn(descs, BootMem)
      ensures MapOk(descs) ==> Valid() && Reclaimable(bootloaderRegions)
    {
      totalMemory, avlMemory, hardLimit, lowerLimit := 0, 0, upper, 0;
      freeBlockList, allocBlockList, bootloaderRegions, managed := [], [], [], [];
      new;
      for i := 0 to |descs|
        invariant freeBlockList == RunsIn(descs[..i], FreeMem) && allocBlockList == RunsIn(descs[..i], UsedMem)
        invariant bootloaderRegions == RunsIn(descs[..i], BootMem) && avlMemory == BytesIn(descs[..i], FreeMem)
        invariant totalMemory == BytesIn(descs[..i], FreeMem) + BytesIn(descs[..i], UsedMem) + BytesIn(descs[..i], BootMem)
        invariant hardLimit == upper && lowerLimit == 0
      {
        assert descs[..i + 1][..i] == descs[..i] && descs[..i + 1][i] == descs[i];
        AddDescriptor(descs[i]);
      }
      assert descs[..|descs|] == descs;
      managed := freeBlockList + allocBlockList;
      if MapOk(descs) {
        SortedMap(descs);
        WholePagesCount(descs, FreeMem);
        forall a ensures Covered(freeBlockList, a) || Covered(allocBlockList, a) <==> Covered(managed, a) {
          CoveredConcat(freeBlockList, allocBlockList, a);
        }
      }
    }

    /** The boot loader regions are apart from one another and from all pages listed. */
    ghost predicate Reclaimable(regions: seq<Run>)
      reads this
    {
      && Disjoint(regions)
      && forall i | 0 <= i < |regions| :: ApartFrom(freeBlockList, regions[i]) && ApartFrom(allocBlockList, regions[i])
    }

    /** One turn of the loop over the map. */
    method AddDescriptor(d: MemDesc)
      modifies this
      ensures freeBlockList == old(freeBlockList) + RunsFor(d, FreeMem) && allocBlockList == old(allocBlockList) + RunsFor(d, UsedMem)
      ensures bootloaderRegions == old(bootloaderRegions) + RunsFor(d, BootMem)
      ensures avlMemory == old(avlMemory) + BytesFor(d, FreeMem)
      ensures totalMemory == old(totalMemory) + BytesFor(d, FreeMem) + BytesFor(d, UsedMem) + BytesFor(d, BootMem)
      ensures hardLimit == old(hardLimit) && lowerLimit == old(lowerLimit)
    {
      var base, size := d.base, d.size;
      if base == 0 {
        base := base + PAGE_SIZE;
        if size > PAGE_SIZE { size := size - PAGE_SIZE; } else { return; }
      }
      var run := Run(base, CeilDiv(size));
      match d.kind {
        case Free =>
          freeBlockList := freeBlockList + [run];
          avlMemory := avlMemory + size;
        case Allocated => allocBlockList := allocBlockList + [run];
        case Identity => allocBlockList := allocBlockList + [run];
        case BootloaderData => bootloaderRegions := bootloaderRegions + [run];
      }
      totalMemory := totalMemory + size;
    }

    /** The effect of taking pages from run `k`. */
    ghost predicate Granted(k: nat, addr: nat, pages: nat, free0: seq<Run>, alloc0: seq<Run>)
      reads this
    {
      && k < |free0| && free0[k].start == addr && free0[k].pages >= pages
      && freeBlockList == Taken(free0, k, pages)
      && allocBlockList == alloc0 + [Run(addr, pages)]
    }

    /** `find_best_fit` */
    method TakeBestFit(pages: nat) returns (r: Result<nat>, ghost k: nat)
      requires Valid() && pages * PAGE_SIZE <= avlMemory
      modifies this`freeBlockList, this`allocBlockList
      ensures var allowed := Limits(pages, lowerLimit, hardLimit);
              match r
              case Err(e) => e == OutOfMemory && NoFit(old(freeBlockList), pages, allowed) &&
                             freeBlockList == old(freeBlockList) && allocBlockList == old(allocBlockList)
              case Ok(addr) => BestFit(old(freeBlockList), pages, allowed, k) &&
                               Granted(k, addr, pages, old(freeBlockList), old(allocBlockList))
    {
      var i := FindBestFit(freeBlockList, pages, Limits(pages, lowerLimit, hardLimit));
      k := i;
      if i == |freeBlockList| { return Err(OutOfMemory), k; }
      var node := freeBlockList[i];
      var addr := node.start;
      node := Run(node.start + pages * PAGE_SIZE, node.pages - pages);
      freeBlockList := if node.pages == 0 then RemoveAt(freeBlockList, i) else freeBlockList[i := node];
      allocBlockList := allocBlockList + [Run(addr, pages)];
      r := Ok(addr);
    }

    method Allocate(size: nat, align: nat) returns (r: Result<nat>, ghost k: nat)
      requires Valid()
      modifies this`avlMemory, this`freeBlockList, this`allocBlockList
      ensures Valid() && (old(FullyCoalesced()) ==> FullyCoalesced())
      ensures var pages := CeilDiv(size);
              var allowed := Limits(pages, lowerLimit, hardLimit);
              if size >= old(avlMemory) then r == Err(OutOfMemory)
              else if align > PAGE_SIZE then r == Err(InvalidArgument)
              else if NoFit(old(freeBlockList), pages, allowed) then r == Err(OutOfMemory)
              else r.Ok? && BestFit(old(freeBlockList), pages, allowed, k) &&
                   Granted(k, r.value, pages, old(freeBlockList), old(allocBlockList))
      ensures r.Ok? ==> lowerLimit <= r.value && r.value + CeilDiv(size) * 0x1000 - 1 <= hardLimit
      ensures r == Err(OutOfMemory) && size < avlMemory ==>
                forall j | 0 <= j < |freeBlockList| && freeBlockList[j].pages * 0x1000 >= size ::
                  freeBlockList[j].start < lowerLimit || freeBlockList[j].start + CeilDiv(size) * 0x1000 - 1 > hardLimit
      ensures r.Ok? ==> Moves(Run(r.value, CeilDiv(size)), old(freeBlockList), freeBlockList, old(allocBlockList), allocBlockList)
      ensures r.Err? ==> unchanged(this)
    {
      k := 0;
      if size >= avlMemory { return Err(OutOfMemory), k; }
      if align > PAGE_SIZE { return Err(InvalidArgument), k; }
      var pages := CeilDiv(size);
      ghost var free0, alloc0 := freeBlockList, allocBlockList;
      EnoughPages(size, Pages(free0));
      r, k := TakeBestFit(pages);
      if r.Err? { return; }
      avlMemory := avlMemory - pages * PAGE_SIZE;
      TakeMoves(free0, alloc0, managed, k, pages);
      TakenPages(free0, k, pages);
      if NoEmpty(free0) && Coalesced(free0, NoBarrier) { TakenCoalesced(free0, k, pages, NoBarrier); }
    }

    method Deallocate(addr: nat, size: nat, align: nat) returns (r: Result<()>)
      requires Valid()
      modifies this`avlMemory, this`freeBlockList, this`allocBlockList
      ensures Valid()
      ensures old(FullyCoalesced()) && size > 0 ==> FullyCoalesced()
      ensures var g := Run(addr, CeilDiv(size));
              if align > PAGE_SIZE || g !in old(allocBlockList) then r == Err(InvalidArgument) && unchanged(this)
              else
                && r == Ok(())
                && freeBlockList == Given(old(freeBlockList), g, NoBarrier)
                && allocBlockList == RemoveAt(old(allocBlockList), Find(old(allocBlockList), g))
                && |freeBlockList| + 1 >= |old(freeBlockList)|
                && Moves(g, old(allocBlockList), allocBlockList, old(freeBlockList), freeBlockList)
    {
      if align > PAGE_SIZE { return Err(InvalidArgument); }
      var pages := CeilDiv(size);
      var i := FindAlloc(Run(addr, pages));
      if i == |allocBlockList| { return Err(InvalidArgument); }
      ghost var free0, alloc0, g := freeBlockList, allocBlockList, Run(addr, pages);
      allocBlockList := RemoveAt(allocBlockList, i);
      freeBlockList := GiveBack(freeBlockList, addr, pages, NoBarrier);
      avlMemory := avlMemory + pages * PAGE_SIZE;
      GiveMoves(free0, alloc0, managed, i, NoBarrier);
      GivenPages(free0, g, NoBarrier);
      if NoEmpty(free0) && Coalesced(free0, NoBarrier) && pages > 0 { GivenCoalesced(free0, g, NoBarrier); }
      r := Ok(());
    }

    method FindAlloc(r: Run) returns (i: nat)
      ensures i == Find(allocBlockList, r) && (i == |allocBlockList| <==> r !in allocBlockList)
    {
      i := 0;
      while i < |allocBlockList| && allocBlockList[i] != r
        invariant i <= |allocBlockList|
        invariant forall k | 0 <= k < i :: allocBlockList[k] != r
      {
        i := i + 1;
      }
      FindIs(allocBlockList, r, i);
    }

    /** `reclaim_pages`: each boot loader region is listed as allocated and freed at once. */
    method ReclaimPages()
      requires Valid() && Reclaimable(bootloaderRegions)
      modifies this
      ensures Valid() && managed == old(managed) + old(bootloaderRegions) && bootloaderRegions == []
      ensures forall a :: Covered(freeBlockList, a) <==> Covered(old(freeBlockList), a) || Covered(old(bootloaderRegions), a)
      ensures forall a :: Covered(allocBlockList, a) <==> Covered(old(allocBlockList), a)
    {
      ghost var regions := bootloaderRegions;
      ghost var n := 0;
      while bootloaderRegions != []
        invariant n <= |regions| && bootloaderRegions == regions[n..]
        invariant Valid() && managed == old(managed) + regions[..n]
        invariant forall a :: Covered(freeBlockList, a) <==> Covered(old(freeBlockList), a) || Covered(regions[..n], a)
        invariant forall a :: Covered(allocBlockList, a) <==> Covered(old(allocBlockList), a)
        invariant Reclaimable(bootloaderRegions)
        decreases |bootloaderRegions|
      {
        var region := bootloaderRegions[0];
        bootloaderRegions := bootloaderRegions[1..];
        ReclaimOne(region, regions[n + 1..]);
        forall a ensures Covered(regions[..n + 1], a) <==> Covered(regions[..n], a) || In(region, a) {
          assert regions[..n + 1] == regions[..n] + [region];
          CoveredAppend(regions[..n], region, a);
        }
        assert regions[..n + 1] == regions[..n] + [region];
        n := n + 1;
      }
      assert regions[..|regions|] == regions;
    }

    method ReclaimOne(region: Run, ghost rest: seq<Run>)
      requires Valid() && ApartFrom(freeBlockList, region) && ApartFrom(allocBlockList, region)
      requires forall i | 0 <= i < |rest| ::
                 ApartFrom(freeBlockList, rest[i]) && ApartFrom(allocBlockList, rest[i]) && Apart(region, rest[i])
      modifies this`avlMemory, this`freeBlockList, this`allocBlockList, this`managed
      ensures Valid() && managed == old(managed) + [region]
      ensures forall a :: Covered(freeBlockList, a) <==> Covered(old(freeBlockList), a) || In(region, a)
      ensures forall a :: Covered(allocBlockList, a) <==> Covered(old(allocBlockList), a)
      ensures forall i | 0 <= i < |rest| :: ApartFrom(freeBlockList, rest[i]) && ApartFrom(allocBlockList, rest[i])
    {
      ghost var free0, alloc0, managed0 := freeBlockList, allocBlockList, managed;
      ReclaimFacts(free0, alloc0, managed0, region, rest);
      allocBlockList := allocBlockList + [region];
      managed := managed + [region];
      assert allocBlockList[|alloc0|] == region;
      assert CeilDiv(region.pages * PAGE_SIZE) == region.pages;
      var r := Deallocate(region.start, region.pages * PAGE_SIZE, PAGE_SIZE);
    }
  }

  lemma {:induction false} ReclaimFacts(free: seq<Run>, alloc: seq<Run>, managed: seq<Run>, region: Run, rest: seq<Run>)
    requires Partition(free, alloc, managed) && ApartFrom(free, region) && ApartFrom(alloc, region)
    requires forall i | 0 <= i < |rest| :: ApartFrom(free, rest[i]) && ApartFrom(alloc, rest[i]) && Apart(region, rest[i])
    ensures Partition(free, alloc + [region], managed + [region])
    ensures forall k, a | 0 <= k < |alloc + [region]| && (alloc + [region])[k] == region ::
              Covered(RemoveAt(alloc + [region], k), a) <==> Covered(alloc, a)
    ensures forall k, i | 0 <= k < |alloc + [region]| && 0 <= i < |rest| ::
              ApartFrom(RemoveAt(alloc + [region], k), rest[i])
    ensures forall i | 0 <= i < |rest| :: ApartFrom(Given(free, region, NoBarrier), rest[i])
  {
    var alloc' := alloc + [region];
    AppendKeeps(alloc, region, NoBarrier);
    forall a
      ensures Covered(alloc', a) <==> Covered(alloc, a) || In(region, a)
      ensures Covered(managed + [region], a) <==> Covered(managed, a) || In(region, a)
      ensures In(region, a) ==> !Covered(alloc, a)
    {
      CoveredAppend(alloc, region, a);
      CoveredAppend(managed, region, a);
      if Covered(alloc, a) { var i :| 0 <= i < |alloc| && In(alloc[i], a); ApartMeansNotIn(alloc[i], region, a); }
    }
    forall k, a | 0 <= k < |alloc'| && alloc'[k] == region
      ensures Covered(RemoveAt(alloc', k), a) <==> Covered(alloc, a)
    {
      RemoveUncovers(alloc', k, a);
    }
    forall k, i | 0 <= k < |alloc'| && 0 <= i < |rest| ensures ApartFrom(RemoveAt(alloc', k), rest[i]) {
      assert forall m | 0 <= m < |RemoveAt(alloc', k)| :: RemoveAt(alloc', k)[m] == alloc'[if m < k then m else m + 1];
    }
    forall i | 0 <= i < |rest| ensures ApartFrom(Given(free, region, NoBarrier), rest[i]) {
      GivenApart(free, region, NoBarrier, rest[i]);
    }
  }

  lemma {:induction false} FindIs(alloc: seq<Run>, r: Run, i: nat)
    requires i <= |alloc| && (i < |alloc| ==> alloc[i] == r) && forall k | 0 <= k < i :: alloc[k] != r
    ensures Find(alloc, r) == i && (i == |alloc| <==> r !in alloc)
  {
  }
}
