/** Page descriptors of the virtual address-space allocator and the translation they stand
    for (kernel/src/mem/virtual_allocator.rs). */
module PageMap {
  import opened Basics
  import opened PageRuns

  /** A reserved block; `phys` is meaningful while it is mapped. */
  datatype Desc = Desc(pages: nat, phys: nat, virt: nat, flags: bv8, mapped: bool)

  function RunOf(d: Desc): Run {
    Run(d.virt, d.pages)
  }

  function RunsOf(ds: seq<Desc>): (rs: seq<Run>)
    ensures |rs| == |ds| && forall i | 0 <= i < |ds| :: rs[i] == RunOf(ds[i])
  {
    if ds == [] then [] else [RunOf(ds[0])] + RunsOf(ds[1..])
  }

  lemma {:induction false} RunsOfAppend(ds: seq<Desc>, d: Desc)
    ensures RunsOf(ds + [d]) == RunsOf(ds) + [RunOf(d)]
  {
  }

  lemma {:induction false} RunsOfRemove(ds: seq<Desc>, i: nat)
    requires i < |ds|
    ensures RunsOf(RemoveAt(ds, i)) == RemoveAt(RunsOf(ds), i)
  {
  }

  lemma {:induction false} RunsOfUpdate(ds: seq<Desc>, i: nat, d: Desc)
    requires i < |ds| && RunOf(d) == RunOf(ds[i])
    ensures RunsOf(ds[i := d]) == RunsOf(ds)
  {
  }

  // ----- The abstract page map

  /** Block `d` translates address `v` to `p`. */
  predicate MapsTo(d: Desc, v: nat, p: nat) {
    d.mapped && In(RunOf(d), v) && p == d.phys + (v - d.virt)
  }

  /** The partial map the descriptors stand for. */
  ghost predicate Translates(ds: seq<Desc>, v: nat, p: nat) {
    exists i :: 0 <= i < |ds| && MapsTo(ds[i], v, p)
  }

  lemma {:induction false} TranslatesAppend(ds: seq<Desc>, d: Desc, v: nat, p: nat)
    ensures Translates(ds + [d], v, p) <==> Translates(ds, v, p) || MapsTo(d, v, p)
  {
    var es := ds + [d];
    if Translates(ds, v, p) { var i :| 0 <= i < |ds| && MapsTo(ds[i], v, p); assert MapsTo(es[i], v, p); }
    if MapsTo(d, v, p) { assert MapsTo(es[|ds|], v, p); }
  }

  lemma {:induction false} TranslatesRemove(ds: seq<Desc>, i: nat, v: nat, p: nat)
    requires i < |ds|
    ensures Translates(ds, v, p) <==> Translates(RemoveAt(ds, i), v, p) || MapsTo(ds[i], v, p)
  {
    var es := RemoveAt(ds, i);
    if Translates(ds, v, p) && !MapsTo(ds[i], v, p) {
      var k :| 0 <= k < |ds| && MapsTo(ds[k], v, p);
      assert MapsTo(es[if k < i then k else k - 1], v, p);
    }
    if Translates(es, v, p) {
      var k :| 0 <= k < |es| && MapsTo(es[k], v, p);
      assert MapsTo(ds[if k < i then k else k + 1], v, p);
    }
  }

  /** Disjoint blocks make the map a function. */
  lemma {:induction false} TranslatesUnique(ds: seq<Desc>, v: nat, p: nat, q: nat)
    requires Disjoint(RunsOf(ds)) && Translates(ds, v, p) && Translates(ds, v, q)
    ensures p == q
  {
    var i :| 0 <= i < |ds| && MapsTo(ds[i], v, p);
    var j :| 0 <= j < |ds| && MapsTo(ds[j], v, q);
    var rs := RunsOf(ds);
    assert In(rs[i], v) && In(rs[j], v);
    if i < j { ApartMeansNotIn(rs[i], rs[j], v); }
    if j < i { ApartMeansNotIn(rs[j], rs[i], v); }
  }

  // ----- Splitting a block around a range

  /** `ceil_div` of the distance, in pages. */
  function TopOf(r: Run, virt: nat): Run
    requires r.start <= virt
  {
    Run(r.start, CeilDiv(virt - r.start))
  }

  function BottomOf(r: Run, virt: nat, size: nat): Run
    requires r.start <= virt && virt + size <= End(r)
  {
    Run(virt + size, CeilDiv(End(r) - (virt + size)))
  }

  function MiddleOf(virt: nat, size: nat): Run {
    Run(virt, CeilDiv(size))
  }

  predicate Aligned(a: nat) {
    a % PAGE_SIZE == 0
  }

  lemma {:induction false} CeilDivExact(a: nat)
    requires Aligned(a)
    ensures CeilDiv(a) * PAGE_SIZE == a
  {
  }

  lemma {:induction false} AlignedDifference(a: nat, b: nat)
    requires Aligned(a) && Aligned(b) && a <= b
    ensures Aligned(b - a)
  {
  }

  lemma {:induction false} AlignedEnd(r: Run)
    requires Aligned(r.start)
    ensures Aligned(End(r))
  {
    assert (r.start + r.pages * PAGE_SIZE) % PAGE_SIZE == r.start % PAGE_SIZE;
  }

  /** On page boundaries the three parts tile the block exactly. */
  lemma {:induction false} SplitTiles(r: Run, virt: nat, size: nat)
    requires Aligned(r.start) && Aligned(virt) && Aligned(size) && r.start <= virt && virt + size <= End(r)
    ensures var top, mid, bot := TopOf(r, virt), MiddleOf(virt, size), BottomOf(r, virt, size);
            && End(top) == virt && End(mid) == virt + size && bot.start == virt + size && End(bot) == End(r)
            && top.pages + mid.pages + bot.pages == r.pages
            && Aligned(top.start) && Aligned(mid.start) && Aligned(bot.start)
  {
    AlignedDifference(r.start, virt);
    CeilDivExact(virt - r.start);
    CeilDivExact(size);
    AlignedEnd(r);
    AlignedEnd(MiddleOf(virt, size));
    AlignedDifference(virt + size, End(r));
    CeilDivExact(End(r) - (virt + size));
  }

  /** Off a page boundary the first part runs into the middle one, and the last part runs past
      the end of the block. */
  lemma {:induction false} SplitOverlapsIff(r: Run, virt: nat, size: nat)
    requires r.start <= virt && virt + size <= End(r) && size > 0 && Aligned(size)
    ensures Apart(TopOf(r, virt), MiddleOf(virt, size)) <==> Aligned(virt - r.start)
    ensures End(BottomOf(r, virt, size)) <= End(r) <==> Aligned(virt - r.start)
  {
    var d := virt - r.start;
    if Aligned(d) { CeilDivExact(d); }
    RestIsAligned(r, virt, size);
    if Aligned(d) { CeilDivExact(End(r) - (virt + size)); }
  }

  lemma {:induction false} RestIsAligned(r: Run, virt: nat, size: nat)
    requires r.start <= virt && virt + size <= End(r) && Aligned(size)
    ensures Aligned(End(r) - (virt + size)) <==> Aligned(virt - r.start)
  {
    var d, k := virt - r.start, size / PAGE_SIZE;
    assert size == k * PAGE_SIZE;
    assert End(r) - (virt + size) == (r.pages - k) * PAGE_SIZE - d;
  }
}
