/** The virtual address-space allocator (kernel/src/mem/virtual_allocator.rs): reserve, map,
    unmap and release ranges of pages. The page tables themselves are not part of this model. */
module VirtualAllocator {
  import opened Basics
  import opened PageRuns
  import opened PageMap

  const KERNEL_HALF_OFFSET: nat := 0xffff_8000_0000_0000
  const USER: bv8 := 2

  datatype Error = OutOfMemory | InvalidArgument

  datatype Result<+T> = Ok(value: T) | Err(error: Error)

  /** User and kernel runs are never joined, even if they were adjacent. */
  function Half(): Barrier {
    At(KERNEL_HALF_OFFSET)
  }

  function InHalf(isUser: bool): Run -> bool {
    (b: Run) => if isUser then b.start < KERNEL_HALF_OFFSET else b.start >= KERNEL_HALF_OFFSET
  }

  function RoundUp(size: nat): (r: nat)
    ensures Aligned(r) && size <= r < size + PAGE_SIZE
  {
    CeilDiv(size) * PAGE_SIZE
  }

  predicate AllAligned(rs: seq<Run>) {
    forall i | 0 <= i < |rs| :: Aligned(rs[i].start)
  }

  /** The range lies in the block. */
  predicate Contains(r: Run, virt: nat, size: nat) {
    r.start <= virt && virt + size <= End(r)
  }

  /** The non-empty ones of two runs, in order. */
  function Pieces(top: Run, bottom: Run): seq<Run> {
    (if top.pages != 0 then [top] else []) + (if bottom.pages != 0 then [bottom] else [])
  }

  function Unmapped(rs: seq<Run>): (ds: seq<Desc>)
    ensures |ds| == |rs| && forall i | 0 <= i < |rs| :: ds[i] == Desc(rs[i].pages, 0, rs[i].start, 0, false)
  {
    if rs == [] then [] else [Desc(rs[0].pages, 0, rs[0].start, 0, false)] + Unmapped(rs[1..])
  }

  // ----- Replacing a block by its pieces

  /** `ps` and `mid` together tile `r`. */
  ghost predicate Tile(r: Run, ps: seq<Run>, mid: Run) {
    && Disjoint(ps) && ApartFrom(ps, mid) && AllAligned(ps) && NoEmpty(ps) && Aligned(mid.start)
    && (forall a :: In(r, a) <==> Covered(ps, a) || In(mid, a))
    && Pages(ps) + mid.pages == r.pages
    && (forall x :: Apart(r, x) ==> ApartFrom(ps, x) && Apart(mid, x))
  }

  lemma {:induction false} PiecesTile(r: Run, virt: nat, size: nat)
    requires Aligned(r.start) && Aligned(virt) && Aligned(size) && Contains(r, virt, size)
    ensures Tile(r, Pieces(TopOf(r, virt), BottomOf(r, virt, size)), MiddleOf(virt, size))
  {
    var top, mid, bot := TopOf(r, virt), MiddleOf(virt, size), BottomOf(r, virt, size);
    SplitTiles(r, virt, size);
    forall a ensures In(r, a) <==> Covered(Pieces(top, bot), a) || In(mid, a) {
      PiecesCover(top, bot, a);
    }
    PiecesPages(top, bot);
  }

  lemma {:induction false} PiecesCover(top: Run, bot: Run, a: nat)
    ensures Covered(Pieces(top, bot), a) <==> In(top, a) || In(bot, a)
  {
    var ps := Pieces(top, bot);
    if In(top, a) { assert ps[0] == top; }
    if In(bot, a) { assert ps[|ps| - 1] == bot; }
  }

  lemma {:induction false} PiecesPages(top: Run, bot: Run)
    ensures Pages(Pieces(top, bot)) == top.pages + bot.pages
  {
    var a := if top.pages != 0 then [top] else [];
    if bot.pages != 0 {
      PagesAppend(a, bot);
    } else {
      assert a + [] == a;
    }
    if top.pages != 0 { assert [top][1..] == []; }
  }

  lemma {:induction false} ConcatDisjoint(xs: seq<Run>, ys: seq<Run>)
    requires Disjoint(xs) && Disjoint(ys) && forall j | 0 <= j < |ys| :: ApartFrom(xs, ys[j])
    ensures Disjoint(xs + ys)
  {
  }

  /** Run `i` is cut up and its middle piece left out. */
  function CutOut(rs: seq<Run>, i: nat, ps: seq<Run>): seq<Run>
    requires i < |rs|
  {
    RemoveAt(rs, i) + ps
  }

  lemma {:induction false} CutOutFacts(rs: seq<Run>, i: nat, ps: seq<Run>, mid: Run)
    requires Disjoint(rs) && i < |rs| && Tile(rs[i], ps, mid)
    ensures Disjoint(CutOut(rs, i, ps)) && ApartFrom(CutOut(rs, i, ps), mid)
    ensures Pages(CutOut(rs, i, ps)) + mid.pages == Pages(rs)
    ensures AllAligned(rs) ==> AllAligned(CutOut(rs, i, ps))
  {
    var qs := RemoveAt(rs, i);
    RemoveKeeps(rs, i, NoBarrier);
    forall k | 0 <= k < |qs| ensures ApartFrom(ps, qs[k]) && Apart(mid, qs[k]) && (AllAligned(rs) ==> Aligned(qs[k].start)) {
      assert Apart(rs[i], qs[k]);
      assert qs[k] == rs[if k < i then k else k + 1];
    }
    forall j | 0 <= j < |ps| ensures ApartFrom(qs, ps[j]) {
    }
    ConcatDisjoint(qs, ps);
    PagesRemove(rs, i);
    PagesConcat(qs, ps);
  }

  lemma {:induction false} CutOutCovers(rs: seq<Run>, i: nat, ps: seq<Run>, mid: Run, a: nat)
    requires Disjoint(rs) && i < |rs| && Tile(rs[i], ps, mid)
    ensures Covered(CutOut(rs, i, ps), a) <==> Covered(rs, a) && !In(mid, a)
    ensures In(mid, a) ==> Covered(rs, a)
  {
    RemoveUncovers(rs, i, a);
    CoveredConcat(RemoveAt(rs, i), ps, a);
    CoveredRemove(rs, i, a);
    if Covered(ps, a) && In(mid, a) {
      var k :| 0 <= k < |ps| && In(ps[k], a);
      ApartMeansNotIn(ps[k], mid, a);
    }
  }

  lemma {:induction false} CutOutApart(rs: seq<Run>, i: nat, ps: seq<Run>, mid: Run, x: Run)
    requires i < |rs| && Tile(rs[i], ps, mid) && ApartFrom(rs, x)
    ensures ApartFrom(CutOut(rs, i, ps), x) && Apart(mid, x)
  {
    var qs := RemoveAt(rs, i);
    assert forall k | 0 <= k < |qs| :: qs[k] == rs[if k < i then k else k + 1];
  }

  /** Reserving moves exactly the middle piece from the free to the allocated runs. */
  lemma {:induction false} CutOutMoves(free: seq<Run>, alloc: seq<Run>, managed: seq<Run>, i: nat, ps: seq<Run>, mid: Run)
    requires Partition(free, alloc, managed) && i < |free| && Tile(free[i], ps, mid)
    ensures Partition(CutOut(free, i, ps), alloc + [mid], managed)
    ensures Moves(mid, free, CutOut(free, i, ps), alloc, alloc + [mid])
  {
    CutOutFacts(free, i, ps, mid);
    forall k | 0 <= k < |alloc| ensures ApartFrom(CutOut(free, i, ps), alloc[k]) && Apart(alloc[k], mid) {
      CutOutApart(free, i, ps, mid, alloc[k]);
    }
    AppendKeeps(alloc, mid, NoBarrier);
    forall a
      ensures && (In(mid, a) ==> Covered(free, a))
              && (Covered(CutOut(free, i, ps), a) <==> Covered(free, a) && !In(mid, a))
              && (Covered(alloc + [mid], a) <==> Covered(alloc, a) || In(mid, a))
    {
      CutOutCovers(free, i, ps, mid, a);
      CoveredAppend(alloc, mid, a);
    }
  }

  /** Cutting an allocated block into its pieces changes neither what is allocated nor its
      separation from the free runs. */
  lemma {:induction false} RecutKeeps(free: seq<Run>, alloc: seq<Run>, managed: seq<Run>, i: nat, ps: seq<Run>, mid: Run)
    requires Partition(free, alloc, managed) && i < |alloc| && Tile(alloc[i], ps, mid)
    ensures Partition(free, CutOut(alloc, i, ps) + [mid], managed)
    ensures forall a :: Covered(CutOut(alloc, i, ps) + [mid], a) <==> Covered(alloc, a)
  {
    CutOutFacts(alloc, i, ps, mid);
    var us := CutOut(alloc, i, ps) + [mid];
    AppendKeeps(CutOut(alloc, i, ps), mid, NoBarrier);
    forall k | 0 <= k < |free| ensures ApartFrom(us, free[k]) {
      assert forall m | 0 <= m < |alloc| :: Apart(free[k], alloc[m]);
      CutOutApart(alloc, i, ps, mid, free[k]);
    }
    forall m | 0 <= m < |us| ensures ApartFrom(free, us[m]) {
      assert forall k | 0 <= k < |free| :: Apart(us[m], free[k]);
    }
    forall a ensures Covered(us, a) <==> Covered(alloc, a) {
      CutOutCovers(alloc, i, ps, mid, a);
      CoveredAppend(CutOut(alloc, i, ps), mid, a);
    }
  }

  /** A non-empty middle keeps the outer pieces apart, so coalescing survives. */
  lemma {:induction false} CutOutCoalesced(rs: seq<Run>, i: nat, virt: nat, size: nat)
    requires Disjoint(rs) && NoEmpty(rs) && Coalesced(rs, Half()) && i < |rs|
    requires Aligned(rs[i].start) && Aligned(virt) && Aligned(size) && size > 0 && Contains(rs[i], virt, size)
    ensures var us := CutOut(rs, i, Pieces(TopOf(rs[i], virt), BottomOf(rs[i], virt, size)));
            NoEmpty(us) && Coalesced(us, Half())
  {
    var top, bot := TopOf(rs[i], virt), BottomOf(rs[i], virt, size);
    SplitTiles(rs[i], virt, size);
    RemoveKeeps(rs, i, Half());
    var qs, ps := RemoveAt(rs, i), Pieces(top, bot);
    forall k, j | 0 <= k < |qs| && 0 <= j < |ps| ensures !Touch(qs[k], ps[j], Half()) {
      assert Apart(qs[k], rs[i]) && !Touch(qs[k], rs[i], Half()) && qs[k].pages > 0;
      assert ps[j] == top || ps[j] == bot;
    }
    assert Coalesced(ps, Half());
  }

  // ----- Effect on the page map

  lemma {:induction false} UnmappedTranslatesNothing(ds: seq<Desc>, rs: seq<Run>, v: nat, p: nat)
    ensures Translates(ds + Unmapped(rs), v, p) <==> Translates(ds, v, p)
    ensures RunsOf(Unmapped(rs)) == rs
  {
    var es := ds + Unmapped(rs);
    if Translates(ds, v, p) { var i :| 0 <= i < |ds| && MapsTo(ds[i], v, p); assert MapsTo(es[i], v, p); }
    if Translates(es, v, p) {
      var i :| 0 <= i < |es| && MapsTo(es[i], v, p);
      if i >= |ds| { assert es[i] == Unmapped(rs)[i - |ds|]; }
    }
  }

  lemma {:induction false} RunsOfConcat(ds: seq<Desc>, es: seq<Desc>)
    ensures RunsOf(ds + es) == RunsOf(ds) + RunsOf(es)
  {
  }

  /** The list after mapping part of block `i`. */
  function Remapped(ds: seq<Desc>, i: nat, ps: seq<Run>, d: Desc): seq<Desc>
    requires i < |ds|
  {
    RemoveAt(ds, i) + Unmapped(ps) + [d]
  }

  lemma {:induction false} RemappedRuns(ds: seq<Desc>, i: nat, ps: seq<Run>, d: Desc)
    requires i < |ds|
    ensures RunsOf(Remapped(ds, i, ps, d)) == CutOut(RunsOf(ds), i, ps) + [RunOf(d)]
  {
    UnmappedTranslatesNothing([], ps, 0, 0);
    RunsOfRemove(ds, i);
    RunsOfConcat(RemoveAt(ds, i), Unmapped(ps));
    RunsOfAppend(RemoveAt(ds, i) + Unmapped(ps), d);
  }

  lemma {:induction false} ApartMiss(r: Run, s: Run, v: nat)
    requires Apart(r, s) && In(r, v)
    ensures !In(s, v)
  {
  }

  lemma {:induction false} OtherMisses(ds: seq<Desc>, i: nat, k: nat, v: nat, p: nat)
    requires i < |ds| && k < |ds| && k != i && Disjoint(RunsOf(ds)) && MapsTo(ds[k], v, p)
    ensures !In(RunOf(ds[i]), v)
  {
    AnyTwoApart(RunsOf(ds), k, i);
    ApartMiss(RunOf(ds[k]), RunOf(ds[i]), v);
  }

  /** No other block translates an address of block `i`. */
  lemma {:induction false} OthersMissRange(ds: seq<Desc>, i: nat, v: nat, p: nat)
    requires i < |ds| && Disjoint(RunsOf(ds))
    ensures Translates(RemoveAt(ds, i), v, p) ==> !In(RunOf(ds[i]), v)
  {
    var es := RemoveAt(ds, i);
    if Translates(es, v, p) {
      var k: nat :| k < |es| && MapsTo(es[k], v, p);
      OtherMisses(ds, i, if k < i then k else k + 1, v, p);
    }
  }

  /** Mapping a range of an unmapped block adds exactly that range to the page map. */
  lemma {:induction false} RemappedTranslates(ds: seq<Desc>, i: nat, ps: seq<Run>, d: Desc, v: nat, p: nat)
    requires i < |ds| && !ds[i].mapped && d.mapped && Disjoint(RunsOf(ds)) && Tile(RunOf(ds[i]), ps, RunOf(d))
    ensures Translates(Remapped(ds, i, ps, d), v, p) <==>
              if In(RunOf(d), v) then p == d.phys + (v - d.virt) else Translates(ds, v, p)
  {
    var es := RemoveAt(ds, i);
    TranslatesAppend(es + Unmapped(ps), d, v, p);
    UnmappedTranslatesNothing(es, ps, v, p);
    TranslatesRemove(ds, i, v, p);
    OthersMissRange(ds, i, v, p);
  }

  /** Unmapping a block removes exactly its range. */
  lemma {:induction false} UnmapTranslates(ds: seq<Desc>, i: nat, d: Desc, v: nat, p: nat)
    requires i < |ds| && !d.mapped && Disjoint(RunsOf(ds))
    ensures Translates(ds[i := d], v, p) <==> Translates(ds, v, p) && !(ds[i].mapped && In(RunOf(ds[i]), v))
  {
    var es := ds[i := d];
    assert RemoveAt(es, i) == RemoveAt(ds, i);
    TranslatesRemove(es, i, v, p);
    TranslatesRemove(ds, i, v, p);
    OthersMissRange(ds, i, v, p);
  }

  ghost predicate SameTranslation(ds: seq<Desc>, es: seq<Desc>) {
    forall v, p :: Translates(ds, v, p) <==> Translates(es, v, p)
  }

  lemma {:induction false} AddUnmappedKeepsTranslation(ds: seq<Desc>, d: Desc)
    requires !d.mapped
    ensures SameTranslation(ds, ds + [d])
  {
    forall v, p ensures Translates(ds, v, p) <==> Translates(ds + [d], v, p) { TranslatesAppend(ds, d, v, p); }
  }

  lemma {:induction false} RemoveUnmappedKeepsTranslation(ds: seq<Desc>, i: nat)
    requires i < |ds| && !ds[i].mapped
    ensures SameTranslation(ds, RemoveAt(ds, i))
  {
    forall v, p ensures Translates(ds, v, p) <==> Translates(RemoveAt(ds, i), v, p) { TranslatesRemove(ds, i, v, p); }
  }

  // ----- Searching the lists

  /** The first element `f` accepts, or the length of the list. */
  function FirstWhere<T>(xs: seq<T>, f: T -> bool): (i: nat)
    ensures i <= |xs| && (i < |xs| ==> f(xs[i])) && forall k | 0 <= k < i :: !f(xs[k])
  {
    if xs == [] || f(xs[0]) then 0 else 1 + FirstWhere(xs[1..], f)
  }

  method Search<T>(xs: seq<T>, f: T -> bool) returns (i: nat)
    ensures i == FirstWhere(xs, f)
  {
    i := 0;
    while i < |xs| && !f(xs[i])
      invariant i <= |xs| && forall k | 0 <= k < i :: !f(xs[k])
    {
      i := i + 1;
    }
    FirstIs(xs, f, i);
  }

  lemma {:induction false} FirstIs<T>(xs: seq<T>, f: T -> bool, i: nat)
    requires i <= |xs| && (i < |xs| ==> f(xs[i])) && forall k | 0 <= k < i :: !f(xs[k])
    ensures FirstWhere(xs, f) == i
  {
  }

  function Containing(virt: nat, size: nat): Run -> bool {
    (r: Run) => Contains(r, virt, size)
  }

  function Mappable(virt: nat, size: nat): Desc -> bool {
    (d: Desc) => Contains(RunOf(d), virt, size) && !d.mapped
  }

  function Exactly(virt: nat, pages: nat): Desc -> bool {
    (d: Desc) => d.virt == virt && d.pages == pages
  }

  function ExactlyMapped(virt: nat, pages: nat): Desc -> bool {
    (d: Desc) => d.virt == virt && d.pages == pages && d.mapped
  }

  /** The range lies in `d`, which is not mapped. */
  predicate Unused(d: Desc, virt: nat, size: nat) {
    !d.mapped && d.virt <= virt && virt + size <= d.virt + d.pages * 0x1000
  }

  /** `d` is the block of `size` bytes at `virt`. */
  predicate Matches(d: Desc, virt: nat, size: nat, mapped: bool) {
    d.virt == virt && (d.pages - 1) * 0x1000 < size <= d.pages * 0x1000 && d.mapped == mapped
  }

  predicate Spans(r: Run, virt: nat, size: nat) {
    r.start <= virt && virt + size <= r.start + r.pages * 0x1000
  }

  lemma {:induction false} FoundIff<T>(xs: seq<T>, f: T -> bool)
    ensures FirstWhere(xs, f) < |xs| <==> exists i :: 0 <= i < |xs| && f(xs[i])
  {
    if xs != [] && !f(xs[0]) {
      FoundIff(xs[1..], f);
      if exists i :: 0 <= i < |xs| && f(xs[i]) {
        var i :| 0 <= i < |xs| && f(xs[i]);
        assert f(xs[1..][i - 1]);
      }
    }
  }

  lemma {:induction false} MappableIff(ds: seq<Desc>, virt: nat, size: nat)
    ensures FirstWhere(ds, Mappable(virt, size)) < |ds| <==> exists i :: 0 <= i < |ds| && Unused(ds[i], virt, size)
  {
    FoundIff(ds, Mappable(virt, size));
  }

  lemma {:induction false} UnmappableIff(ds: seq<Desc>, virt: nat, size: nat)
    requires size > 0
    ensures FirstWhere(ds, ExactlyMapped(virt, CeilDiv(size))) < |ds| <==> exists i :: 0 <= i < |ds| && Matches(ds[i], virt, size, true)
  {
    FoundIff(ds, ExactlyMapped(virt, CeilDiv(size)));
  }

  lemma {:induction false} ReleasableIff(ds: seq<Desc>, virt: nat, size: nat)
    requires Disjoint(RunsOf(ds)) && size > 0
    ensures var i := FirstWhere(ds, Exactly(virt, CeilDiv(size)));
            i < |ds| && !ds[i].mapped <==> exists i :: 0 <= i < |ds| && Matches(ds[i], virt, size, false)
  {
    var f := Exactly(virt, CeilDiv(size));
    FoundIff(ds, f);
    var i := FirstWhere(ds, f);
    forall j | 0 <= j < |ds| && Matches(ds[j], virt, size, false) ensures i == j {
      assert f(ds[j]);
      assert RunsOf(ds)[i] == RunOf(ds[i]) && RunsOf(ds)[j] == RunOf(ds[j]);
    }
    if i < |ds| { assert Matches(ds[i], virt, size, ds[i].mapped); }
  }

  lemma {:induction false} ReservableIff(free: seq<Run>, virt: nat, size: nat)
    ensures FirstWhere(free, Containing(virt, size)) < |free| <==> exists i :: 0 <= i < |free| && Spans(free[i], virt, size)
  {
    FoundIff(free, Containing(virt, size));
  }

  // ----- Whole-state facts

  const USER_END: nat := 0x0000_8000_0000_0000
  const KERNEL_PAGES: nat := 0x1ff * 0x8_000_000 - USER_END / PAGE_SIZE

  /** The user half without page 0, and the kernel half below the page-table window. */
  function Initial(): seq<Run> {
    [Run(PAGE_SIZE, USER_END / PAGE_SIZE - 1), Run(KERNEL_HALF_OFFSET, KERNEL_PAGES)]
  }

  /** Nothing between the halves is managed, so no run reaches from one into the other. */
  lemma {:induction false} RunsStayInOneHalf(rs: seq<Run>, i: nat)
    requires forall a :: Covered(rs, a) ==> Covered(Initial(), a)
    requires i < |rs| && rs[i].pages > 0 && rs[i].start < KERNEL_HALF_OFFSET
    ensures PAGE_SIZE <= rs[i].start && End(rs[i]) <= USER_END
  {
    InitialCovers(rs[i].start);
    assert In(rs[i], rs[i].start);
    if End(rs[i]) > USER_END {
      InitialCovers(USER_END);
      assert In(rs[i], USER_END);
    }
  }

  lemma {:induction false} InitialCovers(a: nat)
    ensures Covered(Initial(), a) ==> PAGE_SIZE <= a < USER_END || a >= KERNEL_HALF_OFFSET
  {
  }

  /** Only addresses of the two halves: the user half without page 0, and the kernel half below
      the page-table window. */
  ghost predicate InHalves(rs: seq<Run>) {
    forall a: nat :: Covered(rs, a) ==>
      0x1000 <= a < 0x8000_0000_0000 || 0xffff_8000_0000_0000 <= a < 0xffff_ff80_0000_0000
  }

  /** A run inside the halves lies in the half it starts in. */
  lemma {:induction false} RunInItsHalf(rs: seq<Run>, i: nat, size: nat)
    requires InHalves(rs) && i < |rs| && 0 < size <= rs[i].pages * PAGE_SIZE
    ensures rs[i].start < 0xffff_8000_0000_0000 ==> 0x1000 <= rs[i].start && rs[i].start + size <= 0x8000_0000_0000
    ensures rs[i].start >= 0xffff_8000_0000_0000 ==> rs[i].start + size <= 0xffff_ff80_0000_0000
  {
    HalfOf(rs, i, rs[i].start);
    HalfOf(rs, i, rs[i].start + size - 1);
    HalfOf(rs, i, 0x8000_0000_0000);
  }

  lemma {:induction false} HalfOf(rs: seq<Run>, i: nat, a: nat)
    requires InHalves(rs) && i < |rs|
    ensures In(rs[i], a) ==> 0x1000 <= a < 0x8000_0000_0000 || 0xffff_8000_0000_0000 <= a < 0xffff_ff80_0000_0000
  {
    if In(rs[i], a) { assert Covered(rs, a); }
  }

  /** Inside the halves a coalesced list has no two runs that meet: the rule that keeps the halves
      apart costs nothing. */
  lemma {:induction false} NoneAdjacent(rs: seq<Run>, i: nat, j: nat)
    requires InHalves(rs) && NoEmpty(rs) && Coalesced(rs, Half()) && i < |rs| && j < |rs| && i != j
    ensures rs[i].start + rs[i].pages * 0x1000 != rs[j].start
  {
    HalfOf(rs, i, 0xffff_8000_0000_0000 - 1);
    if i < j { assert !Touch(rs[i], rs[j], Half()); } else { assert !Touch(rs[j], rs[i], Half()); }
  }

  /** One range now translates to consecutive physical addresses; everything else is as before. */
  ghost predicate MapsRange(before: seq<Desc>, after: seq<Desc>, virt: nat, size: nat, phys: nat) {
    forall v: nat, p: nat ::
      Translates(after, v, p) <==>
      if virt <= v < virt + size then p == phys + (v - virt) else Translates(before, v, p)
  }

  /** One range no longer translates; everything else is as before. */
  ghost predicate UnmapsRange(before: seq<Desc>, after: seq<Desc>, virt: nat, size: nat) {
    forall v: nat, p: nat :: Translates(after, v, p) <==> Translates(before, v, p) && !(virt <= v < virt + size)
  }

  // ----- What each operation does to the two lists

  lemma {:induction false} TakenAligned(rs: seq<Run>, k: nat, pages: nat)
    requires AllAligned(rs) && k < |rs| && pages <= rs[k].pages
    ensures AllAligned(Taken(rs, k, pages))
  {
    AlignedEnd(Run(rs[k].start, pages));
  }

  lemma {:induction false} GivenAligned(rs: seq<Run>, r: Run)
    requires AllAligned(rs) && Aligned(r.start)
    ensures AllAligned(Given(rs, r, Half()))
  {
  }

  lemma {:induction false} AllocateFacts(free: seq<Run>, ds: seq<Desc>, managed: seq<Run>, k: nat, d: Desc)
    requires Partition(free, RunsOf(ds), managed) && AllAligned(free) && AllAligned(RunsOf(ds))
    requires k < |free| && d.pages <= free[k].pages && d.virt == free[k].start && !d.mapped
    ensures var free', ds' := Taken(free, k, d.pages), ds + [d];
            && Partition(free', RunsOf(ds'), managed) && AllAligned(free') && AllAligned(RunsOf(ds'))
            && Moves(RunOf(d), free, free', RunsOf(ds), RunsOf(ds'))
            && SameTranslation(ds, ds') && Pages(free') == Pages(free) - d.pages
            && (NoEmpty(free) && Coalesced(free, Half()) ==> NoEmpty(free') && Coalesced(free', Half()))
  {
    TakeMoves(free, RunsOf(ds), managed, k, d.pages);
    RunsOfAppend(ds, d);
    TakenAligned(free, k, d.pages);
    TakenPages(free, k, d.pages);
    AddUnmappedKeepsTranslation(ds, d);
    if NoEmpty(free) && Coalesced(free, Half()) { TakenCoalesced(free, k, d.pages, Half()); }
  }

  lemma {:induction false} DeallocateFacts(free: seq<Run>, ds: seq<Desc>, managed: seq<Run>, i: nat)
    requires Partition(free, RunsOf(ds), managed) && AllAligned(free) && AllAligned(RunsOf(ds))
    requires i < |ds| && !ds[i].mapped
    ensures var g := RunOf(ds[i]);
            var free', ds' := Given(free, g, Half()), RemoveAt(ds, i);
            && Partition(free', RunsOf(ds'), managed) && AllAligned(free') && AllAligned(RunsOf(ds'))
            && Moves(g, RunsOf(ds), RunsOf(ds'), free, free')
            && SameTranslation(ds, ds') && Pages(free') == Pages(free) + g.pages
            && (NoEmpty(free) && Coalesced(free, Half()) && g.pages > 0 ==> NoEmpty(free') && Coalesced(free', Half()))
  {
    var rs := RunsOf(ds);
    assert rs[i] == RunOf(ds[i]);
    GiveMoves(free, rs, managed, i, Half());
    RunsOfRemove(ds, i);
    GivenAligned(free, rs[i]);
    GivenPages(free, rs[i], Half());
    RemoveUnmappedKeepsTranslation(ds, i);
    if NoEmpty(free) && Coalesced(free, Half()) && rs[i].pages > 0 { GivenCoalesced(free, rs[i], Half()); }
  }

  /** The free list after reserving part of run `i`. */
  function Reserved(free: seq<Run>, i: nat, virt: nat, size: nat): seq<Run>
    requires i < |free| && Contains(free[i], virt, size)
  {
    CutOut(free, i, Pieces(TopOf(free[i], virt), BottomOf(free[i], virt, size)))
  }

  function ReservedBlock(virt: nat, size: nat): Desc {
    Desc(CeilDiv(size), 0, virt, 0, false)
  }

  lemma {:induction false} ReserveFacts(free: seq<Run>, ds: seq<Desc>, managed: seq<Run>, i: nat, virt: nat, size: nat)
    requires Partition(free, RunsOf(ds), managed) && AllAligned(free) && AllAligned(RunsOf(ds))
    requires i < |free| && Contains(free[i], virt, size) && Aligned(virt) && Aligned(size)
    ensures var free', ds' := Reserved(free, i, virt, size), ds + [ReservedBlock(virt, size)];
            && Partition(free', RunsOf(ds'), managed) && AllAligned(free') && AllAligned(RunsOf(ds'))
            && Moves(Run(virt, CeilDiv(size)), free, free', RunsOf(ds), RunsOf(ds'))
            && SameTranslation(ds, ds') && Pages(free') + CeilDiv(size) == Pages(free)
            && (NoEmpty(free) && Coalesced(free, Half()) && size > 0 ==> NoEmpty(free') && Coalesced(free', Half()))
  {
    var ps, d := Pieces(TopOf(free[i], virt), BottomOf(free[i], virt, size)), ReservedBlock(virt, size);
    PiecesTile(free[i], virt, size);
    CutOutFacts(free, i, ps, RunOf(d));
    CutOutMoves(free, RunsOf(ds), managed, i, ps, RunOf(d));
    RunsOfAppend(ds, d);
    AddUnmappedKeepsTranslation(ds, d);
    if NoEmpty(free) && Coalesced(free, Half()) && size > 0 { CutOutCoalesced(free, i, virt, size); }
  }

  /** The reserved blocks after mapping part of block `i`. */
  function Mapped(ds: seq<Desc>, i: nat, size: nat, phys: nat, virt: nat, flags: bv8): seq<Desc>
    requires i < |ds| && Contains(RunOf(ds[i]), virt, size)
  {
    var r := RunOf(ds[i]);
    Remapped(ds, i, Pieces(TopOf(r, virt), BottomOf(r, virt, size)), Desc(CeilDiv(size), phys, virt, flags, true))
  }

  lemma {:induction false} MapFacts(free: seq<Run>, ds: seq<Desc>, managed: seq<Run>,
                                    i: nat, size: nat, phys: nat, virt: nat, flags: bv8)
    requires Partition(free, RunsOf(ds), managed) && AllAligned(RunsOf(ds))
    requires i < |ds| && !ds[i].mapped && Contains(RunOf(ds[i]), virt, size) && Aligned(virt) && Aligned(size)
    ensures var ds' := Mapped(ds, i, size, phys, virt, flags);
            && Partition(free, RunsOf(ds'), managed) && AllAligned(RunsOf(ds'))
            && (forall a :: Covered(RunsOf(ds'), a) <==> Covered(RunsOf(ds), a))
            && MapsRange(ds, ds', virt, size, phys)
  {
    var r, d := RunOf(ds[i]), Desc(CeilDiv(size), phys, virt, flags, true);
    var ps, rs := Pieces(TopOf(r, virt), BottomOf(r, virt, size)), RunsOf(ds);
    assert rs[i] == r;
    PiecesTile(r, virt, size);
    CeilDivExact(size);
    RemappedRuns(ds, i, ps, d);
    RecutKeeps(free, rs, managed, i, ps, RunOf(d));
    CutOutFacts(rs, i, ps, RunOf(d));
    forall v: nat, p: nat
      ensures Translates(Remapped(ds, i, ps, d), v, p) <==>
              if virt <= v < virt + size then p == phys + (v - virt) else Translates(ds, v, p)
    {
      RemappedTranslates(ds, i, ps, d, v, p);
    }
  }

  lemma {:induction false} UnmapFacts(ds: seq<Desc>, i: nat)
    requires Disjoint(RunsOf(ds)) && i < |ds| && ds[i].mapped
    ensures var ds' := ds[i := ds[i].(mapped := false, phys := 0)];
            && RunsOf(ds') == RunsOf(ds)
            && UnmapsRange(ds, ds', ds[i].virt, ds[i].pages * PAGE_SIZE)
            && MapsRange(ds, ds, ds[i].virt, ds[i].pages * PAGE_SIZE, ds[i].phys)
  {
    var d := ds[i].(mapped := false, phys := 0);
    RunsOfUpdate(ds, i, d);
    forall v: nat, p: nat
      ensures Translates(ds[i := d], v, p) <==>
              Translates(ds, v, p) && !(ds[i].virt <= v < ds[i].virt + ds[i].pages * PAGE_SIZE)
    {
      UnmapTranslates(ds, i, d, v, p);
    }
    forall v: nat, p: nat | ds[i].virt <= v < ds[i].virt + ds[i].pages * PAGE_SIZE
      ensures Translates(ds, v, p) <==> p == ds[i].phys + (v - ds[i].virt)
    {
      var q := ds[i].phys + (v - ds[i].virt);
      assert MapsTo(ds[i], v, q);
      if Translates(ds, v, p) { TranslatesUnique(ds, v, p, q); }
    }
  }

  /** Nothing in an unmapped block translates. */
  lemma {:induction false} UnmappedIsSilent(ds: seq<Desc>, i: nat, v: nat, p: nat)
    requires Disjoint(RunsOf(ds)) && i < |ds| && !ds[i].mapped && In(RunOf(ds[i]), v)
    ensures !Translates(ds, v, p)
  {
    TranslatesRemove(ds, i, v, p);
    OthersMissRange(ds, i, v, p);
  }

  /** Unmapping the block that a mapping made restores every translation. */
  lemma {:induction false} UnmapUndoesMap(ds: seq<Desc>, i: nat, size: nat, phys: nat, virt: nat, flags: bv8)
    requires Disjoint(RunsOf(ds)) && AllAligned(RunsOf(ds))
    requires i < |ds| && !ds[i].mapped && Contains(RunOf(ds[i]), virt, size) && Aligned(virt) && Aligned(size)
    ensures var mapped := Mapped(ds, i, size, phys, virt, flags);
            var k := |mapped| - 1;
            && ExactlyMapped(virt, CeilDiv(size))(mapped[k]) && mapped[k].phys == phys
            && SameTranslation(ds, mapped[k := mapped[k].(mapped := false, phys := 0)])
  {
    var mapped := Mapped(ds, i, size, phys, virt, flags);
    var k := |mapped| - 1;
    var after := mapped[k := mapped[k].(mapped := false, phys := 0)];
    assert mapped[k] == Desc(CeilDiv(size), phys, virt, flags, true);
    MapFacts([], ds, RunsOf(ds), i, size, phys, virt, flags);
    UnmapFacts(mapped, k);
    CeilDivExact(size);
    forall v: nat, p: nat ensures Translates(ds, v, p) <==> Translates(after, v, p) {
      if virt <= v < virt + size { UnmappedIsSilent(ds, i, v, p); }
      assert Translates(after, v, p) <==> Translates(mapped, v, p) && !(virt <= v < virt + size);
    }
  }

  /** With disjoint blocks `unmap_memory` finds that block and no other. */
  lemma {:induction false} ExactBlockIsUnique(ds: seq<Desc>, k: nat, virt: nat, pages: nat)
    requires Disjoint(RunsOf(ds)) && k < |ds| && pages > 0 && ExactlyMapped(virt, pages)(ds[k])
    ensures FirstWhere(ds, ExactlyMapped(virt, pages)) == k
  {
    var rs, j := RunsOf(ds), FirstWhere(ds, ExactlyMapped(virt, pages));
    assert rs[j] == RunOf(ds[j]) && rs[k] == RunOf(ds[k]);
  }

  lemma {:induction false} RoundUpPages(size: nat)
    ensures CeilDiv(RoundUp(size)) == CeilDiv(size) && CeilDiv(size) * PAGE_SIZE == RoundUp(size)
  {
    CeilDivExact(RoundUp(size));
  }

  /** The runs below the kernel half. */
  function UserRuns(rs: seq<Run>): seq<Run> {
    if rs == [] then [] else (if InHalf(true)(rs[0]) then [rs[0]] else []) + UserRuns(rs[1..])
  }

  lemma {:induction false} UserRunsAre(rs: seq<Run>, r: Run)
    ensures r in UserRuns(rs) <==> r in rs && InHalf(true)(r)
  {
    if rs != [] {
      assert rs == [rs[0]] + rs[1..];
      UserRunsAre(rs[1..], r);
    }
  }

  /** Each user run is a run of the list. */
  lemma {:induction false} UserRunAt(rs: seq<Run>, i: nat) returns (k: nat)
    requires i < |UserRuns(rs)|
    ensures k < |rs| && rs[k] == UserRuns(rs)[i]
  {
    UserRunsAre(rs, UserRuns(rs)[i]);
    k :| 0 <= k < |rs| && rs[k] == UserRuns(rs)[i];
  }

  /** The first run keeps its distance from every user run behind it. */
  lemma {:induction false} FirstKeepsAway(rs: seq<Run>, i: nat)
    requires rs != [] && Disjoint(rs) && i < |UserRuns(rs[1..])|
    ensures var u := UserRuns(rs[1..])[i];
            Apart(rs[0], u) && (Coalesced(rs, Half()) ==> !Touch(rs[0], u, Half()))
  {
    var k := UserRunAt(rs[1..], i);
    assert rs[1..][k] == rs[k + 1];
  }

  ghost predicate Tidy(rs: seq<Run>) {
    NoEmpty(rs) && Coalesced(rs, Half())
  }

  lemma {:induction false} UserRunsFacts(rs: seq<Run>)
    requires Disjoint(rs) && AllAligned(rs)
    ensures Disjoint(UserRuns(rs)) && AllAligned(UserRuns(rs)) && (Tidy(rs) ==> Tidy(UserRuns(rs)))
  {
    if rs != [] {
      var us := UserRuns(rs[1..]);
      UserRunsFacts(rs[1..]);
      forall i | 0 <= i < |us| ensures Apart(rs[0], us[i]) && (Coalesced(rs, Half()) ==> !Touch(rs[0], us[i], Half())) {
        FirstKeepsAway(rs, i);
      }
    }
  }

  /** The user half of a free list is a partition of its own, with nothing reserved. */
  lemma {:induction false} UserHalf(rs: seq<Run>)
    requires Disjoint(rs) && AllAligned(rs)
    ensures var us := UserRuns(rs);
            && Partition(us, RunsOf([]), us) && AllAligned(us) && AllAligned(RunsOf([]))
            && (NoEmpty(rs) && Coalesced(rs, Half()) ==> NoEmpty(us) && Coalesced(us, Half()))
            && forall r :: r in us <==> r in rs && InHalf(true)(r)
  {
    UserRunsFacts(rs);
    assert Tidy(rs) <==> NoEmpty(rs) && Coalesced(rs, Half());
    forall r ensures r in UserRuns(rs) <==> r in rs && InHalf(true)(r) { UserRunsAre(rs, r); }
  }

  /** `size` bytes at `addr` are in the user half, or in the kernel half, as asked. */
  predicate WithinHalf(addr: nat, size: nat, isUser: bool) {
    if isUser then 0x1000 <= addr && addr + size <= 0x8000_0000_0000
    else 0xffff_8000_0000_0000 <= addr && addr + size <= 0xffff_ff80_0000_0000
  }

  lemma {:induction false} GrantInItsHalf(free: seq<Run>, alloc: seq<Run>, managed: seq<Run>, k: nat, size: nat)
    requires Partition(free, alloc, managed) && k < |free| && CeilDiv(size) <= free[k].pages
    ensures InHalves(managed) && size > 0 ==> WithinHalf(free[k].start, size, free[k].start < 0xffff_8000_0000_0000)
  {
    if InHalves(managed) && size > 0 { RunInItsHalf(free, k, size); }
  }

  lemma {:induction false} InitialInHalves()
    ensures InHalves(Initial())
  {
  }

  lemma {:induction false} UserRunsInHalves(rs: seq<Run>, alloc: seq<Run>, managed: seq<Run>)
    requires Partition(rs, alloc, managed)
    ensures InHalves(managed) ==> InHalves(UserRuns(rs))
  {
    forall a: nat | Covered(UserRuns(rs), a) ensures Covered(managed, a) {
      var i :| 0 <= i < |UserRuns(rs)| && In(UserRuns(rs)[i], a);
      var k := UserRunAt(rs, i);
      assert In(rs[k], a);
    }
  }

  lemma {:induction false} NewBlockDecides(ds: seq<Desc>, d: Desc)
    ensures AllAligned(RunsOf(ds + [d])) ==> Aligned(d.virt)
  {
    assert RunsOf(ds + [d])[|ds|] == RunOf(d);
  }

  class VirtMemConBlk {
    var totalMemory: nat
    var avlMemory: nat
    var freeBlockList: seq<Run>
    var allocBlockList: seq<Desc>
    const procId: nat
    ghost const managed: seq<Run>
    /** Pages handed out by `ReserveVirtualSpace`, which `avlMemory` does not count. */
    ghost var undebited: nat

    /** Free and reserved blocks partition the managed ranges on page boundaries. */
    ghost predicate Valid()
      reads this
    {
      && Partition(freeBlockList, RunsOf(allocBlockList), managed)
      && AllAligned(freeBlockList) && AllAligned(RunsOf(allocBlockList))
      && avlMemory == PAGE_SIZE * (Pages(freeBlockList) + undebited)
    }

    ghost predicate FullyCoalesced()
      reads this
    {
      NoEmpty(freeBlockList) && Coalesced(freeBlockList, Half())
    }

    /** The kernel address space. */
    constructor ()
      ensures Valid() && FullyCoalesced() && procId == 0 && managed == Initial() && undebited == 0 && InHalves(managed)
      ensures freeBlockList == [Run(0x1000, 0x7_ffff_ffff), Run(0xffff_8000_0000_0000, 0x7_f800_0000)]
      ensures freeBlockList == Initial() && allocBlockList == [] && avlMemory == totalMemory
    {
      freeBlockList, allocBlockList, managed, procId, undebited := Initial(), [], Initial(), 0, 0;
      totalMemory := 0x1ff * 0x80_0000_0000 - PAGE_SIZE;
      avlMemory := 0x1ff * 0x80_0000_0000 - PAGE_SIZE;
      new;
      assert Initial()[1..] == [Initial()[1]] && Initial()[1..][1..] == [];
      InitialInHalves();
    }

    /** The address space of a new process: the user half that the kernel left free. */
    constructor Clone(parent: VirtMemConBlk, proc: nat)
      requires parent.Valid() && parent.procId == 0
      ensures Valid() && procId == proc && undebited == 0 && managed == freeBlockList && allocBlockList == []
      ensures totalMemory == parent.totalMemory
      ensures forall r :: r in freeBlockList <==> r in parent.freeBlockList && r.start < 0xffff_8000_0000_0000
      ensures parent.FullyCoalesced() ==> FullyCoalesced()
      ensures InHalves(parent.managed) ==> InHalves(managed)
    {
      var low := UserRuns(parent.freeBlockList);
      freeBlockList, allocBlockList, managed, procId, undebited := low, [], low, proc, 0;
      totalMemory := parent.totalMemory;
      avlMemory := PAGE_SIZE * Pages(low);
      new;
      UserHalf(parent.freeBlockList);
      UserRunsInHalves(parent.freeBlockList, RunsOf(parent.allocBlockList), parent.managed);
    }

    /** What a successful allocation did. */
    ghost predicate Granted(k: nat, d: Desc, free0: seq<Run>, alloc0: seq<Desc>)
      reads this
    {
      && k < |free0| && free0[k].start == d.virt && free0[k].pages >= d.pages
      && freeBlockList == Taken(free0, k, d.pages)
      && allocBlockList == alloc0 + [d]
    }

    /** `find_best_fit` */
    method TakeBestFit(pages: nat, isUser: bool) returns (r: Result<nat>, ghost k: nat)
      modifies this`freeBlockList
      ensures match r
              case Err(e) => e == OutOfMemory && NoFit(old(freeBlockList), pages, InHalf(isUser)) &&
                             freeBlockList == old(freeBlockList)
              case Ok(addr) => BestFit(old(freeBlockList), pages, InHalf(isUser), k) &&
                               addr == old(freeBlockList)[k].start && freeBlockList == Taken(old(freeBlockList), k, pages)
      ensures r.Ok? ==> (isUser <==> r.value < 0xffff_8000_0000_0000)
      ensures r.Err? ==> forall j | 0 <= j < |freeBlockList| && freeBlockList[j].pages >= pages ::
                           isUser <==> freeBlockList[j].start >= 0xffff_8000_0000_0000
    {
      var i := FindBestFit(freeBlockList, pages, InHalf(isUser));
      k := i;
      if i == |freeBlockList| { return Err(OutOfMemory), k; }
      var node := freeBlockList[i];
      var addr := node.start;
      node := Run(node.start + pages * PAGE_SIZE, node.pages - pages);
      freeBlockList := if node.pages == 0 then RemoveAt(freeBlockList, i) else freeBlockList[i := node];
      r := Ok(addr);
    }

    method Allocate(size: nat, align: nat, isUser: bool) returns (r: Result<nat>, ghost k: nat)
      requires Valid() && !(procId == 0 && isUser)
      modifies this`avlMemory, this`freeBlockList, this`allocBlockList
      ensures Valid() && (old(FullyCoalesced()) ==> FullyCoalesced())
      ensures var pages := CeilDiv(size);
              if size >= old(avlMemory) || size > totalMemory then r == Err(OutOfMemory)
              else if align > PAGE_SIZE then r == Err(InvalidArgument)
              else if NoFit(old(freeBlockList), pages, InHalf(isUser)) then r == Err(OutOfMemory)
              else r.Ok? && BestFit(old(freeBlockList), pages, InHalf(isUser), k) &&
                   Granted(k, Desc(pages, 0, r.value, if isUser then 2 else 0, false), old(freeBlockList), old(allocBlockList))
      ensures r.Ok? ==> (isUser <==> r.value < 0xffff_8000_0000_0000)
      ensures r.Ok? && size > 0 && InHalves(managed) ==> WithinHalf(r.value, size, isUser)
      ensures r == Err(OutOfMemory) && size < avlMemory && size <= totalMemory ==>
                forall j | 0 <= j < |freeBlockList| && freeBlockList[j].pages * PAGE_SIZE >= size ::
                  isUser <==> freeBlockList[j].start >= 0xffff_8000_0000_0000
      ensures r.Ok? ==> Aligned(r.value) &&
                        Moves(Run(r.value, CeilDiv(size)), old(freeBlockList), freeBlockList, RunsOf(old(allocBlockList)), RunsOf(allocBlockList))
      ensures SameTranslation(old(allocBlockList), allocBlockList)
      ensures r.Err? ==> unchanged(this)
    {
      k := 0;
      if size >= avlMemory || size > totalMemory { return Err(OutOfMemory), k; }
      if align > PAGE_SIZE { return Err(InvalidArgument), k; }
      var pages := CeilDiv(size);
      ghost var free0 := freeBlockList;
      EnoughPages(size, Pages(free0) + undebited);
      r, k := TakeBestFit(pages, isUser);
      if r.Err? { return; }
      GrantInItsHalf(free0, RunsOf(allocBlockList), managed, k, size);
      var d := Desc(pages, 0, r.value, if isUser then USER else 0, false);
      AllocateFacts(free0, allocBlockList, managed, k, d);
      avlMemory := avlMemory - pages * PAGE_SIZE;
      allocBlockList := allocBlockList + [d];
    }

    /** A block is released only while it is not mapped. */
    method Deallocate(addr: nat, size: nat, align: nat) returns (r: Result<()>)
      requires Valid()
      modifies this`avlMemory, this`freeBlockList, this`allocBlockList
      ensures Valid() && (old(FullyCoalesced()) && size > 0 ==> FullyCoalesced())
      ensures var i := FirstWhere(old(allocBlockList), Exactly(addr, CeilDiv(size)));
              if align > PAGE_SIZE || i == |old(allocBlockList)| || old(allocBlockList)[i].mapped
              then r == Err(InvalidArgument) && unchanged(this)
              else
                && r == Ok(())
                && freeBlockList == Given(old(freeBlockList), Run(addr, CeilDiv(size)), Half())
                && allocBlockList == RemoveAt(old(allocBlockList), i)
                && Moves(Run(addr, CeilDiv(size)), RunsOf(old(allocBlockList)), RunsOf(allocBlockList), old(freeBlockList), freeBlockList)
      ensures SameTranslation(old(allocBlockList), allocBlockList)
      ensures size > 0 && align <= 0x1000 ==>
                (r.Ok? <==> exists i :: 0 <= i < |old(allocBlockList)| && Matches(old(allocBlockList)[i], addr, size, false))
    {
      if size > 0 { ReleasableIff(allocBlockList, addr, size); }
      if align > PAGE_SIZE { return Err(InvalidArgument); }
      var pages := CeilDiv(size);
      var i := Search(allocBlockList, Exactly(addr, pages));
      if i == |allocBlockList| { return Err(InvalidArgument); }
      if allocBlockList[i].mapped { return Err(InvalidArgument); }
      DeallocateFacts(freeBlockList, allocBlockList, managed, i);
      allocBlockList := RemoveAt(allocBlockList, i);
      freeBlockList := GiveBack(freeBlockList, addr, pages, Half());
      avlMemory := avlMemory + pages * PAGE_SIZE;
      r := Ok(());
    }

    /** Carves an exact range out of a free run. Nothing checks that `virt` is on a page
        boundary; off one the call succeeds, the pieces overlap (`PageMap.SplitOverlapsIff`)
        and the address space is no longer valid. */
    method ReserveVirtualSpace(virt: nat, bytes: nat) returns (r: Result<()>)
      requires Valid()
      modifies this`freeBlockList, this`allocBlockList, this`undebited
      ensures var size := RoundUp(bytes);
              var i := FirstWhere(old(freeBlockList), Containing(virt, size));
              if i == |old(freeBlockList)| then r == Err(OutOfMemory) && unchanged(this)
              else
                && r == Ok(())
                && freeBlockList == Reserved(old(freeBlockList), i, virt, size)
                && allocBlockList == old(allocBlockList) + [Desc(CeilDiv(size), 0, virt, 0, false)]
                && undebited == old(undebited) + CeilDiv(size)
      ensures r.Ok? <==> exists i :: 0 <= i < |old(freeBlockList)| && Spans(old(freeBlockList)[i], virt, RoundUp(bytes))
      ensures Valid() <==> r.Err? || Aligned(virt)
      ensures Aligned(virt) && old(FullyCoalesced()) && bytes > 0 ==> FullyCoalesced()
      ensures SameTranslation(old(allocBlockList), allocBlockList)
      ensures Aligned(virt) && r.Ok? ==>
                Moves(Run(virt, CeilDiv(bytes)), old(freeBlockList), freeBlockList, RunsOf(old(allocBlockList)), RunsOf(allocBlockList))
    {
      var size := RoundUp(bytes);
      RoundUpPages(bytes);
      ReservableIff(freeBlockList, virt, size);
      var i := Search(freeBlockList, Containing(virt, size));
      if i == |freeBlockList| { return Err(OutOfMemory); }
      var desc := freeBlockList[i];
      if Aligned(virt) { ReserveFacts(freeBlockList, allocBlockList, managed, i, virt, size); }
      AddUnmappedKeepsTranslation(allocBlockList, ReservedBlock(virt, size));
      NewBlockDecides(allocBlockList, ReservedBlock(virt, size));
      var top, bottom := TopOf(desc, virt), BottomOf(desc, virt, size);
      freeBlockList := RemoveAt(freeBlockList, i) + Pieces(top, bottom);
      allocBlockList := allocBlockList + [ReservedBlock(virt, size)];
      undebited := undebited + CeilDiv(size);
      r := Ok(());
    }

    /** Only a reserved, unmapped range can be mapped; every other translation stays as it is. */
    method MapMemory(phys: nat, virt: nat, bytes: nat, flags: bv8) returns (r: Result<()>)
      requires Valid() && !(procId == 0 && flags & USER != 0)
      modifies this`allocBlockList
      ensures Valid() && (forall a :: Covered(RunsOf(allocBlockList), a) <==> Covered(RunsOf(old(allocBlockList)), a))
      ensures var size := RoundUp(bytes);
              if !Aligned(phys) || !Aligned(virt) then r == Err(InvalidArgument) && unchanged(this)
              else if procId != 0 && flags & USER == 0 then r == Ok(()) && unchanged(this)
              else
                var i := FirstWhere(old(allocBlockList), Mappable(virt, size));
                if i == |old(allocBlockList)| then r == Err(InvalidArgument) && unchanged(this)
                else
                  && r == Ok(())
                  && allocBlockList == Mapped(old(allocBlockList), i, size, phys, virt, flags)
                  && MapsRange(old(allocBlockList), allocBlockList, virt, size, phys)
                  && Desc(CeilDiv(size), phys, virt, flags, true) in allocBlockList
      ensures virt % 0x1000 == 0 && phys % 0x1000 == 0 && (procId == 0 || flags & 2 != 0) ==>
                (r.Ok? <==> exists i :: 0 <= i < |old(allocBlockList)| && Unused(old(allocBlockList)[i], virt, RoundUp(bytes)))
    {
      var size := RoundUp(bytes);
      MappableIff(allocBlockList, virt, size);
      if !Aligned(phys) || !Aligned(virt) { return Err(InvalidArgument); }
      if procId != 0 && flags & USER == 0 { return Ok(()); }
      var i := Search(allocBlockList, Mappable(virt, size));
      if i == |allocBlockList| { return Err(InvalidArgument); }
      MapFacts(freeBlockList, allocBlockList, managed, i, size, phys, virt, flags);
      var desc := RunOf(allocBlockList[i]);
      var top, bottom := TopOf(desc, virt), BottomOf(desc, virt, size);
      allocBlockList := RemoveAt(allocBlockList, i) + Unmapped(Pieces(top, bottom));
      allocBlockList := allocBlockList + [Desc(CeilDiv(size), phys, virt, flags, true)];
      r := Ok(());
    }

    /** Unmapping takes an exactly mapped block; it stays reserved. */
    method UnmapMemory(virt: nat, bytes: nat, isUser: bool) returns (r: Result<nat>)
      requires Valid()
      modifies this`allocBlockList
      ensures Valid() && RunsOf(allocBlockList) == RunsOf(old(allocBlockList))
      ensures var size := RoundUp(bytes);
              if !Aligned(virt) then r == Err(InvalidArgument) && unchanged(this)
              else if procId != 0 && !isUser then r == Ok(0) && unchanged(this)
              else
                var i := FirstWhere(old(allocBlockList), ExactlyMapped(virt, CeilDiv(size)));
                if i == |old(allocBlockList)| then r == Err(InvalidArgument) && unchanged(this)
                else
                  && r.Ok? && r.value == old(allocBlockList)[i].phys
                  && MapsRange(old(allocBlockList), old(allocBlockList), virt, size, r.value)
                  && UnmapsRange(old(allocBlockList), allocBlockList, virt, size)
                  && allocBlockList == old(allocBlockList)[i := old(allocBlockList)[i].(mapped := false, phys := 0)]
      ensures virt % 0x1000 == 0 && bytes > 0 && (procId == 0 || isUser) ==>
                (r.Ok? <==> exists i :: 0 <= i < |old(allocBlockList)| && Matches(old(allocBlockList)[i], virt, bytes, true))
    {
      var size := RoundUp(bytes);
      if bytes > 0 { UnmappableIff(allocBlockList, virt, bytes); RoundUpPages(bytes); }
      if !Aligned(virt) { return Err(InvalidArgument); }
      if procId != 0 && !isUser { return Ok(0); }
      var i := Search(allocBlockList, ExactlyMapped(virt, CeilDiv(size)));
      if i == |allocBlockList| { return Err(InvalidArgument); }
      RoundUpPages(bytes);
      UnmapFacts(allocBlockList, i);
      var desc := allocBlockList[i];
      allocBlockList := allocBlockList[i := desc.(mapped := false, phys := 0)];
      r := Ok(desc.phys);
    }

    /** The lookup is the partial map the blocks stand for. */
    method GetPhysAddress(virt: nat) returns (r: Option<nat>)
      requires Valid()
      ensures forall p: nat :: Translates(allocBlockList, virt, p) <==> r == Some(p)
    {
      for i := 0 to |allocBlockList|
        invariant forall k, p: nat | 0 <= k < i :: !MapsTo(allocBlockList[k], virt, p)
      {
        var blk := allocBlockList[i];
        if blk.virt <= virt < blk.virt + blk.pages * PAGE_SIZE && blk.mapped {
          var p := blk.phys + virt - blk.virt;
          assert MapsTo(blk, virt, p);
          forall q: nat ensures Translates(allocBlockList, virt, q) <==> q == p {
            if Translates(allocBlockList, virt, q) { TranslatesUnique(allocBlockList, virt, p, q); }
          }
          return Some(p);
        }
      }
      return None;
    }
  }
}
