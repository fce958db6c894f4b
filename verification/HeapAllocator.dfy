/** The kernel heap (kernel/src/mem/heap_allocator.rs): an unordered list of free regions,
    first fit, and merging on release. The list is kept as a sequence, head first. */
module HeapAllocator {
  import opened Basics

  const PAGE_SIZE: nat := 4096
  const NODE_SIZE: nat := 16
  const NODE_ALIGN: nat := 8

  datatype Region = Region(addr: nat, size: nat)

  function End(r: Region): nat {
    r.addr + r.size
  }

  predicate In(r: Region, a: nat) {
    r.addr <= a < End(r)
  }

  predicate Apart(r: Region, s: Region) {
    End(r) <= s.addr || End(s) <= r.addr
  }

  predicate Adjacent(r: Region, s: Region) {
    End(r) == s.addr || End(s) == r.addr
  }

  /** Large enough to hold a list node, and aligned for it. */
  predicate NodeOk(r: Region) {
    r.addr > 0 && r.addr % NODE_ALIGN == 0 && r.size >= NODE_SIZE
  }

  ghost predicate AllNodeOk(rs: seq<Region>) {
    forall i | 0 <= i < |rs| :: NodeOk(rs[i])
  }

  /** Pairwise disjoint, and not even adjacent. */
  ghost predicate Scattered(rs: seq<Region>) {
    forall i, j | 0 <= i < j < |rs| :: Apart(rs[i], rs[j]) && !Adjacent(rs[i], rs[j])
  }

  ghost predicate ApartFrom(rs: seq<Region>, r: Region) {
    forall i | 0 <= i < |rs| :: Apart(rs[i], r)
  }

  ghost predicate Covered(rs: seq<Region>, a: nat) {
    exists i :: 0 <= i < |rs| && In(rs[i], a)
  }

  function Total(rs: seq<Region>): nat {
    if rs == [] then 0 else rs[0].size + Total(rs[1..])
  }

  lemma {:induction false} TotalRemove(rs: seq<Region>, i: nat)
    requires i < |rs|
    ensures Total(RemoveAt(rs, i)) + rs[i].size == Total(rs)
  {
    if i == 0 {
      assert RemoveAt(rs, 0) == rs[1..];
    } else {
      TotalRemove(rs[1..], i - 1);
      assert RemoveAt(rs, i)[1..] == RemoveAt(rs[1..], i - 1);
    }
  }

  /** Nothing in the list is larger than the list. */
  lemma {:induction false} TotalBounds(rs: seq<Region>, i: nat)
    requires i < |rs|
    ensures rs[i].size <= Total(rs)
  {
    TotalRemove(rs, i);
  }

  // ----- Adding a free region

  function FirstAdjacent(rs: seq<Region>, r: Region): (i: nat)
    ensures i <= |rs| && (i < |rs| ==> Adjacent(rs[i], r)) && forall k | 0 <= k < i :: !Adjacent(rs[k], r)
  {
    if rs == [] || Adjacent(rs[0], r) then 0 else 1 + FirstAdjacent(rs[1..], r)
  }

  function Join(s: Region, r: Region): Region {
    Region(if End(s) == r.addr then s.addr else r.addr, r.size + s.size)
  }

  /** Neighbours are absorbed one after the other, then the result goes to the front. */
  function Added(rs: seq<Region>, r: Region): seq<Region>
    decreases |rs|
  {
    var i := FirstAdjacent(rs, r);
    if i == |rs| then [r] + rs else Added(RemoveAt(rs, i), Join(rs[i], r))
  }

  lemma {:induction false} JoinFacts(s: Region, r: Region)
    requires Apart(s, r) && Adjacent(s, r)
    ensures NodeOk(s) && NodeOk(r) ==> NodeOk(Join(s, r))
    ensures s.size > 0 && r.size > 0 ==> forall a :: In(Join(s, r), a) <==> In(s, a) || In(r, a)
  {
  }

  lemma {:induction false} RemoveFacts(rs: seq<Region>, i: nat)
    requires i < |rs|
    ensures forall k | 0 <= k < |rs| - 1 :: RemoveAt(rs, i)[k] == rs[if k < i then k else k + 1]
    ensures Scattered(rs) ==> Scattered(RemoveAt(rs, i))
    ensures AllNodeOk(rs) ==> AllNodeOk(RemoveAt(rs, i))
    ensures Scattered(rs) ==> forall k | 0 <= k < |rs| - 1 :: Apart(RemoveAt(rs, i)[k], rs[i]) && !Adjacent(RemoveAt(rs, i)[k], rs[i])
    ensures forall x :: ApartFrom(rs, x) ==> ApartFrom(RemoveAt(rs, i), x)
  {
  }

  /** Merging keeps the list scattered and the new region apart from it. */
  lemma {:induction false} JoinApart(rs: seq<Region>, i: nat, r: Region)
    requires Scattered(rs) && AllNodeOk(rs) && NodeOk(r) && ApartFrom(rs, r) && i < |rs| && Adjacent(rs[i], r)
    ensures NodeOk(Join(rs[i], r)) && ApartFrom(RemoveAt(rs, i), Join(rs[i], r))
  {
    RemoveFacts(rs, i);
    JoinFacts(rs[i], r);
    var us, j := RemoveAt(rs, i), Join(rs[i], r);
    forall k | 0 <= k < |us| ensures Apart(us[k], j) {
      var k' := if k < i then k else k + 1;
      assert us[k] == rs[k'] && Apart(rs[k'], r) && Apart(us[k], rs[i]) && NodeOk(rs[k']);
    }
  }

  /** The free regions stay node-sized, aligned, disjoint and apart from one another. */
  lemma {:induction false} AddedScattered(rs: seq<Region>, r: Region)
    requires Scattered(rs) && AllNodeOk(rs) && NodeOk(r) && ApartFrom(rs, r)
    ensures Scattered(Added(rs, r)) && AllNodeOk(Added(rs, r))
    decreases |rs|
  {
    var i := FirstAdjacent(rs, r);
    if i < |rs| {
      RemoveFacts(rs, i);
      JoinApart(rs, i, r);
      AddedScattered(RemoveAt(rs, i), Join(rs[i], r));
    }
  }

  /** Exactly the bytes of `r` become free. */
  lemma {:induction false} AddedCovers(rs: seq<Region>, r: Region, a: nat)
    requires Scattered(rs) && AllNodeOk(rs) && NodeOk(r) && ApartFrom(rs, r)
    ensures Covered(Added(rs, r), a) <==> Covered(rs, a) || In(r, a)
    decreases |rs|
  {
    var i := FirstAdjacent(rs, r);
    if i == |rs| {
      PrependCovers(rs, r, a);
    } else {
      RemoveFacts(rs, i);
      JoinApart(rs, i, r);
      JoinFacts(rs[i], r);
      AddedCovers(RemoveAt(rs, i), Join(rs[i], r), a);
      RemoveCovers(rs, i, a);
    }
  }

  lemma {:induction false} PrependCovers(rs: seq<Region>, r: Region, a: nat)
    ensures Covered([r] + rs, a) <==> Covered(rs, a) || In(r, a)
  {
    var us := [r] + rs;
    if Covered(rs, a) { var i :| 0 <= i < |rs| && In(rs[i], a); assert us[i + 1] == rs[i]; }
    if In(r, a) { assert us[0] == r; }
  }

  lemma {:induction false} RemoveCovers(rs: seq<Region>, i: nat, a: nat)
    requires i < |rs|
    ensures Covered(rs, a) <==> Covered(RemoveAt(rs, i), a) || In(rs[i], a)
  {
    var us := RemoveAt(rs, i);
    if Covered(rs, a) && !(In(rs[i], a)) {
      var k :| 0 <= k < |rs| && In(rs[k], a);
      assert us[if k < i then k else k - 1] == rs[k];
    }
    if Covered(us, a) {
      var k :| 0 <= k < |us| && In(us[k], a);
      assert us[k] == rs[if k < i then k else k + 1];
    }
  }

  lemma {:induction false} AddedTotal(rs: seq<Region>, r: Region)
    ensures Total(Added(rs, r)) == Total(rs) + r.size
    decreases |rs|
  {
    var i := FirstAdjacent(rs, r);
    if i == |rs| {
      assert ([r] + rs)[1..] == rs;
    } else {
      TotalRemove(rs, i);
      AddedTotal(RemoveAt(rs, i), Join(rs[i], r));
    }
  }

  lemma {:induction false} AddedApart(rs: seq<Region>, r: Region, x: Region)
    requires Scattered(rs) && AllNodeOk(rs) && NodeOk(r) && ApartFrom(rs, r) && x.size > 0
    requires ApartFrom(rs, x) && Apart(r, x)
    ensures ApartFrom(Added(rs, r), x)
    decreases |rs|
  {
    var i := FirstAdjacent(rs, r);
    if i < |rs| {
      RemoveFacts(rs, i);
      JoinApart(rs, i, r);
      assert Apart(Join(rs[i], r), x);
      AddedApart(RemoveAt(rs, i), Join(rs[i], r), x);
    }
  }

  /** The new region lies inside the first region of the result. */
  lemma {:induction false} AddedHead(rs: seq<Region>, r: Region)
    ensures var us := Added(rs, r); |us| > 0 && us[0].addr <= r.addr && End(r) <= End(us[0])
    decreases |rs|
  {
    var i := FirstAdjacent(rs, r);
    if i < |rs| { AddedHead(RemoveAt(rs, i), Join(rs[i], r)); }
  }

  // ----- Alignment

  predicate PowerOfTwo(n: nat) {
    n == 1 || (n > 1 && n % 2 == 0 && PowerOfTwo(n / 2))
  }

  lemma {:induction false} MultipleOf(d: nat, q: nat)
    requires d > 0
    ensures (d * q) % d == 0
    decreases q
  {
    if q > 0 {
      MultipleOf(d, q - 1);
      assert d * q == d * (q - 1) + d;
      AddDivisor(d * (q - 1), d);
    }
  }

  lemma {:induction false} MulMonotone(d: nat, a: int, b: int)
    requires a <= b
    ensures d * a <= d * b
  {
    assert d * (b - a) >= 0;
  }

  /** Quotient and remainder are unique. */
  lemma {:induction false} DivisionIs(x: nat, d: nat, q: nat, m: nat)
    requires d > 0 && x == d * q + m && m < d
    ensures x / d == q && x % d == m
  {
    var q' := x / d;
    assert d * q' <= x < d * q' + d;
    if q' < q { MulMonotone(d, q' + 1, q); }
    if q < q' { MulMonotone(d, q + 1, q'); }
  }

  lemma {:induction false} AddDivisor(a: nat, d: nat)
    requires d > 0
    ensures (a + d) % d == a % d
  {
    var q, m := a / d, a % d;
    assert a + d == d * (q + 1) + m;
    DivisionIs(a + d, d, q + 1, m);
  }

  /** The next multiple of `align`; for powers of two this is the mask the kernel uses. */
  function AlignUp(a: nat, align: nat): (r: nat)
    requires align > 0
    ensures a <= r < a + align && r % align == 0
  {
    MultipleOf(align, (a + align - 1) / align);
    align * ((a + align - 1) / align)
  }

  /** A smaller power of two divides a larger one. */
  lemma {:induction false} PowersDivide(a: nat, b: nat)
    requires PowerOfTwo(a) && PowerOfTwo(b) && a <= b
    ensures b % a == 0
    decreases a
  {
    if a > 1 {
      PowersDivide(a / 2, b / 2);
      var q := (b / 2) / (a / 2);
      assert b / 2 == (a / 2) * q;
      assert b == a * q;
      MultipleOf(a, q);
    }
  }

  /** Rounding up does not pass a multiple. */
  lemma {:induction false} AlignUpBelow(a: nat, align: nat, m: nat)
    requires align > 0 && a <= m && m % align == 0
    ensures AlignUp(a, align) <= m
  {
    var q, p := m / align, (a + align - 1) / align;
    assert m == align * q;
    assert align * p <= a + align - 1;
    if p > q { MulMonotone(align, q + 1, p); }
  }

  // ----- Taking a region

  /** `size` bytes fit behind the padding. */
  predicate Fits(r: Region, size: nat, align: nat)
    requires align > 0
  {
    r.size >= size + (AlignUp(r.addr, align) - r.addr)
  }

  function FirstFit(rs: seq<Region>, size: nat, align: nat): (i: nat)
    requires align > 0
    ensures i <= |rs| && (i < |rs| ==> Fits(rs[i], size, align)) && forall k | 0 <= k < i :: !Fits(rs[k], size, align)
  {
    if rs == [] || Fits(rs[0], size, align) then 0 else 1 + FirstFit(rs[1..], size, align)
  }

  ghost predicate NoFit(rs: seq<Region>, size: nat, align: nat)
    requires align > 0
  {
    FirstFit(rs, size, align) == |rs|
  }

  function Granted(r: Region, size: nat, align: nat): Region
    requires align > 0
  {
    Region(AlignUp(r.addr, align), size)
  }

  /** What is left of `r` from `next` on goes back if it can hold a node. */
  function Leftover(rs: seq<Region>, r: Region, next: nat): seq<Region> {
    if End(r) >= next + NODE_SIZE then Added(rs, Region(next, End(r) - next)) else rs
  }

  function Used(rs: seq<Region>, r: Region, size: nat, align: nat): seq<Region>
    requires align > 0
  {
    Leftover(rs, r, AlignUp(AlignUp(r.addr, align) + size, NODE_ALIGN))
  }

  /** `r` was taken out of a scattered list. */
  ghost predicate TakenFrom(rs: seq<Region>, r: Region) {
    && Scattered(rs) && AllNodeOk(rs) && NodeOk(r) && ApartFrom(rs, r)
  }

  lemma {:induction false} InsideApart(rs: seq<Region>, r: Region, g: Region)
    requires ApartFrom(rs, r) && r.addr <= g.addr && End(g) <= End(r)
    ensures ApartFrom(rs, g)
  {
  }

  lemma {:induction false} LeftoverScattered(rs: seq<Region>, r: Region, next: nat)
    requires TakenFrom(rs, r) && r.addr <= next && next % NODE_ALIGN == 0
    ensures Scattered(Leftover(rs, r, next)) && AllNodeOk(Leftover(rs, r, next))
  {
    if End(r) >= next + NODE_SIZE {
      var rest := Region(next, End(r) - next);
      InsideApart(rs, r, rest);
      AddedScattered(rs, rest);
    }
  }

  /** Behind the allocation nothing is lost but a rest too small for a node. */
  lemma {:induction false} LeftoverCovers(rs: seq<Region>, r: Region, next: nat, a: nat)
    requires TakenFrom(rs, r) && r.addr <= next && next % NODE_ALIGN == 0
    ensures Covered(Leftover(rs, r, next), a) <==> Covered(rs, a) || (next <= a < End(r) && next + NODE_SIZE <= End(r))
  {
    if End(r) >= next + NODE_SIZE {
      var rest := Region(next, End(r) - next);
      InsideApart(rs, r, rest);
      AddedCovers(rs, rest, a);
    }
  }

  lemma {:induction false} LeftoverTotal(rs: seq<Region>, r: Region, next: nat)
    requires r.addr <= next
    ensures Total(Leftover(rs, r, next)) <= Total(rs) + (if next <= End(r) then End(r) - next else 0)
  {
    if End(r) >= next + NODE_SIZE { AddedTotal(rs, Region(next, End(r) - next)); }
  }

  lemma {:induction false} LeftoverMisses(rs: seq<Region>, r: Region, g: Region, next: nat)
    requires TakenFrom(rs, r) && r.addr <= g.addr && End(g) <= End(r) && g.size > 0
    requires End(g) <= next && next % NODE_ALIGN == 0
    ensures ApartFrom(Leftover(rs, r, next), g)
  {
    InsideApart(rs, r, g);
    if End(r) >= next + NODE_SIZE {
      var rest := Region(next, End(r) - next);
      InsideApart(rs, r, rest);
      AddedApart(rs, rest, g);
    }
  }

  lemma {:induction false} LeftoverApart(rs: seq<Region>, r: Region, next: nat, x: Region)
    requires TakenFrom(rs, r) && r.addr <= next && next % NODE_ALIGN == 0
    requires x.size > 0 && ApartFrom(rs, x) && Apart(r, x)
    ensures ApartFrom(Leftover(rs, r, next), x)
  {
    if End(r) >= next + NODE_SIZE {
      InsideApart(rs, r, Region(next, End(r) - next));
      AddedApart(rs, Region(next, End(r) - next), x);
    }
  }

  /** The pages asked for always make room, also when they merge with a region before them. */
  lemma {:induction false} GrowingMakesRoom(rs: seq<Region>, mem: nat, size: nat, align: nat)
    requires PowerOfTwo(align) && align <= PAGE_SIZE && mem % PAGE_SIZE == 0
    ensures !NoFit(Added(rs, Region(mem, AlignUp(size, PAGE_SIZE))), size, align)
  {
    var g := Region(mem, AlignUp(size, PAGE_SIZE));
    AddedHead(rs, g);
    assert PowerOfTwo(PAGE_SIZE) by { PageSizeIsPower(); }
    PowersDivide(align, PAGE_SIZE);
    MultiplesChain(mem, PAGE_SIZE, align);
    AlignUpBelow(Added(rs, g)[0].addr, align, mem);
  }

  lemma {:induction false} PageSizeIsPower()
    ensures PowerOfTwo(4096)
  {
    assert PowerOfTwo(8);
    assert PowerOfTwo(64);
    assert PowerOfTwo(512);
  }

  lemma {:induction false} MultiplesChain(m: nat, p: nat, d: nat)
    requires p > 0 && d > 0 && m % p == 0 && p % d == 0
    ensures m % d == 0
  {
    var q, k := m / p, p / d;
    assert m == d * (k * q) by {
      assert m == p * q && p == d * k;
      assert (d * k) * q == d * (k * q);
    }
    MultipleOf(d, k * q);
  }

  /** Up to page alignment an allocation fails only if the page allocator refuses. */
  lemma {:induction false} FailsOnlyIfRefused(rs: seq<Region>, bytes: nat, minAlign: nat, grant: nat)
    requires PowerOfTwo(minAlign) && minAlign <= PAGE_SIZE && grant % PAGE_SIZE == 0
    ensures var size, align := NodeBytes(bytes), NodeAlign(minAlign);
            NoFit(rs, size, align) && (grant == 0 || NoFit(Added(rs, Region(grant, PagesFor(bytes))), size, align)) <==>
            NoFit(rs, size, align) && grant == 0
  {
    NodeAlignFacts(minAlign);
    GrowingMakesRoom(rs, grant, NodeBytes(bytes), NodeAlign(minAlign));
  }

  /** Kernel pages come from the upper half of the address space. */
  const KERNEL_HALF_OFFSET: nat := 0xffff_8000_0000_0000

  /** The page behind the start of the kernel half is at least a page away from every larger
      alignment. */
  lemma {:induction false} PaddingBeyondPage(align: nat)
    requires PowerOfTwo(align) && align > PAGE_SIZE
    ensures AlignUp(KERNEL_HALF_OFFSET + PAGE_SIZE, align) >= KERNEL_HALF_OFFSET + 2 * PAGE_SIZE
  {
    var mem := KERNEL_HALF_OFFSET + PAGE_SIZE;
    PageSizeIsPower();
    assert PowerOfTwo(2 * PAGE_SIZE);
    TwicePage(align);
    PowersDivide(2 * PAGE_SIZE, align);
    MultiplesChain(AlignUp(mem, align), align, 2 * PAGE_SIZE);
  }

  lemma {:induction false} TwicePage(align: nat)
    requires PowerOfTwo(align) && align > PAGE_SIZE
    ensures align >= 2 * PAGE_SIZE
  {
    PageSizeIsPower();
    PowersDivide(PAGE_SIZE, align);
    assert align / PAGE_SIZE >= 2;
  }

  ghost predicate AlwaysRoom(size: nat, align: nat)
    requires align > 0
  {
    forall mem {:trigger Region(mem, AlignUp(size, PAGE_SIZE))} | mem >= KERNEL_HALF_OFFSET && mem % PAGE_SIZE == 0 ::
      !NoFit(Added([], Region(mem, AlignUp(size, PAGE_SIZE))), size, align)
  }

  /** Growing makes room whatever pages are granted exactly for alignments up to a page. */
  lemma {:induction false} GrowingSufficesIff(size: nat, align: nat)
    requires PowerOfTwo(align)
    ensures AlwaysRoom(size, align) <==> align <= PAGE_SIZE
  {
    if align <= PAGE_SIZE {
      forall mem {:trigger Region(mem, AlignUp(size, PAGE_SIZE))} | mem >= KERNEL_HALF_OFFSET && mem % PAGE_SIZE == 0
        ensures !NoFit(Added([], Region(mem, AlignUp(size, PAGE_SIZE))), size, align)
      {
        GrowingMakesRoom([], mem, size, align);
      }
    } else {
      LargeAlignmentCanFail(size, align);
    }
  }

  /** Beyond a page there is always a grant that does not fit the request. */
  lemma {:induction false} LargeAlignmentCanFail(size: nat, align: nat)
    requires PowerOfTwo(align) && align > PAGE_SIZE
    ensures NoFit(Added([], Region(KERNEL_HALF_OFFSET + PAGE_SIZE, AlignUp(size, PAGE_SIZE))), size, align)
  {
    var r := Region(KERNEL_HALF_OFFSET + PAGE_SIZE, AlignUp(size, PAGE_SIZE));
    PaddingBeyondPage(align);
    assert Added([], r) == [r];
    assert !Fits(r, size, align);
    FirstFitIs([r], size, align, 1);
  }

  lemma {:induction false} FirstFitIs(rs: seq<Region>, size: nat, align: nat, i: nat)
    requires align > 0 && i <= |rs| && (i < |rs| ==> Fits(rs[i], size, align)) && forall k | 0 <= k < i :: !Fits(rs[k], size, align)
    ensures FirstFit(rs, size, align) == i
  {
  }

  lemma {:induction false} FirstAdjacentIs(rs: seq<Region>, r: Region, i: nat)
    requires i <= |rs| && (i < |rs| ==> Adjacent(rs[i], r)) && forall k | 0 <= k < i :: !Adjacent(rs[k], r)
    ensures FirstAdjacent(rs, r) == i
  {
  }

  lemma {:induction false} GrantedOk(r: Region, size: nat, align: nat)
    requires NodeOk(r) && align > 0 && align % NODE_ALIGN == 0 && size >= NODE_SIZE
    ensures NodeOk(Granted(r, size, align))
  {
    MultiplesChain(AlignUp(r.addr, align), align, NODE_ALIGN);
  }

  function SaturatingSub(a: nat, b: nat): nat {
    if a >= b then a - b else 0
  }

  function NodeBytes(bytes: nat): nat {
    if bytes < NODE_SIZE then NODE_SIZE else bytes
  }

  function NodeAlign(align: nat): nat {
    if align < NODE_ALIGN then NODE_ALIGN else align
  }

  function PagesFor(bytes: nat): nat {
    AlignUp(NodeBytes(bytes), PAGE_SIZE)
  }

  lemma {:induction false} NodeAlignFacts(align: nat)
    requires PowerOfTwo(align)
    ensures var al := NodeAlign(align); al > 0 && PowerOfTwo(al) && al % NODE_ALIGN == 0 && al % align == 0
    ensures align <= PAGE_SIZE ==> NodeAlign(align) <= PAGE_SIZE
  {
    assert PowerOfTwo(NODE_ALIGN) by { assert PowerOfTwo(2); }
    if align < NODE_ALIGN { PowersDivide(align, NODE_ALIGN); } else { PowersDivide(NODE_ALIGN, align); PowersDivide(align, align); }
  }

  /** The page allocator grants fresh page-aligned memory. */
  ghost predicate GrantOk(free: seq<Region>, live: set<Region>, grant: nat, bytes: nat) {
    grant != 0 ==> grant % PAGE_SIZE == 0 && ApartFrom(free, Region(grant, bytes)) &&
                   forall x | x in live :: Apart(Region(grant, bytes), x)
  }

  /** When less is accounted for than is asked for, the search would fail anyway. */
  lemma {:induction false} SkipIsSafe(rs: seq<Region>, size: nat, align: nat)
    requires align > 0 && Total(rs) < size
    ensures NoFit(rs, size, align)
  {
    var i := FirstFit(rs, size, align);
    if i < |rs| { TotalBounds(rs, i); }
  }

  /** Free regions are aligned, large enough for a node, scattered and apart from every live
      allocation, and the accounted memory never understates them. */
  ghost predicate HeapOk(free: seq<Region>, live: set<Region>, backing: nat) {
    && AllNodeOk(free) && Scattered(free) && Total(free) <= backing && LiveApart(live)
    && (forall x | x in live :: NodeOk(x) && ApartFrom(free, x))
  }

  ghost predicate LiveApart(live: set<Region>) {
    forall x, y | x in live && y in live && x != y :: Apart(x, y)
  }

  lemma {:induction false} LiveGrows(live: set<Region>, g: Region)
    requires LiveApart(live) && forall x | x in live :: Apart(g, x)
    ensures LiveApart(live + {g})
  {
  }

  /** `g` lies in `r`, and `next` is the first aligned address behind it. */
  predicate CutAt(r: Region, g: Region, next: nat) {
    r.addr <= g.addr && End(g) <= End(r) && NodeOk(g) && End(g) <= next && next % NODE_ALIGN == 0
  }

  lemma {:induction false} UseKeepsOk(free: seq<Region>, live: set<Region>, backing: nat, i: nat, g: Region, next: nat)
    requires HeapOk(free, live, backing) && i < |free| && CutAt(free[i], g, next)
    ensures g.size <= backing && g !in live
    ensures HeapOk(Leftover(RemoveAt(free, i), free[i], next), live + {g}, backing - g.size)
  {
    var rs, r := RemoveAt(free, i), free[i];
    RemoveFacts(free, i);
    TotalRemove(free, i);
    LeftoverScattered(rs, r, next);
    LeftoverTotal(rs, r, next);
    LeftoverMisses(rs, r, g, next);
    forall x | x in live ensures ApartFrom(Leftover(rs, r, next), x) && Apart(g, x) {
      LiveStaysApart(free, i, g, next, x);
    }
    LiveGrows(live, g);
  }

  lemma {:induction false} LiveStaysApart(free: seq<Region>, i: nat, g: Region, next: nat, x: Region)
    requires AllNodeOk(free) && Scattered(free) && i < |free| && CutAt(free[i], g, next)
    requires NodeOk(x) && ApartFrom(free, x)
    ensures ApartFrom(Leftover(RemoveAt(free, i), free[i], next), x) && Apart(g, x)
  {
    RemoveFacts(free, i);
    assert Apart(free[i], x);
    LeftoverApart(RemoveAt(free, i), free[i], next, x);
  }

  lemma {:induction false} AddKeepsOk(free: seq<Region>, live: set<Region>, backing: nat, r: Region)
    requires HeapOk(free, live, backing) && NodeOk(r) && ApartFrom(free, r) && forall x | x in live :: Apart(r, x)
    ensures HeapOk(Added(free, r), live, backing + r.size)
  {
    AddedScattered(free, r);
    AddedTotal(free, r);
    forall x | x in live ensures ApartFrom(Added(free, r), x) { AddedApart(free, r, x); }
  }

  /** What the first fit hands out, or 0, and the list it leaves. */
  function Served(free: seq<Region>, size: nat, align: nat): (nat, seq<Region>)
    requires align > 0
  {
    var i := FirstFit(free, size, align);
    if i == |free| then (0, free)
    else (AlignUp(free[i].addr, align), Used(RemoveAt(free, i), free[i], size, align))
  }

  /** What is handed out lay in one free region: its padding and a rest too small for a node are
      all that is lost. */
  lemma {:induction false} ServedCovers(free: seq<Region>, size: nat, align: nat, a: nat)
    requires AllNodeOk(free) && Scattered(free) && align > 0 && !NoFit(free, size, align)
    ensures var (r, rest) := Served(free, size, align);
            && (r <= a < r + size ==> Covered(free, a) && !Covered(rest, a))
            && (Covered(rest, a) ==> Covered(free, a))
            && (Covered(free, a) && !Covered(rest, a) ==> r - align < a < r + size + NODE_ALIGN + NODE_SIZE)
  {
    var i := FirstFit(free, size, align);
    var us, x := RemoveAt(free, i), free[i];
    var aligned := AlignUp(x.addr, align);
    RemoveFacts(free, i);
    RemoveCovers(free, i, a);
    LeftoverCovers(us, x, AlignUp(aligned + size, NODE_ALIGN), a);
    TakenCoversOnce(us, x, a);
  }

  lemma {:induction false} TakenCoversOnce(us: seq<Region>, x: Region, a: nat)
    requires ApartFrom(us, x)
    ensures In(x, a) ==> !Covered(us, a)
  {
  }

  ghost predicate InLive(live: set<Region>, a: nat) {
    exists x :: x in live && In(x, a)
  }

  /** Every byte of the allocation lies in a live region, in no region that was live before, and
      in no free one. */
  ghost predicate Owned(free: seq<Region>, before: set<Region>, live: set<Region>, r: nat, bytes: nat) {
    forall a: nat | r <= a < r + bytes ::
      && !Covered(free, a) && InLive(live, a) && (forall x | x in before :: !In(x, a))
  }

  lemma {:induction false} LiveIsApart(free: seq<Region>, live: set<Region>, backing: nat, g: Region, bytes: nat)
    requires HeapOk(free, live, backing) && g in live && bytes <= g.size
    ensures forall a: nat | g.addr <= a < g.addr + bytes :: !Covered(free, a)
  {
  }

  lemma {:induction false} LiveIsOwned(free: seq<Region>, before: set<Region>, live: set<Region>, backing: nat, r: nat, size: nat, bytes: nat)
    requires HeapOk(free, live, backing) && live == before + {Region(r, size)} && Region(r, size) !in before && bytes <= size
    ensures Owned(free, before, live, r, bytes)
  {
    LiveIsApart(free, live, backing, Region(r, size), bytes);
    forall a: nat | r <= a < r + bytes ensures InLive(live, a) { assert In(Region(r, size), a); }
    forall a: nat, x | r <= a < r + bytes && x in before ensures !In(x, a) { assert Apart(x, Region(r, size)); }
  }

  class LinkedListAllocator {
    var free: seq<Region>
    var backingMemory: nat
    ghost var live: set<Region>

    ghost predicate Valid()
      reads this
    {
      HeapOk(free, live, backingMemory)
    }

    constructor ()
      ensures Valid() && free == [] && live == {} && backingMemory == 0
    {
      free, backingMemory, live := [], 0, {};
    }

    /** `find_fit` without the removal. */
    method FindFit(size: nat, align: nat) returns (i: nat)
      requires align > 0
      ensures i == FirstFit(free, size, align)
    {
      i := 0;
      while i < |free| && !(free[i].size >= size + (AlignUp(free[i].addr, align) - free[i].addr))
        invariant i <= |free| && forall k | 0 <= k < i :: !Fits(free[k], size, align)
      {
        i := i + 1;
      }
      FirstFitIs(free, size, align, i);
    }

    /** The merge loop absorbs neighbours until none is left. */
    method AddFreeRegion(addr: nat, size: nat)
      modifies this`free
      ensures free == Added(old(free), Region(addr, size))
    {
      var merged := Region(addr, size);
      var again := true;
      while again
        invariant Added(free, merged) == Added(old(free), Region(addr, size))
        invariant !again ==> FirstAdjacent(free, merged) == |free|
        decreases |free| + (if again then 1 else 0)
      {
        var i := 0;
        while i < |free| && !(End(free[i]) == merged.addr || End(merged) == free[i].addr)
          invariant i <= |free| && forall k | 0 <= k < i :: !Adjacent(free[k], merged)
        {
          i := i + 1;
        }
        FirstAdjacentIs(free, merged, i);
        again := i < |free|;
        if again {
          merged := Join(free[i], merged);
          free := RemoveAt(free, i);
        }
      }
      free := [merged] + free;
    }

    /** Gives back what lies behind `next`, unless it is too small for a node. */
    method ReturnRest(node: Region, next: nat)
      requires next >= node.addr
      modifies this`free
      ensures free == Leftover(old(free), node, next)
    {
      if node.size >= next - node.addr {
        var remaining := node.size - (next - node.addr);
        if remaining >= NODE_SIZE { AddFreeRegion(next, remaining); }
      }
    }

    /** Cuts an allocation out of free region `i`. */
    method UseListNode(i: nat, size: nat, align: nat) returns (r: nat)
      requires Valid() && align > 0 && i < |free| && Fits(free[i], size, align) && size >= NODE_SIZE
      requires align % NODE_ALIGN == 0
      modifies this
      ensures Valid()
      ensures r == AlignUp(old(free)[i].addr, align) && r > 0 && Region(r, size) !in old(live)
      ensures free == Used(RemoveAt(old(free), i), old(free)[i], size, align)
      ensures live == old(live) + {Region(r, size)}
      ensures backingMemory == old(backingMemory) - size
    {
      var node := free[i];
      var aligned := AlignUp(node.addr, align);
      var next := AlignUp(aligned + size, NODE_ALIGN);
      GrantedOk(node, size, align);
      UseKeepsOk(free, live, backingMemory, i, Region(aligned, size), next);
      free := RemoveAt(free, i);
      backingMemory := SaturatingSub(backingMemory, size);
      ReturnRest(node, next);
      live := live + {Region(aligned, size)};
      r := aligned;
    }

    /** First fit over the current list. */
    method TakeFit(size: nat, align: nat) returns (r: nat)
      requires Valid() && size >= NODE_SIZE && align > 0 && align % NODE_ALIGN == 0
      modifies this
      ensures Valid() && (r, free) == Served(old(free), size, align) && (r == 0 <==> NoFit(old(free), size, align))
      ensures r == 0 ==> unchanged(this)
      ensures r != 0 ==> r % align == 0 && Region(r, size) !in old(live) && live == old(live) + {Region(r, size)}
      ensures r != 0 ==> backingMemory == old(backingMemory) - size
    {
      var i := FindFit(size, align);
      if i == |free| { return 0; }
      r := UseListNode(i, size, align);
    }

    /** New pages from the page allocator. */
    method Grow(grant: nat, size: nat)
      requires Valid() && grant != 0 && size >= NODE_SIZE && GrantOk(free, live, grant, size)
      modifies this`free, this`backingMemory
      ensures Valid() && free == Added(old(free), Region(grant, size)) && backingMemory == old(backingMemory) + size
    {
      AddKeepsOk(free, live, backingMemory, Region(grant, size));
      AddFreeRegion(grant, size);
      backingMemory := backingMemory + size;
    }

    /** Grow and look again. */
    method GrowAndTake(size: nat, align: nat, grant: nat) returns (r: nat)
      requires Valid() && size >= NODE_SIZE && align > 0 && align % NODE_ALIGN == 0
      requires grant != 0 && GrantOk(free, live, grant, AlignUp(size, PAGE_SIZE))
      modifies this
      ensures Valid() && (r, free) == Served(Added(old(free), Region(grant, AlignUp(size, PAGE_SIZE))), size, align)
      ensures r == 0 <==> NoFit(Added(old(free), Region(grant, AlignUp(size, PAGE_SIZE))), size, align)
      ensures r == 0 ==> live == old(live)
      ensures r != 0 ==> r % align == 0 && Region(r, size) !in old(live) && live == old(live) + {Region(r, size)}
      ensures backingMemory == old(backingMemory) + AlignUp(size, PAGE_SIZE) - (if r != 0 then size else 0)
    {
      Grow(grant, AlignUp(size, PAGE_SIZE));
      r := TakeFit(size, align);
    }

    /** An allocation. `grant` is what the page allocator hands out, or 0 when it refuses. A
        request is at least a list node and aligned like one. */
    method Alloc(bytes: nat, minAlign: nat, grant: nat) returns (r: nat)
      requires Valid() && PowerOfTwo(minAlign)
      requires GrantOk(free, live, grant, PagesFor(bytes))
      modifies this
      ensures Valid()
      ensures var size, align := if bytes < 16 then 16 else bytes, if minAlign < 8 then 8 else minAlign;
              var pages := AlignUp(size, 4096);
              var grows := grant != 0 && NoFit(old(free), size, align);
              && (r, free) == Served(if grows then Added(old(free), Region(grant, pages)) else old(free), size, align)
              && (r == 0 <==> NoFit(if grows then Added(old(free), Region(grant, pages)) else old(free), size, align))
              && live == (if r == 0 then old(live) else old(live) + {Region(r, size)})
              && backingMemory == old(backingMemory) + (if grows then pages else 0) - (if r == 0 then 0 else size)
      ensures r != 0 ==> r % minAlign == 0 && Owned(free, old(live), live, r, bytes)
    {
      var size, align := NodeBytes(bytes), NodeAlign(minAlign);
      NodeAlignFacts(minAlign);
      r := 0;
      if backingMemory >= size { r := TakeFit(size, align); } else { SkipIsSafe(free, size, align); }
      if r == 0 && grant != 0 { r := GrowAndTake(size, align, grant); }
      if r != 0 {
        MultiplesChain(r, align, minAlign);
        LiveIsOwned(free, old(live), live, backingMemory, r, size, bytes);
      }
    }

    method Dealloc(addr: nat, bytes: nat)
      requires Valid() && Region(addr, NodeBytes(bytes)) in live
      modifies this
      ensures var size := if bytes < 16 then 16 else bytes;
              && Valid() && live == old(live) - {Region(addr, size)}
              && free == Added(old(free), Region(addr, size)) && backingMemory == old(backingMemory) + size
              && forall a: nat :: Covered(free, a) <==> Covered(old(free), a) || addr <= a < addr + size
      ensures forall a: nat | addr <= a < addr + bytes :: Covered(free, a) && !Covered(old(free), a)
    {
      var size := NodeBytes(bytes);
      ghost var r := Region(addr, size);
      LiveIsApart(free, live, backingMemory, r, bytes);
      live := live - {r};
      AddKeepsOk(free, live, backingMemory, r);
      forall a ensures Covered(Added(free, r), a) <==> Covered(free, a) || In(r, a) { AddedCovers(free, r, a); }
      AddFreeRegion(addr, size);
      backingMemory := backingMemory + size;
    }
  }
}
