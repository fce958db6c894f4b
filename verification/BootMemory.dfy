/** The boot memory map as the frame allocator sorts it (kernel/src/mem/frame_allocator.rs):
    free, used and boot loader pages, page 0 left out. */
module BootMemory {
  import opened PageRuns

  datatype MemType = Free | Allocated | Identity | BootloaderData

  datatype MemDesc = MemDesc(base: nat, size: nat, kind: MemType)

  /** The list a descriptor goes to. */
  datatype Class = FreeMem | UsedMem | BootMem

  function ClassOf(kind: MemType): Class {
    match kind
    case Free => FreeMem
    case Allocated => UsedMem
    case Identity => UsedMem
    case BootloaderData => BootMem
  }

  /** Page 0 is cut off a region that starts there; nothing may be left. */
  function Trimmed(d: MemDesc): seq<MemDesc> {
    if d.base != 0 then [d]
    else if d.size > PAGE_SIZE then [d.(base := PAGE_SIZE, size := d.size - PAGE_SIZE)]
    else []
  }

  function RunsFor(d: MemDesc, c: Class): seq<Run> {
    if Trimmed(d) == [] || ClassOf(d.kind) != c then []
    else [Run(Trimmed(d)[0].base, CeilDiv(Trimmed(d)[0].size))]
  }

  function BytesFor(d: MemDesc, c: Class): nat {
    if Trimmed(d) == [] || ClassOf(d.kind) != c then 0 else Trimmed(d)[0].size
  }

  function RunsIn(ds: seq<MemDesc>, c: Class): seq<Run> {
    if ds == [] then [] else RunsIn(ds[..|ds| - 1], c) + RunsFor(ds[|ds| - 1], c)
  }

  function BytesIn(ds: seq<MemDesc>, c: Class): nat {
    if ds == [] then 0 else BytesIn(ds[..|ds| - 1], c) + BytesFor(ds[|ds| - 1], c)
  }

  predicate ByteApart(d: MemDesc, e: MemDesc) {
    d.base + d.size <= e.base || e.base + e.size <= d.base
  }

  predicate WholePages(ds: seq<MemDesc>) {
    forall i | 0 <= i < |ds| :: ds[i].size % PAGE_SIZE == 0
  }

  /** Whole pages, and no byte in two descriptors. */
  predicate MapOk(ds: seq<MemDesc>) {
    WholePages(ds) && forall i, j | 0 <= i < j < |ds| :: ByteApart(ds[i], ds[j])
  }

  // ----- Which memory each list covers

  /** The descriptor keeps address `a`: page 0 is never kept. */
  predicate Keeps(d: MemDesc, a: nat) {
    d.base <= a < d.base + d.size && (d.base == 0 ==> a >= 0x1000)
  }

  ghost predicate KeptAs(ds: seq<MemDesc>, kinds: set<MemType>, a: nat) {
    exists i :: 0 <= i < |ds| && ds[i].kind in kinds && Keeps(ds[i], a)
  }

  lemma {:induction false} RunsForCover(d: MemDesc, a: nat)
    requires d.size % PAGE_SIZE == 0
    ensures Covered(RunsFor(d, FreeMem), a) <==> d.kind == Free && Keeps(d, a)
    ensures Covered(RunsFor(d, UsedMem), a) <==> (d.kind == Allocated || d.kind == Identity) && Keeps(d, a)
    ensures Covered(RunsFor(d, BootMem), a) <==> d.kind == BootloaderData && Keeps(d, a)
  {
    var c := ClassOf(d.kind);
    if Trimmed(d) != [] {
      var r := Run(Trimmed(d)[0].base, CeilDiv(Trimmed(d)[0].size));
      assert RunsFor(d, c) == [r] && [r][0] == r;
      assert In(r, a) <==> Keeps(d, a);
      if In(r, a) { assert In(RunsFor(d, c)[0], a); }
    }
  }

  lemma {:induction false} KeptInFront(ds: seq<MemDesc>, kinds: set<MemType>, a: nat)
    requires ds != []
    ensures KeptAs(ds, kinds, a) <==>
            KeptAs(ds[..|ds| - 1], kinds, a) || (ds[|ds| - 1].kind in kinds && Keeps(ds[|ds| - 1], a))
  {
    var front := ds[..|ds| - 1];
    if KeptAs(front, kinds, a) {
      var i :| 0 <= i < |front| && front[i].kind in kinds && Keeps(front[i], a);
      assert ds[i] == front[i];
    }
    if KeptAs(ds, kinds, a) {
      var i :| 0 <= i < |ds| && ds[i].kind in kinds && Keeps(ds[i], a);
      if i < |front| { assert front[i] == ds[i]; }
    }
  }

  /** Each list covers exactly the memory of its kinds of descriptors, page 0 left out. */
  lemma {:induction false} ListsCoverMap(ds: seq<MemDesc>, a: nat)
    requires WholePages(ds)
    ensures Covered(RunsIn(ds, FreeMem), a) <==> KeptAs(ds, {Free}, a)
    ensures Covered(RunsIn(ds, UsedMem), a) <==> KeptAs(ds, {Allocated, Identity}, a)
    ensures Covered(RunsIn(ds, BootMem), a) <==> KeptAs(ds, {BootloaderData}, a)
    decreases |ds|
  {
    if ds != [] {
      var front, last := ds[..|ds| - 1], ds[|ds| - 1];
      ListsCoverMap(front, a);
      RunsForCover(last, a);
      KeptInFront(ds, {Free}, a);
      KeptInFront(ds, {Allocated, Identity}, a);
      KeptInFront(ds, {BootloaderData}, a);
      CoveredConcat(RunsIn(front, FreeMem), RunsFor(last, FreeMem), a);
      CoveredConcat(RunsIn(front, UsedMem), RunsFor(last, UsedMem), a);
      CoveredConcat(RunsIn(front, BootMem), RunsFor(last, BootMem), a);
    }
  }

  // ----- Lists taken from disjoint descriptors are disjoint

  lemma {:induction false} OneApart(d: MemDesc, e: MemDesc, c: Class, c': Class)
    requires ByteApart(d, e) && d.size % PAGE_SIZE == 0 && e.size % PAGE_SIZE == 0
    ensures forall r, s | r in RunsFor(d, c) && s in RunsFor(e, c') :: Apart(r, s)
  {
  }

  lemma {:induction false} ApartFromLater(ds: seq<MemDesc>, e: MemDesc, c: Class, c': Class)
    requires WholePages(ds) && e.size % PAGE_SIZE == 0 && forall i | 0 <= i < |ds| :: ByteApart(ds[i], e)
    ensures forall r, s | r in RunsIn(ds, c) && s in RunsFor(e, c') :: Apart(r, s)
  {
    if ds != [] {
      ApartFromLater(ds[..|ds| - 1], e, c, c');
      OneApart(ds[|ds| - 1], e, c, c');
    }
  }

  lemma {:induction false} ClassDisjoint(ds: seq<MemDesc>, c: Class)
    requires MapOk(ds)
    ensures Disjoint(RunsIn(ds, c))
  {
    if ds != [] {
      var front, last := ds[..|ds| - 1], ds[|ds| - 1];
      ClassDisjoint(front, c);
      ApartFromLater(front, last, c, c);
      var rs := RunsIn(front, c);
      if RunsFor(last, c) != [] {
        var s := RunsFor(last, c)[0];
        assert RunsFor(last, c) == [s];
        forall i | 0 <= i < |rs| ensures Apart(rs[i], s) { assert rs[i] in rs; }
      } else {
        assert RunsIn(ds, c) == rs;
      }
    }
  }

  /** No run of one class meets a run of another. */
  lemma {:induction false} ClassesApart(ds: seq<MemDesc>, c: Class, c': Class)
    requires MapOk(ds) && c != c'
    ensures forall r, s | r in RunsIn(ds, c) && s in RunsIn(ds, c') :: Apart(r, s)
  {
    if ds != [] {
      var front, last := ds[..|ds| - 1], ds[|ds| - 1];
      ClassesApart(front, c, c');
      ApartFromLater(front, last, c, c');
      ApartFromLater(front, last, c', c);
      forall r, s | r in RunsIn(ds, c) && s in RunsIn(ds, c') ensures Apart(r, s) {
        if r in RunsFor(last, c) && s in RunsIn(front, c') { assert Apart(s, r); }
      }
    }
  }

  /** The three lists a disjoint map is sorted into. */
  lemma {:induction false} SortedMap(ds: seq<MemDesc>)
    requires MapOk(ds)
    ensures Separate(RunsIn(ds, FreeMem), RunsIn(ds, UsedMem)) && Disjoint(RunsIn(ds, BootMem))
    ensures forall i | 0 <= i < |RunsIn(ds, BootMem)| ::
              ApartFrom(RunsIn(ds, FreeMem), RunsIn(ds, BootMem)[i]) && ApartFrom(RunsIn(ds, UsedMem), RunsIn(ds, BootMem)[i])
  {
    ClassDisjoint(ds, FreeMem);
    ClassDisjoint(ds, UsedMem);
    ClassDisjoint(ds, BootMem);
    ClassesApart(ds, FreeMem, UsedMem);
    ClassesApart(ds, FreeMem, BootMem);
    ClassesApart(ds, UsedMem, BootMem);
  }

  // ----- Accounting

  /** Bytes are counted, pages are handed out: they agree exactly when every kept region is made
      of whole pages, and otherwise fewer bytes are counted. */
  lemma {:induction false} BytesArePagesIff(ds: seq<MemDesc>, c: Class)
    ensures BytesIn(ds, c) <= PAGE_SIZE * Pages(RunsIn(ds, c))
    ensures BytesIn(ds, c) == PAGE_SIZE * Pages(RunsIn(ds, c)) <==>
            forall i | 0 <= i < |ds| :: BytesFor(ds[i], c) % PAGE_SIZE == 0
  {
    if ds != [] {
      var front, last := ds[..|ds| - 1], ds[|ds| - 1];
      BytesArePagesIff(front, c);
      OneExactIff(last, c);
      PagesConcat(RunsIn(front, c), RunsFor(last, c));
      assert forall i | 0 <= i < |front| :: front[i] == ds[i];
    }
  }

  lemma {:induction false} OneExactIff(d: MemDesc, c: Class)
    ensures BytesFor(d, c) <= PAGE_SIZE * Pages(RunsFor(d, c))
    ensures BytesFor(d, c) == PAGE_SIZE * Pages(RunsFor(d, c)) <==> BytesFor(d, c) % PAGE_SIZE == 0
  {
    var rs := RunsFor(d, c);
    if rs != [] { assert rs[1..] == []; }
  }

  lemma {:induction false} WholePagesCount(ds: seq<MemDesc>, c: Class)
    requires WholePages(ds)
    ensures BytesIn(ds, c) == PAGE_SIZE * Pages(RunsIn(ds, c))
  {
    BytesArePagesIff(ds, c);
  }
}
