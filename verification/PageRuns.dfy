/** Lists of page runs, the bookkeeping shared by the frame allocator and the virtual
    address-space allocator (kernel/src/mem/frame_allocator.rs,
    kernel/src/mem/virtual_allocator.rs). */
module PageRuns {
  import opened Basics

  const PAGE_SIZE: nat := 4096

  datatype Run = Run(start: nat, pages: nat)

  function End(r: Run): nat {
    r.start + r.pages * PAGE_SIZE
  }

  predicate In(r: Run, a: nat) {
    r.start <= a < End(r)
  }

  function CeilDiv(size: nat): (n: nat)
    ensures n * PAGE_SIZE >= size && (n > 0 ==> (n - 1) * PAGE_SIZE < size)
  {
    (size + PAGE_SIZE - 1) / PAGE_SIZE
  }

  lemma {:induction false} EnoughPages(size: nat, pages: nat)
    requires size < PAGE_SIZE * pages
    ensures CeilDiv(size) <= pages
  {
  }

  ghost predicate Covered(rs: seq<Run>, a: nat) {
    exists i :: 0 <= i < |rs| && In(rs[i], a)
  }

  function Pages(rs: seq<Run>): nat {
    if rs == [] then 0 else rs[0].pages + Pages(rs[1..])
  }

  /** No address in common. */
  predicate Apart(r: Run, s: Run) {
    r.pages == 0 || s.pages == 0 || End(r) <= s.start || End(s) <= r.start
  }

  predicate Disjoint(rs: seq<Run>) {
    forall i, j | 0 <= i < j < |rs| :: Apart(rs[i], rs[j])
  }

  predicate ApartFrom(rs: seq<Run>, r: Run) {
    forall i | 0 <= i < |rs| :: Apart(rs[i], r)
  }

  predicate NoEmpty(rs: seq<Run>) {
    forall i | 0 <= i < |rs| :: rs[i].pages > 0
  }

  /** An address at which runs are never joined, if there is one. */
  datatype Barrier = NoBarrier | At(addr: nat)

  predicate Open(barrier: Barrier, addr: nat) {
    barrier.NoBarrier? || addr != barrier.addr
  }

  /** The runs meet, and not at the barrier: the two halves of an address space are never
      joined. */
  predicate Touch(r: Run, s: Run, barrier: Barrier) {
    (End(r) == s.start && Open(barrier, s.start)) || (End(s) == r.start && Open(barrier, r.start))
  }

  predicate Coalesced(rs: seq<Run>, barrier: Barrier) {
    forall i, j | 0 <= i < j < |rs| :: !Touch(rs[i], rs[j], barrier)
  }

  predicate TouchesNone(rs: seq<Run>, r: Run, barrier: Barrier) {
    forall i | 0 <= i < |rs| :: !Touch(rs[i], r, barrier)
  }

  function Joined(r: Run, s: Run): Run {
    Run(if r.start <= s.start then r.start else s.start, r.pages + s.pages)
  }

  // ----- Facts about lists

  lemma {:induction false} PagesAppend(rs: seq<Run>, r: Run)
    ensures Pages(rs + [r]) == Pages(rs) + r.pages
  {
    if rs == [] {
      assert rs + [r] == [r] && [r][1..] == [];
    } else {
      PagesAppend(rs[1..], r);
      assert (rs + [r])[1..] == rs[1..] + [r];
    }
  }

  lemma {:induction false} AnyTwoApart(rs: seq<Run>, i: nat, j: nat)
    requires Disjoint(rs) && i < |rs| && j < |rs| && i != j
    ensures Apart(rs[i], rs[j])
  {
  }

  lemma {:induction false} PagesConcat(xs: seq<Run>, ys: seq<Run>)
    ensures Pages(xs + ys) == Pages(xs) + Pages(ys)
  {
    if xs == [] {
      assert xs + ys == ys;
    } else {
      PagesConcat(xs[1..], ys);
      assert (xs + ys)[1..] == xs[1..] + ys;
    }
  }

  lemma {:induction false} PagesRemove(rs: seq<Run>, i: nat)
    requires i < |rs|
    ensures Pages(RemoveAt(rs, i)) == Pages(rs) - rs[i].pages
  {
    if i == 0 {
      assert RemoveAt(rs, 0) == rs[1..];
    } else {
      PagesRemove(rs[1..], i - 1);
      assert RemoveAt(rs, i)[1..] == RemoveAt(rs[1..], i - 1);
    }
  }

  lemma {:induction false} PagesUpdate(rs: seq<Run>, i: nat, r: Run)
    requires i < |rs|
    ensures Pages(rs[i := r]) == Pages(rs) - rs[i].pages + r.pages
  {
    if i > 0 {
      PagesUpdate(rs[1..], i - 1, r);
      assert rs[i := r][1..] == rs[1..][i - 1 := r];
    }
  }

  lemma {:induction false} CoveredAppend(rs: seq<Run>, r: Run, a: nat)
    ensures Covered(rs + [r], a) <==> Covered(rs, a) || In(r, a)
  {
    var qs := rs + [r];
    if Covered(rs, a) {
      var i :| 0 <= i < |rs| && In(rs[i], a);
      assert In(qs[i], a);
    }
    if In(r, a) { assert In(qs[|rs|], a); }
  }

  lemma {:induction false} CoveredRemove(rs: seq<Run>, i: nat, a: nat)
    requires i < |rs|
    ensures Covered(rs, a) <==> Covered(RemoveAt(rs, i), a) || In(rs[i], a)
  {
    var qs := RemoveAt(rs, i);
    if Covered(rs, a) && !In(rs[i], a) {
      var k :| 0 <= k < |rs| && In(rs[k], a);
      assert In(qs[if k < i then k else k - 1], a);
    }
    if Covered(qs, a) {
      var k :| 0 <= k < |qs| && In(qs[k], a);
      assert In(rs[if k < i then k else k + 1], a);
    }
  }

  /** Replacing a run by others is removing it and adding them. */
  lemma {:induction false} CoveredUpdate(rs: seq<Run>, i: nat, r: Run, a: nat)
    requires i < |rs|
    ensures Covered(rs[i := r], a) <==> Covered(RemoveAt(rs, i), a) || In(r, a)
  {
    CoveredRemove(rs[i := r], i, a);
    assert RemoveAt(rs[i := r], i) == RemoveAt(rs, i);
  }

  lemma {:induction false} ApartMeansNotIn(r: Run, s: Run, a: nat)
    requires Apart(r, s)
    ensures !(In(r, a) && In(s, a))
  {
  }

  /** In a disjoint list, taking a run out uncovers exactly its addresses. */
  lemma {:induction false} RemoveUncovers(rs: seq<Run>, i: nat, a: nat)
    requires i < |rs| && Disjoint(rs)
    ensures Covered(RemoveAt(rs, i), a) <==> Covered(rs, a) && !In(rs[i], a)
  {
    CoveredRemove(rs, i, a);
    RemoveKeeps(rs, i, NoBarrier);
    var qs := RemoveAt(rs, i);
    if Covered(qs, a) {
      var k :| 0 <= k < |qs| && In(qs[k], a);
      ApartMeansNotIn(qs[k], rs[i], a);
    }
  }

  lemma {:induction false} RemoveKeeps(rs: seq<Run>, i: nat, barrier: Barrier)
    requires i < |rs|
    ensures Disjoint(rs) ==> Disjoint(RemoveAt(rs, i)) && ApartFrom(RemoveAt(rs, i), rs[i])
    ensures NoEmpty(rs) ==> NoEmpty(RemoveAt(rs, i))
    ensures Coalesced(rs, barrier) ==> Coalesced(RemoveAt(rs, i), barrier) && TouchesNone(RemoveAt(rs, i), rs[i], barrier)
  {
    var qs := RemoveAt(rs, i);
    assert forall k | 0 <= k < |qs| :: qs[k] == rs[if k < i then k else k + 1];
  }

  lemma {:induction false} AppendKeeps(rs: seq<Run>, r: Run, barrier: Barrier)
    ensures Disjoint(rs) && ApartFrom(rs, r) ==> Disjoint(rs + [r])
    ensures NoEmpty(rs) && r.pages > 0 ==> NoEmpty(rs + [r])
    ensures Coalesced(rs, barrier) && TouchesNone(rs, r, barrier) ==> Coalesced(rs + [r], barrier)
  {
  }

  lemma {:induction false} UpdateKeeps(rs: seq<Run>, i: nat, r: Run, barrier: Barrier)
    requires i < |rs|
    ensures Disjoint(rs) && ApartFrom(RemoveAt(rs, i), r) ==> Disjoint(rs[i := r])
    ensures NoEmpty(rs) && r.pages > 0 ==> NoEmpty(rs[i := r])
    ensures Coalesced(rs, barrier) && TouchesNone(RemoveAt(rs, i), r, barrier) ==> Coalesced(rs[i := r], barrier)
  {
    var qs := RemoveAt(rs, i);
    forall k | 0 <= k < |rs| && k != i ensures rs[k] == qs[if k < i then k else k - 1] {
    }
  }

  // ----- Giving pages back

  /** First run that touches `r`, or the length of the list. */
  function FirstTouch(rs: seq<Run>, r: Run, barrier: Barrier): (i: nat)
    ensures i <= |rs| && (i < |rs| ==> Touch(rs[i], r, barrier))
    ensures forall k | 0 <= k < i :: !Touch(rs[k], r, barrier)
  {
    if rs == [] then 0
    else if Touch(rs[0], r, barrier) then 0
    else
      var i := FirstTouch(rs[1..], r, barrier);
      assert forall k | 0 < k < i + 1 :: rs[k] == rs[1..][k - 1];
      1 + i
  }

  /** Join `r` to a run it touches, then that to one more; or list it on its own. */
  function Given(rs: seq<Run>, r: Run, barrier: Barrier): seq<Run> {
    var i := FirstTouch(rs, r, barrier);
    if i == |rs| then rs + [r]
    else
      var grown := Joined(rs[i], r);
      var qs := rs[i := grown];
      var j := FirstTouch(qs, grown, barrier);
      if j == |qs| then qs else RemoveAt(qs[j := Joined(qs[j], grown)], i)
  }

  lemma {:induction false} JoinedCovers(r: Run, s: Run, barrier: Barrier, a: nat)
    requires Touch(r, s, barrier)
    ensures In(Joined(r, s), a) <==> In(r, a) || In(s, a)
  {
  }

  lemma {:induction false} GivenCovers(rs: seq<Run>, r: Run, barrier: Barrier, a: nat)
    ensures Covered(Given(rs, r, barrier), a) <==> Covered(rs, a) || In(r, a)
  {
    var i := FirstTouch(rs, r, barrier);
    if i == |rs| {
      CoveredAppend(rs, r, a);
    } else {
      var grown := Joined(rs[i], r);
      var qs := rs[i := grown];
      JoinedCovers(rs[i], r, barrier, a);
      CoveredUpdate(rs, i, grown, a);
      CoveredRemove(rs, i, a);
      assert Covered(qs, a) <==> Covered(rs, a) || In(r, a);
      var j := FirstTouch(qs, grown, barrier);
      if j < |qs| { AbsorbCovers(qs, i, j, barrier, a); }
    }
  }

  /** Run `j` absorbs run `i`. */
  lemma {:induction false} AbsorbCovers(qs: seq<Run>, i: nat, j: nat, barrier: Barrier, a: nat)
    requires i < |qs| && j < |qs| && Touch(qs[j], qs[i], barrier)
    ensures Covered(RemoveAt(qs[j := Joined(qs[j], qs[i])], i), a) <==> Covered(qs, a)
  {
    var both := Joined(qs[j], qs[i]);
    var us := qs[j := both];
    JoinedCovers(qs[j], qs[i], barrier, a);
    CoveredUpdate(qs, j, both, a);
    CoveredRemove(qs, j, a);
    CoveredRemove(us, i, a);
    if In(both, a) && i != j {
      assert RemoveAt(us, i)[if j < i then j else j - 1] == both;
    }
  }

  lemma {:induction false} GivenPages(rs: seq<Run>, r: Run, barrier: Barrier)
    ensures Pages(Given(rs, r, barrier)) == Pages(rs) + r.pages
    ensures |Given(rs, r, barrier)| + 1 >= |rs|
  {
    var i := FirstTouch(rs, r, barrier);
    if i == |rs| {
      PagesAppend(rs, r);
    } else {
      var grown := Joined(rs[i], r);
      var qs := rs[i := grown];
      PagesUpdate(rs, i, grown);
      var j := FirstTouch(qs, grown, barrier);
      if j < |qs| {
        var us := qs[j := Joined(qs[j], grown)];
        PagesUpdate(qs, j, Joined(qs[j], grown));
        PagesRemove(us, i);
      }
    }
  }

  /** A run apart from both parts is apart from their join. */
  lemma {:induction false} JoinedApart(r: Run, s: Run, barrier: Barrier, x: Run)
    requires Touch(r, s, barrier) && Apart(r, x) && Apart(s, x)
    ensures Apart(Joined(r, s), x)
  {
  }

  lemma {:induction false} GivenApart(rs: seq<Run>, r: Run, barrier: Barrier, x: Run)
    requires ApartFrom(rs, x) && Apart(r, x)
    ensures ApartFrom(Given(rs, r, barrier), x)
  {
    var i := FirstTouch(rs, r, barrier);
    if i < |rs| {
      var grown := Joined(rs[i], r);
      var qs := rs[i := grown];
      JoinedApart(rs[i], r, barrier, x);
      var j := FirstTouch(qs, grown, barrier);
      if j < |qs| { JoinedApart(qs[j], grown, barrier, x); }
    }
  }

  lemma {:induction false} GivenDisjoint(rs: seq<Run>, r: Run, barrier: Barrier)
    requires Disjoint(rs) && ApartFrom(rs, r)
    ensures Disjoint(Given(rs, r, barrier))
  {
    var i := FirstTouch(rs, r, barrier);
    if i == |rs| {
      AppendKeeps(rs, r, barrier);
    } else {
      var grown := Joined(rs[i], r);
      var qs := rs[i := grown];
      JoinApartFromRest(rs, i, r, barrier);
      UpdateKeeps(rs, i, grown, barrier);
      var j := FirstTouch(qs, grown, barrier);
      if j < |qs| { AbsorbDisjoint(qs, i, j, barrier); }
    }
  }

  lemma {:induction false} JoinApartFromRest(rs: seq<Run>, i: nat, r: Run, barrier: Barrier)
    requires Disjoint(rs) && ApartFrom(rs, r) && i < |rs| && Touch(rs[i], r, barrier)
    ensures ApartFrom(RemoveAt(rs, i), Joined(rs[i], r))
  {
    RemoveKeeps(rs, i, barrier);
    var qs := RemoveAt(rs, i);
    forall k | 0 <= k < |qs| ensures Apart(qs[k], Joined(rs[i], r)) {
      assert qs[k] == rs[if k < i then k else k + 1];
      JoinedApart(rs[i], r, barrier, qs[k]);
    }
  }

  lemma {:induction false} AbsorbDisjoint(qs: seq<Run>, i: nat, j: nat, barrier: Barrier)
    requires i < |qs| && j < |qs| && Touch(qs[j], qs[i], barrier) && Disjoint(qs)
    ensures Disjoint(RemoveAt(qs[j := Joined(qs[j], qs[i])], i))
  {
    var us := qs[j := Joined(qs[j], qs[i])];
    var ws := RemoveAt(us, i);
    RemoveKeeps(qs, i, barrier);
    var vs := RemoveAt(qs, i);
    if i == j {
      assert ws == vs;
    } else {
      var j' := if j < i then j else j - 1;
      assert vs[j'] == qs[j] && ws == vs[j' := Joined(qs[j], qs[i])];
      JoinApartFromRest(vs, j', qs[i], barrier);
      UpdateKeeps(vs, j', Joined(qs[j], qs[i]), barrier);
    }
  }

  /** Two merges are enough: a fully coalesced list stays fully coalesced. */
  lemma {:induction false} GivenCoalesced(rs: seq<Run>, r: Run, barrier: Barrier)
    requires NoEmpty(rs) && Coalesced(rs, barrier) && r.pages > 0
    ensures NoEmpty(Given(rs, r, barrier)) && Coalesced(Given(rs, r, barrier), barrier)
  {
    var i := FirstTouch(rs, r, barrier);
    if i == |rs| {
      AppendKeeps(rs, r, barrier);
    } else {
      var grown := Joined(rs[i], r);
      var qs := rs[i := grown];
      var j := FirstTouch(qs, grown, barrier);
      if j == |qs| {
        forall k | 0 <= k < |RemoveAt(rs, i)| ensures !Touch(RemoveAt(rs, i)[k], grown, barrier) {
          assert RemoveAt(rs, i)[k] == qs[if k < i then k else k + 1];
        }
        UpdateKeeps(rs, i, grown, barrier);
      } else {
        assert j != i && qs[j] == rs[j];
        AbsorbCoalesced(rs, i, j, r, barrier);
      }
    }
  }

  lemma {:induction false} AbsorbCoalesced(rs: seq<Run>, i: nat, j: nat, r: Run, barrier: Barrier)
    requires NoEmpty(rs) && Coalesced(rs, barrier) && r.pages > 0 && i < |rs| && j < |rs| && i != j
    requires Touch(rs[i], r, barrier) && Touch(rs[j], Joined(rs[i], r), barrier)
    ensures var grown := Joined(rs[i], r);
            var ws := RemoveAt(rs[i := grown][j := Joined(rs[j], grown)], i);
            NoEmpty(ws) && Coalesced(ws, barrier)
  {
    var grown := Joined(rs[i], r);
    var all := Joined(rs[j], grown);
    BothEndsTaken(rs, i, j, r, barrier);
    RemoveKeeps(rs, i, barrier);
    var vs, j' := RemoveAt(rs, i), if j < i then j else j - 1;
    assert RemoveAt(rs[i := grown][j := all], i) == vs[j' := all];
    forall k | 0 <= k < |RemoveAt(vs, j')| ensures !Touch(RemoveAt(vs, j')[k], all, barrier) {
      var k' := if k < j' then k else k + 1;
      assert RemoveAt(vs, j')[k] == vs[k'] == rs[if k' < i then k' else k' + 1];
    }
    UpdateKeeps(vs, j', all, barrier);
  }

  /** With one neighbour on each side the new run has no end left to meet a third. */
  lemma {:induction false} BothEndsTaken(rs: seq<Run>, i: nat, j: nat, r: Run, barrier: Barrier)
    requires NoEmpty(rs) && Coalesced(rs, barrier) && r.pages > 0 && i < |rs| && j < |rs| && i != j
    requires Touch(rs[i], r, barrier) && Touch(rs[j], Joined(rs[i], r), barrier)
    ensures forall k | 0 <= k < |rs| && k != i && k != j :: !Touch(rs[k], Joined(rs[j], Joined(rs[i], r)), barrier)
  {
    assert !Touch(rs[i], rs[j], barrier) && !Touch(rs[j], rs[i], barrier);
    forall k | 0 <= k < |rs| && k != i && k != j
      ensures !Touch(rs[k], Joined(rs[j], Joined(rs[i], r)), barrier)
    {
      assert !Touch(rs[k], rs[i], barrier) && !Touch(rs[i], rs[k], barrier);
      assert !Touch(rs[k], rs[j], barrier) && !Touch(rs[j], rs[k], barrier);
    }
  }

  /** In-place form of the merge that both allocators run when pages come back. */
  method GiveBack(free: seq<Run>, addr: nat, pages: nat, barrier: Barrier) returns (rs: seq<Run>)
    ensures rs == Given(free, Run(addr, pages), barrier)
  {
    rs := free;
    var size := pages * PAGE_SIZE;
    var found := |rs|;
    for i := 0 to |rs|
      invariant found == |rs| && rs == free
      invariant forall k | 0 <= k < i :: !Touch(rs[k], Run(addr, pages), barrier)
    {
      if End(rs[i]) == addr && Open(barrier, addr) {
        FirstTouchIs(free, Run(addr, pages), barrier, i);
        rs := rs[i := Run(rs[i].start, rs[i].pages + pages)];
        found := i;
        break;
      } else if addr + size == rs[i].start && Open(barrier, rs[i].start) {
        FirstTouchIs(free, Run(addr, pages), barrier, i);
        rs := rs[i := Run(rs[i].start - size, rs[i].pages + pages)];
        found := i;
        break;
      }
    }
    if found == |rs| {
      FirstTouchIs(free, Run(addr, pages), barrier, |free|);
      rs := rs + [Run(addr, pages)];
      return;
    }
    ghost var qs := rs;
    var grown := rs[found];
    assert grown == Joined(free[found], Run(addr, pages));
    for j := 0 to |rs|
      invariant rs == qs
      invariant forall k | 0 <= k < j :: !Touch(rs[k], grown, barrier)
    {
      if Touch(rs[j], grown, barrier) {
        FirstTouchIs(qs, grown, barrier, j);
        rs := rs[j := Joined(rs[j], grown)];
        rs := RemoveAt(rs, found);
        return;
      }
    }
    FirstTouchIs(qs, grown, barrier, |qs|);
  }

  lemma {:induction false} FirstTouchIs(rs: seq<Run>, r: Run, barrier: Barrier, i: nat)
    requires i <= |rs| && (i < |rs| ==> Touch(rs[i], r, barrier))
    requires forall k | 0 <= k < i :: !Touch(rs[k], r, barrier)
    ensures FirstTouch(rs, r, barrier) == i
  {
  }

  // ----- Taking pages

  /** `pages` pages off the front of run `k`; a run used up is dropped. */
  function Taken(rs: seq<Run>, k: nat, pages: nat): seq<Run>
    requires k < |rs| && pages <= rs[k].pages
  {
    var left := Run(rs[k].start + pages * PAGE_SIZE, rs[k].pages - pages);
    if left.pages == 0 then RemoveAt(rs, k) else rs[k := left]
  }

  /** Exactly the granted addresses stop being covered. */
  lemma {:induction false} TakenCovers(rs: seq<Run>, k: nat, pages: nat, a: nat)
    requires k < |rs| && pages <= rs[k].pages && Disjoint(rs)
    ensures Covered(Taken(rs, k, pages), a) <==> Covered(rs, a) && !In(Run(rs[k].start, pages), a)
  {
    var left := Run(rs[k].start + pages * PAGE_SIZE, rs[k].pages - pages);
    RemoveUncovers(rs, k, a);
    CoveredUpdate(rs, k, left, a);
    CoveredRemove(rs, k, a);
    assert In(rs[k], a) <==> In(Run(rs[k].start, pages), a) || In(left, a);
  }

  lemma {:induction false} TakenPages(rs: seq<Run>, k: nat, pages: nat)
    requires k < |rs| && pages <= rs[k].pages
    ensures Pages(Taken(rs, k, pages)) == Pages(rs) - pages
  {
    PagesRemove(rs, k);
    PagesUpdate(rs, k, Run(rs[k].start + pages * PAGE_SIZE, rs[k].pages - pages));
  }

  lemma {:induction false} TakenApart(rs: seq<Run>, k: nat, pages: nat, x: Run)
    requires k < |rs| && pages <= rs[k].pages && ApartFrom(rs, x)
    ensures ApartFrom(Taken(rs, k, pages), x) && Apart(Run(rs[k].start, pages), x)
  {
    var qs := RemoveAt(rs, k);
    assert forall i | 0 <= i < |qs| :: qs[i] == rs[if i < k then i else i + 1];
  }

  lemma {:induction false} TakenDisjoint(rs: seq<Run>, k: nat, pages: nat)
    requires k < |rs| && pages <= rs[k].pages && Disjoint(rs)
    ensures Disjoint(Taken(rs, k, pages)) && ApartFrom(Taken(rs, k, pages), Run(rs[k].start, pages))
  {
    RemoveKeeps(rs, k, NoBarrier);
    var left := Run(rs[k].start + pages * PAGE_SIZE, rs[k].pages - pages);
    var qs := RemoveAt(rs, k);
    assert ApartFrom(qs, left);
    UpdateKeeps(rs, k, left, NoBarrier);
    var us := rs[k := left];
    forall i | 0 <= i < |us| ensures Apart(us[i], Run(rs[k].start, pages)) {
      if i != k { assert us[i] == qs[if i < k then i else i - 1]; }
    }
  }

  lemma {:induction false} TakenCoalesced(rs: seq<Run>, k: nat, pages: nat, barrier: Barrier)
    requires k < |rs| && pages <= rs[k].pages && Disjoint(rs) && NoEmpty(rs) && Coalesced(rs, barrier)
    ensures NoEmpty(Taken(rs, k, pages)) && Coalesced(Taken(rs, k, pages), barrier)
  {
    RemoveKeeps(rs, k, barrier);
    var left := Run(rs[k].start + pages * PAGE_SIZE, rs[k].pages - pages);
    var qs := RemoveAt(rs, k);
    if left.pages > 0 {
      forall i | 0 <= i < |qs| ensures !Touch(qs[i], left, barrier) {
        assert Apart(qs[i], rs[k]) && !Touch(qs[i], rs[k], barrier);
      }
      UpdateKeeps(rs, k, left, barrier);
    }
  }

  /** Giving back what was just taken restores the free addresses. */
  lemma {:induction false} GiveUndoesTake(rs: seq<Run>, k: nat, pages: nat, barrier: Barrier, a: nat)
    requires k < |rs| && pages <= rs[k].pages && Disjoint(rs)
    ensures var g := Run(rs[k].start, pages);
            Covered(Given(Taken(rs, k, pages), g, barrier), a) <==> Covered(rs, a)
  {
    var g := Run(rs[k].start, pages);
    TakenCovers(rs, k, pages, a);
    GivenCovers(Taken(rs, k, pages), g, barrier, a);
    if In(g, a) { assert In(rs[k], a); }
  }

  /** Run `k` is the first among the smallest of the runs that are large enough and allowed. */
  ghost predicate BestFit(rs: seq<Run>, pages: nat, allowed: Run -> bool, k: nat) {
    && k < |rs| && rs[k].pages >= pages && allowed(rs[k])
    && (forall j | 0 <= j < |rs| && rs[j].pages >= pages && allowed(rs[j]) ::
          rs[k].pages <= rs[j].pages && (j < k ==> rs[k].pages < rs[j].pages))
  }

  ghost predicate NoFit(rs: seq<Run>, pages: nat, allowed: Run -> bool) {
    forall j | 0 <= j < |rs| :: !(rs[j].pages >= pages && allowed(rs[j]))
  }

  /** In-place form of the search in `find_best_fit`; the length of the list means none. */
  method FindBestFit(rs: seq<Run>, pages: nat, allowed: Run -> bool) returns (k: nat)
    ensures k == |rs| ==> NoFit(rs, pages, allowed)
    ensures k != |rs| ==> BestFit(rs, pages, allowed, k)
  {
    k := |rs|;
    for i := 0 to |rs|
      invariant k == |rs| ==> forall j | 0 <= j < i :: !(rs[j].pages >= pages && allowed(rs[j]))
      invariant k != |rs| ==> k < i && rs[k].pages >= pages && allowed(rs[k])
      invariant k != |rs| ==> forall j | 0 <= j < i && rs[j].pages >= pages && allowed(rs[j]) ::
                                rs[k].pages <= rs[j].pages && (j < k ==> rs[k].pages < rs[j].pages)
    {
      if rs[i].pages >= pages && allowed(rs[i]) {
        if k == |rs| || rs[i].pages < rs[k].pages { k := i; }
      }
    }
  }

  // ----- Free and allocated pages partition the managed memory

  /** Free and allocated runs share no address. */
  predicate Separate(free: seq<Run>, alloc: seq<Run>) {
    && Disjoint(free) && Disjoint(alloc)
    && forall i | 0 <= i < |alloc| :: ApartFrom(free, alloc[i])
  }

  lemma {:induction false} TakeKeepsSeparate(free: seq<Run>, alloc: seq<Run>, k: nat, pages: nat)
    requires Separate(free, alloc) && k < |free| && pages <= free[k].pages
    ensures Separate(Taken(free, k, pages), alloc + [Run(free[k].start, pages)])
  {
    var g := Run(free[k].start, pages);
    TakenDisjoint(free, k, pages);
    forall i | 0 <= i < |alloc| ensures ApartFrom(Taken(free, k, pages), alloc[i]) && Apart(alloc[i], g) {
      TakenApart(free, k, pages, alloc[i]);
    }
    AppendKeeps(alloc, g, NoBarrier);
  }

  lemma {:induction false} GiveKeepsSeparate(free: seq<Run>, alloc: seq<Run>, i: nat, barrier: Barrier)
    requires Separate(free, alloc) && i < |alloc|
    ensures Separate(Given(free, alloc[i], barrier), RemoveAt(alloc, i))
  {
    RemoveKeeps(alloc, i, barrier);
    GivenDisjoint(free, alloc[i], barrier);
    var qs := RemoveAt(alloc, i);
    forall k | 0 <= k < |qs| ensures ApartFrom(Given(free, alloc[i], barrier), qs[k]) {
      assert qs[k] == alloc[if k < i then k else k + 1];
      GivenApart(free, alloc[i], barrier, qs[k]);
    }
  }

  /** Together the free and the allocated runs cover exactly the managed memory, once. */
  ghost predicate Partition(free: seq<Run>, alloc: seq<Run>, managed: seq<Run>) {
    && Separate(free, alloc)
    && forall a :: Covered(free, a) || Covered(alloc, a) <==> Covered(managed, a)
  }

  /** The addresses of `g` move from the first list to the second; no other address does. */
  ghost predicate Moves(g: Run, from0: seq<Run>, from1: seq<Run>, to0: seq<Run>, to1: seq<Run>) {
    forall a ::
      && (In(g, a) ==> Covered(from0, a))
      && (Covered(from1, a) <==> Covered(from0, a) && !In(g, a))
      && (Covered(to1, a) <==> Covered(to0, a) || In(g, a))
  }

  lemma {:induction false} TakeMoves(free: seq<Run>, alloc: seq<Run>, managed: seq<Run>, k: nat, pages: nat)
    requires Partition(free, alloc, managed) && k < |free| && pages <= free[k].pages
    ensures var g := Run(free[k].start, pages);
            && Partition(Taken(free, k, pages), alloc + [g], managed)
            && Moves(g, free, Taken(free, k, pages), alloc, alloc + [g])
  {
    var g := Run(free[k].start, pages);
    TakeKeepsSeparate(free, alloc, k, pages);
    forall a
      ensures && (In(g, a) ==> Covered(free, a))
              && (Covered(Taken(free, k, pages), a) <==> Covered(free, a) && !In(g, a))
              && (Covered(alloc + [g], a) <==> Covered(alloc, a) || In(g, a))
    {
      TakenCovers(free, k, pages, a);
      CoveredAppend(alloc, g, a);
      if In(g, a) { assert In(free[k], a); }
    }
  }

  lemma {:induction false} GiveMoves(free: seq<Run>, alloc: seq<Run>, managed: seq<Run>, i: nat, barrier: Barrier)
    requires Partition(free, alloc, managed) && i < |alloc|
    ensures && Partition(Given(free, alloc[i], barrier), RemoveAt(alloc, i), managed)
            && Moves(alloc[i], alloc, RemoveAt(alloc, i), free, Given(free, alloc[i], barrier))
  {
    GiveKeepsSeparate(free, alloc, i, barrier);
    forall a
      ensures && (In(alloc[i], a) ==> Covered(alloc, a))
              && (Covered(RemoveAt(alloc, i), a) <==> Covered(alloc, a) && !In(alloc[i], a))
              && (Covered(Given(free, alloc[i], barrier), a) <==> Covered(free, a) || In(alloc[i], a))
    {
      GivenCovers(free, alloc[i], barrier, a);
      RemoveUncovers(alloc, i, a);
    }
  }

  lemma {:induction false} CoveredConcat(xs: seq<Run>, ys: seq<Run>, a: nat)
    ensures Covered(xs + ys, a) <==> Covered(xs, a) || Covered(ys, a)
  {
    var zs := xs + ys;
    if Covered(xs, a) { var i :| 0 <= i < |xs| && In(xs[i], a); assert In(zs[i], a); }
    if Covered(ys, a) { var i :| 0 <= i < |ys| && In(ys[i], a); assert In(zs[|xs| + i], a); }
    if Covered(zs, a) {
      var i :| 0 <= i < |zs| && In(zs[i], a);
      if i >= |xs| { assert In(ys[i - |xs|], a); }
    }
  }

  /** An empty run can only be freed without trace when it touches a free run. */
  lemma {:induction false} EmptyGiveIff(rs: seq<Run>, addr: nat, barrier: Barrier)
    requires NoEmpty(rs)
    ensures NoEmpty(Given(rs, Run(addr, 0), barrier)) <==> FirstTouch(rs, Run(addr, 0), barrier) < |rs|
  {
    var i := FirstTouch(rs, Run(addr, 0), barrier);
    if i == |rs| {
      assert Given(rs, Run(addr, 0), barrier)[|rs|].pages == 0;
    } else {
      var grown := Joined(rs[i], Run(addr, 0));
      var qs := rs[i := grown];
      var j := FirstTouch(qs, grown, barrier);
      assert NoEmpty(qs);
      if j < |qs| {
        var us := qs[j := Joined(qs[j], grown)];
        assert NoEmpty(us);
        assert forall k | 0 <= k < |RemoveAt(us, i)| :: RemoveAt(us, i)[k] == us[if k < i then k else k + 1];
      }
    }
  }
}
