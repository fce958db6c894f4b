/** The mount table and longest-prefix lookup (kernel/src/fs/mount.rs). */
module Mounts {
  import opened Basics
  import opened Paths
  import opened VfsTree

  datatype Mount<B> = Mount(point: string, backend: B)

  type Table<B> = seq<Mount<B>>

  /** The prefix test of `lookup_mp`. */
  predicate Covers(mp: string, path: string) {
    mp == "/" || path == mp || mp + "/" <= path
  }

  /** Index of the entry `lookup_mp` keeps: a strictly longer match replaces the best. */
  function BestIdx<B>(ms: Table<B>, path: string): (r: Option<nat>)
    ensures r.Some? ==> r.value < |ms| && Covers(ms[r.value].point, path)
    ensures r.Some? ==> forall j | 0 <= j < |ms| && Covers(ms[j].point, path) :: |ms[j].point| <= |ms[r.value].point|
    ensures r.None? ==> forall j | 0 <= j < |ms| :: !Covers(ms[j].point, path)
  {
    if ms == [] then None
    else
      var k := |ms| - 1;
      var b := BestIdx(ms[..k], path);
      if Covers(ms[k].point, path) && (b.None? || |ms[k].point| > |ms[b.value].point|) then Some(k) else b
  }

  function RelOf(mp: string, path: string): string
    requires mp == "/" || |mp| <= |path|
  {
    if mp == "/" then path
    else
      var stripped := path[|mp|..];
      if stripped == "" then "/" else stripped
  }

  function ToAbsolute(mp: string, rel: string): string {
    if mp == "/" then rel else if rel == "/" then mp else mp + rel
  }

  predicate IsMountPoint<B>(ms: Table<B>, path: string) {
    exists i | 0 <= i < |ms| :: ms[i].point == path
  }

  predicate HasMountWithin<B>(ms: Table<B>, path: string) {
    var prefix := if path == "/" then "/" else path + "/";
    exists i | 0 <= i < |ms| :: ms[i].point != path && prefix <= ms[i].point
  }

  /** In-place form of `lookup_mp`. */
  method LookupMp<B>(ms: Table<B>, path: string) returns (r: Option<(B, string, string)>)
    ensures match BestIdx(ms, path)
            case None => r == None
            case Some(i) => r == Some((ms[i].backend, RelOf(ms[i].point, path), ms[i].point))
  {
    var best: Option<nat> := None;
    for i := 0 to |ms|
      invariant best == BestIdx(ms[..i], path)
    {
      assert ms[..i + 1][..i] == ms[..i];
      if Covers(ms[i].point, path) {
        if best.None? || |ms[i].point| > |ms[best.value].point| { best := Some(i); }
      }
    }
    assert ms[..|ms|] == ms;
    if best.None? { return None; }
    var e := ms[best.value];
    r := Some((e.backend, RelOf(e.point, path), e.point));
  }

  /** Over every run: the table is empty or holds "/", its points are normal paths, and no
      point occurs twice. */
  ghost predicate TableOk<B>(ms: Table<B>) {
    && (ms != [] ==> IsMountPoint(ms, "/"))
    && (forall i | 0 <= i < |ms| :: Normal(ms[i].point))
    && (forall i, j | 0 <= i < j < |ms| :: ms[i].point != ms[j].point)
  }

  /** On normal paths the string test is the component-wise prefix test. */
  lemma {:induction false} CoversIffPrefix(m: seq<string>, cs: seq<string>)
    requires Canonical(m) && Canonical(cs)
    ensures Covers(Render(m), Render(cs)) <==> m <= cs
  {
    UnderIffPrefix(m, cs);
    if m != [] {
      SlashedIsLong(m);
      SameOrUnder(Slashed(m), Slashed(cs));
    }
  }

  lemma {:induction false} SameOrUnder(x: string, y: string)
    ensures x + "/" <= y + "/" <==> x == y || x + "/" <= y
  {
    if x + "/" <= y + "/" {
      if |x| == |y| {
        assert x == (x + "/")[..|x|] == (y + "/")[..|x|] == y;
      } else {
        assert (y + "/")[..|x| + 1] == y[..|x| + 1];
      }
    }
    if x + "/" <= y { assert (y + "/")[..|x| + 1] == y[..|x| + 1]; }
  }

  lemma {:induction false} DeeperIsLonger(b: seq<string>, a: seq<string>)
    requires Canonical(a) && b < a
    ensures |Render(b)| < |Render(a)|
  {
    var rest := a[|b|..];
    assert a == b + rest;
    SlashedAppend(b, rest);
    SlashedIsLong(rest);
  }

  lemma {:induction false} LongerIsDeeper(a: seq<string>, b: seq<string>, cs: seq<string>)
    requires Canonical(a) && Canonical(b) && a <= cs && b <= cs && |Render(a)| <= |Render(b)|
    ensures a <= b
  {
    assert a == cs[..|a|] && b == cs[..|b|];
    if |a| > |b| { DeeperIsLonger(b, a); } else { assert a == b[..|a|]; }
  }

  lemma {:induction false} RelOfRender(m: seq<string>, cs: seq<string>)
    requires Canonical(m) && Canonical(cs) && m <= cs
    ensures |Render(m)| <= |Render(cs)|
    ensures RelOf(Render(m), Render(cs)) == Render(cs[|m|..])
    ensures ToAbsolute(Render(m), Render(cs[|m|..])) == Render(cs)
  {
    var rest := cs[|m|..];
    assert cs == m + rest;
    SlashedAppend(m, rest);
    if m != [] {
      SlashedIsLong(m);
      assert Slashed(cs)[|Slashed(m)|..] == Slashed(rest);
      if rest != [] { SlashedIsLong(rest); }
    } else {
      assert rest == cs;
      if cs != [] { SlashedIsLong(cs); }
    }
  }

  /** For every normal path `lookup_mp` finds the unique deepest mount point at or above it,
      the relative path is the rest of the components, and `to_absolute` rebuilds the path. */
  lemma {:induction false} LookupIsDeepest<B>(ms: Table<B>, cs: seq<string>)
    requires TableOk(ms) && ms != [] && Canonical(cs)
    ensures var r := BestIdx(ms, Render(cs));
            r.Some? && exists m :: DeepestPoint(ms, cs, r.value, m)
  {
    var path := Render(cs);
    var r := BestIdx(ms, path);
    var w :| 0 <= w < |ms| && ms[w].point == "/";
    assert Covers(ms[w].point, path);
    var i := r.value;
    var m :| Canonical(m) && ms[i].point == Render(m);
    CoversIffPrefix(m, cs);
    RelOfRender(m, cs);
    forall j, q | 0 <= j < |ms| && Canonical(q) && ms[j].point == Render(q) && q <= cs
      ensures q <= m && (q == m ==> j == i)
    {
      CoversIffPrefix(q, cs);
      LongerIsDeeper(q, m, cs);
    }
    assert DeepestPoint(ms, cs, i, m);
  }

  lemma {:induction false} LookupRebuilds<B>(ms: Table<B>, cs: seq<string>) returns (i: nat)
    requires TableOk(ms) && ms != [] && Canonical(cs)
    ensures i < |ms| && BestIdx(ms, Render(cs)) == Some(i) && (ms[i].point == "/" || |ms[i].point| <= |Render(cs)|)
    ensures Normal(RelOf(ms[i].point, Render(cs))) && ToAbsolute(ms[i].point, RelOf(ms[i].point, Render(cs))) == Render(cs)
  {
    LookupIsDeepest(ms, cs);
    i := BestIdx(ms, Render(cs)).value;
    var m :| DeepestPoint(ms, cs, i, m);
    assert Canonical(cs[|m|..]);
  }

  ghost predicate DeepestPoint<B>(ms: Table<B>, cs: seq<string>, i: nat, m: seq<string>) {
    && i < |ms| && Canonical(m) && ms[i].point == Render(m) && m <= cs
    && (forall j, q | 0 <= j < |ms| && Canonical(q) && ms[j].point == Render(q) && q <= cs :: q <= m && (q == m ==> j == i))
    && |ms[i].point| <= |Render(cs)|
    && RelOf(ms[i].point, Render(cs)) == Render(cs[|m|..])
    && ToAbsolute(ms[i].point, RelOf(ms[i].point, Render(cs))) == Render(cs)
  }

  /** "Strictly inside" as a string test is strict extension of the components. */
  lemma {:induction false} InsideIffExtends(cs: seq<string>, q: seq<string>)
    requires Canonical(cs) && Canonical(q)
    ensures var prefix := if Render(cs) == "/" then "/" else Render(cs) + "/";
            (Render(q) != Render(cs) && prefix <= Render(q)) <==> cs < q
  {
    if cs == q {
    } else {
      RenderDistinct(cs, q);
      if cs != [] {
        SlashedIsLong(cs);
        CoversIffPrefix(cs, q);
      } else if q != [] {
        SlashedIsLong(q);
      }
    }
  }

  lemma {:induction false} RenderDistinct(a: seq<string>, b: seq<string>)
    requires Canonical(a) && Canonical(b) && a != b
    ensures Render(a) != Render(b)
  {
    if Render(a) == Render(b) { RenderInjective(a, b); }
  }

  // ----- Adding and removing entries

  lemma {:induction false} PushKeepsTable<B>(ms: Table<B>, e: Mount<B>)
    requires TableOk(ms) && Normal(e.point) && !IsMountPoint(ms, e.point) && (ms == [] ==> e.point == "/")
    ensures TableOk(ms + [e])
  {
    if ms == [] {
      assert (ms + [e])[0].point == "/";
    } else {
      var w :| 0 <= w < |ms| && ms[w].point == "/";
      assert (ms + [e])[w].point == "/";
    }
  }

  /** Every point but "/" lies within "/". */
  lemma {:induction false} AllWithinRoot<B>(ms: Table<B>, i: nat, a: nat)
    requires TableOk(ms) && i < |ms| && ms[i].point == "/" && !HasMountWithin(ms, "/") && a < |ms|
    ensures a == i
  {
    var q :| Canonical(q) && ms[a].point == Render(q);
    InsideIffExtends([], q);
    assert Render([]) == "/";
    assert q == [];
  }

  /** The root mount can only go when it is the last one. */
  lemma {:induction false} RemoveKeepsTable<B>(ms: Table<B>, i: nat)
    requires TableOk(ms) && i < |ms| && !HasMountWithin(ms, ms[i].point)
    ensures TableOk(ms[..i] + ms[i + 1..])
  {
    var ns := ms[..i] + ms[i + 1..];
    RemoveKeepsPoints(ms, i);
    if ms[i].point == "/" {
      RootIsLast(ms, i);
      assert ns == [];
    } else {
      var w :| 0 <= w < |ms| && ms[w].point == "/";
      assert ns[if w < i then w else w - 1].point == "/";
    }
  }

  lemma {:induction false} RemoveKeepsPoints<B>(ms: Table<B>, i: nat)
    requires (forall k | 0 <= k < |ms| :: Normal(ms[k].point)) && i < |ms|
    requires forall j, k | 0 <= j < k < |ms| :: ms[j].point != ms[k].point
    ensures var ns := ms[..i] + ms[i + 1..];
            && (forall k | 0 <= k < |ns| :: ns[k] == ms[if k < i then k else k + 1] && Normal(ns[k].point))
            && (forall j, k | 0 <= j < k < |ns| :: ns[j].point != ns[k].point)
  {
    var ns := ms[..i] + ms[i + 1..];
    assert forall k | 0 <= k < |ns| :: ns[k] == ms[if k < i then k else k + 1];
  }

  lemma {:induction false} RootIsLast<B>(ms: Table<B>, i: nat)
    requires TableOk(ms) && i < |ms| && ms[i].point == "/" && !HasMountWithin(ms, "/")
    ensures |ms| == 1
  {
    AllWithinRoot(ms, i, 0);
    AllWithinRoot(ms, i, |ms| - 1);
  }
}
