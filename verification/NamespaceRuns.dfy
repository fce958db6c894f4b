/** Every run of file operations, mounts and unmounts (kernel/src/fs/mod.rs,
    kernel/src/fs/mount.rs), and what it means for the paths a user can look up. Each
    operation is one step. */
module NamespaceRuns {
  import opened Basics
  import opened Paths
  import opened VfsTree
  import opened VfsHandles
  import opened VfsProbe
  import opened Mounts
  import opened Following
  import opened Resolve
  import opened Namespace

  // ----- Mounting and unmounting

  lemma {:induction false} NewMountIsAnchored<N>(fs: Fs<N>, e: Mount<Tree<N>>, i: nat, m: Path, rs: Path)
    requires PlacedAt(fs, i, m, rs) && rs != [] && e.point == Render(m + rs) && DirAt(fs[i].backend, rs)
    ensures AnchoredAt(fs + [e], m + rs)
  {
    var gs, q := fs + [e], m + rs;
    forall j: nat, r | PointAt(gs, j, r) && r < q ensures r <= m {
      if j == |fs| { RenderInjective(r, q); }
      assert PointAt(fs, j, r);
    }
    assert PointAt(gs, i, m);
    assert q[|m|..] == rs;
    assert AnchoredBy(gs, q, i, m);
  }

  lemma {:induction false} OldMountStaysAnchored<N>(fs: Fs<N>, e: Mount<Tree<N>>, cs: Path, q: Path)
    requires Canonical(cs) && e.point == Render(cs) && !(cs < q) && AnchoredAt(fs, q)
    ensures AnchoredAt(fs + [e], q)
  {
    var gs := fs + [e];
    var k: nat, r :| AnchoredBy(fs, q, k, r);
    forall j: nat, p | PointAt(gs, j, p) && p < q ensures p <= r {
      if j == |fs| { RenderInjective(p, cs); }
      assert PointAt(fs, j, p);
    }
    assert PointAt(gs, k, r);
    assert AnchoredBy(gs, q, k, r);
  }

  lemma {:induction false} MountKeepsSound<N>(fs: Fs<N>, cwd: string, path: string, tree: Tree<N>)
    requires Sound(fs) && WellFormed(tree)
    ensures Sound(MountAt(fs, cwd, path, tree).0)
  {
    MountKeepsFs(fs, cwd, path, tree);
    var gs := MountAt(fs, cwd, path, tree).0;
    if fs == [] {
      forall j: nat, q | PointAt(gs, j, q) ensures q == [] { RenderInjective(q, []); }
    } else if gs != fs {
      var r := ResolvePath(fs, cwd, path, true).value;
      ResolveIdempotent(fs, cwd, path, true);
      var i, m, rs := Locate(fs, cwd, path, true);
      AddedKeepsAnchors(fs, r, i, m, rs, tree);
    }
  }

  lemma {:induction false} AddedKeepsAnchors<N>(fs: Fs<N>, r: Resolved<N>, i: nat, m: Path, rs: Path, tree: Tree<N>)
    requires Sound(fs) && Located(fs, r, i, m, rs) && r.attrs.mode & 2 != 0
    requires !IsMountPoint(fs, ToAbsolute(r.mp, r.rel)) && !HasMountWithin(fs, ToAbsolute(r.mp, r.rel))
    ensures Anchored(fs + [Mount(ToAbsolute(r.mp, r.rel), tree)])
  {
    var e, cs := Mount(ToAbsolute(r.mp, r.rel), tree), m + rs;
    TargetHasName(fs, r, i, m, rs);
    NewMountIsAnchored(fs, e, i, m, rs);
    NoPointWithin(fs, cs);
    forall j: nat, q | PointAt(fs + [e], j, q) && q != [] ensures AnchoredAt(fs + [e], q) {
      if j == |fs| {
        RenderInjective(q, cs);
      } else {
        assert PointAt(fs, j, q);
        OldMountStaysAnchored(fs, e, cs, q);
      }
    }
  }

  /** Where entry `k` goes when entry `i` is removed. */
  function Shifted(k: nat, i: nat): nat
    requires k != i
  {
    if k < i then k else k - 1
  }

  lemma {:induction false} RemoveKeepsNearest<B>(ms: Table<B>, i: nat, q: Path, k: nat, r: Path)
    requires i < |ms| && k != i && NearestAbove(ms, q, k, r)
    ensures NearestAbove(ms[..i] + ms[i + 1..], q, Shifted(k, i), r)
    ensures (ms[..i] + ms[i + 1..])[Shifted(k, i)] == ms[k]
  {
    var ns := ms[..i] + ms[i + 1..];
    forall j: nat, p | PointAt(ns, j, p) && p < q ensures p <= r {
      assert PointAt(ms, if j < i then j else j + 1, p);
    }
  }

  lemma {:induction false} OthersStayAnchored<N>(fs: Fs<N>, i: nat, q: Path)
    requires i < |fs| && AnchoredAt(fs, q) && forall r :: PointAt(fs, i, r) ==> !(r < q)
    ensures AnchoredAt(fs[..i] + fs[i + 1..], q)
  {
    var k: nat, r :| AnchoredBy(fs, q, k, r);
    RemoveKeepsNearest(fs, i, q, k, r);
    assert AnchoredBy(fs[..i] + fs[i + 1..], q, Shifted(k, i), r);
  }

  lemma {:induction false} UnmountKeepsSound<N>(fs: Fs<N>, cwd: string, path: string)
    requires Sound(fs)
    ensures Sound(UnmountAt(fs, cwd, path).0)
  {
    UnmountKeepsFs(fs, cwd, path);
    if fs != [] && ResolvePath(fs, cwd, path, true).Ok? {
      var r := ResolvePath(fs, cwd, path, true).value;
      DropKeepsAnchors(fs, ToAbsolute(r.mp, r.rel));
    }
  }

  lemma {:induction false} DropKeepsAnchors<N>(fs: Fs<N>, canonical: string)
    requires TableOk(fs) && Anchored(fs)
    ensures Anchored(DropMount(fs, canonical).0)
  {
    DropRemoves(fs, canonical);
    var (gs, r) := DropMount(fs, canonical);
    if r.Ok? { RemoveKeepsAnchors(fs, IndexOf(fs, canonical), gs); }
  }

  lemma {:induction false} DropRemoves<N>(fs: Fs<N>, canonical: string)
    ensures var (gs, r) := DropMount(fs, canonical);
            var i := IndexOf(fs, canonical);
            if r.Ok? then i < |fs| && !HasMountWithin(fs, fs[i].point) && gs == fs[..i] + fs[i + 1..] else gs == fs
  {
  }

  lemma {:induction false} RemoveKeepsAnchors<N>(fs: Fs<N>, i: nat, gs: Fs<N>)
    requires TableOk(fs) && Anchored(fs) && i < |fs| && !HasMountWithin(fs, fs[i].point) && gs == fs[..i] + fs[i + 1..]
    ensures Anchored(gs)
  {
    forall j: nat, q | PointAt(gs, j, q) && q != [] ensures AnchoredAt(gs, q) {
      var k := if j < i then j else j + 1;
      assert PointAt(fs, k, q);
      NotBelow(fs, i, k, q);
      OthersStayAnchored(fs, i, q);
    }
  }

  lemma {:induction false} NotBelow<B>(ms: Table<B>, i: nat, j: nat, q: Path)
    requires TableOk(ms) && i < |ms| && !HasMountWithin(ms, ms[i].point) && PointAt(ms, j, q)
    ensures forall r :: PointAt(ms, i, r) ==> !(r < q)
  {
    forall r | PointAt(ms, i, r) ensures !(r < q) { WithinIff(ms, r); }
  }

  // ----- Runs

  datatype FsOp<N> =
    | DoCreate(cwd: string, path: string, x: N, e: NewEntry)
    | DoDelete(cwd: string, path: string)
    | DoRename(cwd: string, from: string, to: string)
    | DoOpen(cwd: string, path: string)
    | DoClose(i: nat, h: Handle<N>)
    | Mounting(op: MountOp<N>)

  function FsStep<N(==)>(fs: Fs<N>, op: FsOp<N>): Fs<N> {
    match op
    case DoCreate(cwd, path, x, e) => CreateAt(fs, cwd, path, x, e).0
    case DoDelete(cwd, path) => DeleteAt(fs, cwd, path).0
    case DoRename(cwd, from, to) => RenameAt(fs, cwd, from, to).0
    case DoOpen(cwd, path) => OpenPath(fs, cwd, path).0
    case DoClose(i, h) => if i < |fs| then fs[i := Mount(fs[i].point, CloseHandle(fs[i].backend, h))] else fs
    case Mounting(op) => MountStep(fs, op)
  }

  /** A created node is new, and what is mounted is a tree. */
  ghost predicate Permitted<N>(fs: Fs<N>, op: FsOp<N>) {
    match op
    case DoCreate(_, _, x, _) => forall i | 0 <= i < |fs| :: x !in fs[i].backend.store
    case Mounting(DoMount(_, _, tree)) => WellFormed(tree)
    case _ => true
  }

  ghost predicate AllPermitted<N>(fs: Fs<N>, ops: seq<FsOp<N>>)
    decreases ops
  {
    ops != [] ==> Permitted(fs, ops[0]) && AllPermitted(FsStep(fs, ops[0]), ops[1..])
  }

  ghost predicate AlwaysSound<N>(fs: Fs<N>, ops: seq<FsOp<N>>)
    decreases ops
  {
    Sound(fs) && (ops != [] ==> AlwaysSound(FsStep(fs, ops[0]), ops[1..]))
  }

  predicate Undisturbed<N(==)>(fs: Fs<N>, ops: seq<FsOp<N>>)
    decreases ops
  {
    ops != [] ==>
      && (ops[0].DoRename? ==> !Disturbs(fs, ops[0].cwd, ops[0].from, ops[0].to))
      && Undisturbed(FsStep(fs, ops[0]), ops[1..])
  }

  lemma {:induction false} StepSoundIff<N>(fs: Fs<N>, op: FsOp<N>)
    requires Sound(fs) && Permitted(fs, op)
    ensures Sound(FsStep(fs, op)) <==> (op.DoRename? ==> !Disturbs(fs, op.cwd, op.from, op.to))
  {
    match op {
      case DoCreate(cwd, path, x, e) => CreateKeepsSound(fs, cwd, path, x, e);
      case DoDelete(cwd, path) => DeleteKeepsSound(fs, cwd, path);
      case DoRename(cwd, from, to) => RenameSoundIff(fs, cwd, from, to);
      case DoOpen(cwd, path) => OpenKeepsSound(fs, cwd, path);
      case DoClose(i, h) => CloseKeepsSound(fs, i, h);
      case Mounting(DoMount(cwd, path, tree)) => MountKeepsSound(fs, cwd, path, tree);
      case Mounting(DoUnmount(cwd, path)) => UnmountKeepsSound(fs, cwd, path);
    }
  }

  /** Over every run of creations, deletions, renames, opens, closes, mounts and unmounts: in
      all states the trees are trees and every mount point but "/" names a directory of the
      file system below it, exactly when no rename of the run disturbs this. */
  lemma {:induction false} RunSoundIff<N>(fs: Fs<N>, ops: seq<FsOp<N>>)
    requires Sound(fs) && AllPermitted(fs, ops)
    ensures AlwaysSound(fs, ops) <==> Undisturbed(fs, ops)
    decreases ops
  {
    if ops != [] {
      StepSoundIff(fs, ops[0]);
      if Sound(FsStep(fs, ops[0])) { RunSoundIff(FsStep(fs, ops[0]), ops[1..]); }
    }
  }

  // ----- What a user sees

  /** A lookup of the normal path ends at once, and finds something. */
  predicate Visible<N(==)>(fs: Fs<N>, cs: Path, follow: bool) {
    var h := HopFrom(fs, Render(cs), follow);
    h.Stop? && h.result.Ok?
  }

  lemma {:induction false} PlaceIsUnique<B>(ms: Table<B>, i: nat, m: Path, rs: Path)
    requires TableOk(ms) && PlacedAt(ms, i, m, rs)
    ensures BestIdx(ms, Render(m + rs)) == Some(i) && RelOf(ms[i].point, Render(m + rs)) == Render(rs)
  {
    var k, n, ds := PlaceIsDeepest(ms, m + rs);
    assert n <= m && m <= n;
    assert n == m[..|n|] == m;
    SamePoint(ms, i, k);
    assert ds == (m + rs)[|m|..] == rs;
  }

  /** A node that is no symlink is found: a walk passes directories only. */
  lemma {:induction false} ProbeFindsPlain<N>(t: Tree<N>, rs: Path, follow: bool)
    requires WellFormed(t) && Canonical(rs) && Get(t, rs).Ok? && !t.store[GetNode(t, rs)].kind.Symlink?
    ensures Probe(t, Render(rs), follow) == Ok(Found(AttrsOf(t.store[GetNode(t, rs)]), None))
  {
    ProbeMeaning(t, Render(rs), follow);
    CompsRender(rs);
    assert rs[..|rs|] == rs;
    forall k: nat ensures !LinkAt(t, rs, k, follow) {
      if k + 1 < |rs| { PassedAreDirs(t, rs, |rs|, k + 1); }
    }
  }

  ghost function GetNode<N>(t: Tree<N>, rs: Path): (n: N)
    requires WellFormed(t) && Get(t, rs).Ok?
    ensures n in t.store
  {
    WalkInStore(t, t.root, rs);
    Get(t, rs).value
  }

  lemma {:induction false} PlainIsVisible<N>(fs: Fs<N>, i: nat, m: Path, rs: Path, follow: bool)
    requires FsOk(fs) && PlacedAt(fs, i, m, rs) && Get(fs[i].backend, rs).Ok?
    requires !fs[i].backend.store[GetNode(fs[i].backend, rs)].kind.Symlink?
    ensures HopFrom(fs, Render(m + rs), follow) ==
              Stop(Ok(Resolved(fs[i].backend, fs[i].point, Render(rs), AttrsOf(fs[i].backend.store[GetNode(fs[i].backend, rs)]), None)))
  {
    PlaceIsUnique(fs, i, m, rs);
    ProbeFindsPlain(fs[i].backend, rs, follow);
  }

  lemma {:induction false} HolderIsDir<N>(t: Tree<N>, rs: Path)
    requires WellFormed(t) && rs != [] && Get(t, rs).Ok?
    ensures Get(t, rs[..|rs| - 1]).Ok? && t.store[GetNode(t, rs[..|rs| - 1])].kind.Dir?
  {
    assert rs[..|rs|] == rs;
    PassedAreDirs(t, rs, |rs|, |rs| - 1);
  }

  lemma {:induction false} HolderIsPlaced<B>(ms: Table<B>, i: nat, m: Path, rs: Path)
    requires PointAt(ms, i, m) && Canonical(rs) && rs != []
    requires forall j: nat, q | PointAt(ms, j, q) && q < m + rs :: q <= m
    ensures PlacedAt(ms, i, m, rs[..|rs| - 1]) && m + rs[..|rs| - 1] == (m + rs)[..|m + rs| - 1]
  {
    var ps := rs[..|rs| - 1];
    assert m + ps == (m + rs)[..|m + rs| - 1];
    forall j: nat, q | PointAt(ms, j, q) && q <= m + ps ensures q <= m {
      assert q < m + rs;
    }
  }

  /** The directory that holds the last name of a path found in entry `i`. */
  lemma {:induction false} HolderIsVisible<N>(fs: Fs<N>, i: nat, m: Path, rs: Path, follow: bool)
    requires FsOk(fs) && rs != [] && PlacedAt(fs, i, m, rs[..|rs| - 1]) && Get(fs[i].backend, rs).Ok?
    ensures Visible(fs, m + rs[..|rs| - 1], follow)
  {
    HolderIsDir(fs[i].backend, rs);
    PlainIsVisible(fs, i, m, rs[..|rs| - 1], follow);
  }

  lemma {:induction false} FoundHolderIsVisible<N>(fs: Fs<N>, r: Resolved<N>, i: nat, m: Path, rs: Path, follow: bool)
    requires FsOk(fs) && Located(fs, r, i, m, rs) && rs != []
    ensures Visible(fs, (m + rs)[..|m + rs| - 1], follow)
  {
    HolderIsPlaced(fs, i, m, rs);
    HolderIsVisible(fs, i, m, rs, follow);
  }

  lemma {:induction false} AnchorIsPlaced<B>(ms: Table<B>, q: Path, k: nat, r: Path)
    requires Canonical(q) && NearestAbove(ms, q, k, r)
    ensures var ps := q[|r|..]; PlacedAt(ms, k, r, ps[..|ps| - 1]) && r + ps[..|ps| - 1] == q[..|q| - 1]
  {
    var ps := q[|r|..];
    assert q == r + ps;
    HolderIsPlaced(ms, k, r, ps);
  }

  lemma {:induction false} PointHolderIsVisible<N>(fs: Fs<N>, q: Path, k: nat, r: Path, follow: bool)
    requires FsOk(fs) && Canonical(q) && AnchoredBy(fs, q, k, r)
    ensures Visible(fs, q[..|q| - 1], follow)
  {
    AnchorIsPlaced(fs, q, k, r);
    HolderIsVisible(fs, k, r, q[|r|..], follow);
  }

  lemma {:induction false} AnchoredHolder<N>(fs: Fs<N>, j: nat, q: Path, follow: bool)
    requires FsOk(fs) && PointAt(fs, j, q) && AnchoredAt(fs, q)
    ensures q != [] && Visible(fs, q[..|q| - 1], follow)
  {
    var k: nat, r :| AnchoredBy(fs, q, k, r);
    PointHolderIsVisible(fs, q, k, r, follow);
  }

  /** What is found is a mount point, or its holder is found in the same file system. */
  lemma {:induction false} PointOrHolder<N>(fs: Fs<N>, r: Resolved<N>, cs: Path, follow: bool) returns (i: nat)
    requires FsOk(fs) && Canonical(cs) && cs != [] && FoundAt(fs, follow, r, cs)
    ensures PointAt(fs, i, cs) || Visible(fs, cs[..|cs| - 1], follow)
  {
    var m, rs;
    i, m, rs := LocateFound(fs, follow, r, cs);
    if rs != [] {
      FoundHolderIsVisible(fs, r, i, m, rs, follow);
    } else {
      assert m + [] == m;
    }
  }

  lemma {:induction false} ParentIsVisible<N>(fs: Fs<N>, cs: Path, follow: bool)
    requires Sound(fs) && Canonical(cs) && cs != [] && Visible(fs, cs, follow)
    ensures Visible(fs, cs[..|cs| - 1], follow)
  {
    var r := HopFrom(fs, Render(cs), follow).result.value;
    HopFoundAt(fs, follow, r, cs);
    var i := PointOrHolder(fs, r, cs, follow);
    if PointAt(fs, i, cs) { AnchoredHolder(fs, i, cs, follow); }
  }

  predicate AllVisible<N(==)>(fs: Fs<N>, cs: Path, follow: bool) {
    Visible(fs, cs, follow) && (cs != [] ==> AllVisible(fs, cs[..|cs| - 1], follow))
  }

  /** In a sound state, whatever a path finds, all its ancestors are found too, across any
      number of mounts. */
  lemma {:induction false} AncestorsAreVisible<N>(fs: Fs<N>, cs: Path, follow: bool)
    requires Sound(fs) && Canonical(cs) && Visible(fs, cs, follow)
    ensures AllVisible(fs, cs, follow)
    decreases |cs|
  {
    if cs != [] {
      ParentIsVisible(fs, cs, follow);
      AncestorsAreVisible(fs, cs[..|cs| - 1], follow);
    }
  }

  lemma {:induction false} MissingName<N>(t: Tree<N>, f: Path, a: string, follow: bool)
    requires WellFormed(t) && Canonical(f + [a]) && Get(t, f).Ok? && Get(t, f + [a]) == Err(NotFound)
    ensures Probe(t, Render(f + [a]), follow) == Err(NotFound)
  {
    var rs := f + [a];
    ProbeMeaning(t, Render(rs), follow);
    CompsRender(rs);
    NameUnder(t, f, a);
    assert rs[..|rs|] == rs && rs[..|f|] == f;
    forall k: nat ensures !LinkAt(t, rs, k, follow) {
      if k + 1 < |f| { PassedAreDirs(t, rs, |f|, k + 1); }
    }
  }

  lemma {:induction false} PointIsVisible<N>(fs: Fs<N>, j: nat, q: Path, follow: bool)
    requires FsOk(fs) && PointAt(fs, j, q)
    ensures Visible(fs, q, follow)
  {
    assert q + [] == q;
    assert Get(fs[j].backend, []) == Ok(fs[j].backend.root);
    PlainIsVisible(fs, j, q, [], follow);
  }

  /** The old name is no longer found in the renamed tree, links or no links. */
  lemma {:induction false} OldNameIsMissing<N>(t: Tree<N>, f: Path, a: string, d: Path, b: string, follow: bool)
    requires WellFormed(t) && RenameIn(t, f, a, d, b).1.Renamed? && !SameName(f, a, d, b) && Canonical(f + [a])
    requires WellFormed(RenameIn(t, f, a, d, b).0)
    ensures Probe(RenameIn(t, f, a, d, b).0, Render(f + [a]), follow) == Err(NotFound)
  {
    OldNameGone(t, f, a, d, b, []);
    assert f + [a] + [] == f + [a];
    NewNameWasFree(t, f, a, d, b, f);
    MovedElsewhere(t, f, a, d, b, f);
    MissingName(RenameIn(t, f, a, d, b).0, f, a, follow);
  }

  lemma {:induction false} MissingInEntry<N>(fs: Fs<N>, i: nat, m: Path, rs: Path, u: Tree<N>, follow: bool)
    requires PlacedAt(fs, i, m, rs) && FsOk(fs[i := Mount(fs[i].point, u)]) && Probe(u, Render(rs), follow) == Err(NotFound)
    ensures HopFrom(fs[i := Mount(fs[i].point, u)], Render(m + rs), follow) == Stop(Err(NotFound))
  {
    SamePoints(fs, i, u);
    PlaceIsUnique(fs[i := Mount(fs[i].point, u)], i, m, rs);
  }

  /** After a rename that pulled a directory out from under mount points, each of them is
      still found although the old name above it is not. */
  lemma {:induction false} MoveOrphans<N>(fs: Fs<N>, i: nat, m: Path, rs: Path, d: Path, b: string, j: nat, q: Path, follow: bool)
    requires FsOk(fs) && PlacedAt(fs, i, m, rs) && rs != [] && !(rs < d) && !SameName(rs[..|rs| - 1], rs[|rs| - 1], d, b)
    requires RenameIn(fs[i].backend, rs[..|rs| - 1], rs[|rs| - 1], d, b).1.Renamed?
    requires PointAt(fs, j, q) && m + rs < q
    ensures var gs := fs[i := Mount(fs[i].point, RenameIn(fs[i].backend, rs[..|rs| - 1], rs[|rs| - 1], d, b).0)];
            Visible(gs, q, follow) && HopFrom(gs, Render(m + rs), follow) == Stop(Err(NotFound))
  {
    var t, f, a := fs[i].backend, rs[..|rs| - 1], rs[|rs| - 1];
    var u := RenameIn(t, f, a, d, b).0;
    assert rs == f + [a];
    RenameKeepsTreeIff(t, f, a, d, b);
    OldNameIsMissing(t, f, a, d, b, follow);
    ReplaceKeepsTable(fs, i, u);
    MissingInEntry(fs, i, m, rs, u, follow);
    SamePoints(fs, i, u);
    PointIsVisible(fs[i := Mount(fs[i].point, u)], j, q, follow);
  }

  /** `rename` that succeeds although a mount point lies below its source: every such mount
      point is still found, and the source, an ancestor of it, is not. */
  lemma {:induction false} RenameOrphans<N>(fs: Fs<N>, cwd: string, from: string, to: string, j: nat, follow: bool)
    requires Sound(fs) && j < |fs| && RenameAt(fs, cwd, from, to).1.Renamed?
    requires var (toParent, toLeaf) := SplitParent(MakeAbsolute(cwd, to));
             var rf, rt := ResolvePath(fs, cwd, from, false).value, ResolvePath(fs, cwd, toParent, true).value;
             && !Inside(ToAbsolute(rf.mp, rf.rel), ToAbsolute(rt.mp, rt.rel))
             && ToAbsolute(rt.mp, JoinRel(rt.rel, toLeaf)) != ToAbsolute(rf.mp, rf.rel)
             && Inside(ToAbsolute(rf.mp, rf.rel), fs[j].point)
    ensures var gs, rf := RenameAt(fs, cwd, from, to).0, ResolvePath(fs, cwd, from, false).value;
            && HopFrom(gs, fs[j].point, follow).Stop? && HopFrom(gs, fs[j].point, follow).result.Ok?
            && HopFrom(gs, ToAbsolute(rf.mp, rf.rel), follow) == Stop(Err(NotFound))
  {
    var (toParent, toLeaf) := SplitParent(MakeAbsolute(cwd, to));
    var rf, rt := ResolvePath(fs, cwd, from, false).value, ResolvePath(fs, cwd, toParent, true).value;
    var i, m, rs := Locate(fs, cwd, from, false);
    var k, n, d := Locate(fs, cwd, toParent, true);
    LeafIsValid(cwd, to);
    RenamedIn(fs, rf, i, m, rs, rt, k, n, d, toLeaf);
    NamesAgree(m, rs, d, toLeaf);
    BelowIff(m, rs, d);
    var q :| Canonical(q) && fs[j].point == Render(q);
    InsideIffExtends(m + rs, q);
    MoveOrphans(fs, i, m, rs, d, toLeaf, j, q, follow);
  }

  lemma {:induction false} ResolvePlain<N>(fs: Fs<N>, cwd: string, i: nat, m: Path, rs: Path, follow: bool)
    requires FsOk(fs) && PlacedAt(fs, i, m, rs) && Get(fs[i].backend, rs).Ok?
    requires !fs[i].backend.store[GetNode(fs[i].backend, rs)].kind.Symlink?
    ensures ResolvePath(fs, cwd, Render(m + rs), follow) ==
              Ok(Resolved(fs[i].backend, fs[i].point, Render(rs), AttrsOf(fs[i].backend.store[GetNode(fs[i].backend, rs)]), None))
  {
    PlainIsVisible(fs, i, m, rs, follow);
    var cs, hops := m + rs, Hops(fs, follow);
    NormalizeFixesNormal(cs);
    assert "/" <= Render(cs);
    assert StopsAt(hops, Render(cs), 0, Render(cs), hops(Render(cs)).result);
    ResolveAgreesWithUnbounded(fs, cwd, Render(cs), follow, 0, Render(cs), hops(Render(cs)).result);
  }

  // ----- A rename that disturbs

  function Bare(): Tree<nat> {
    Tree(0, map[0 := Node(2, Dir(map[]), 0)])
  }

  /** The root file system holds "/a/b". */
  function RootOnly(): Fs<nat> {
    [Mount("/", Nested())]
  }

  /** A second one is mounted at "/a/b". */
  function TwoMounts(): Fs<nat> {
    RootOnly() + [Mount("/a/b", Bare())]
  }

  lemma {:induction false} RootOnlyIsSound()
    ensures Sound(RootOnly()) && PlacedAt(RootOnly(), 0, [], ["a", "b"])
  {
    NestedIsTree();
    var fs := RootOnly();
    assert Render([]) == "/" && [] + ["a", "b"] == ["a", "b"];
    forall j: nat, q | PointAt(fs, j, q) ensures q == [] { RenderInjective(q, []); }
    assert fs[0].point == "/" && Canonical([]);
  }

  lemma {:induction false} BareIsTree()
    ensures WellFormed(Bare())
  {
    assert Get(Bare(), []) == Ok(0);
  }

  /** What resolving a directory of the root file system answers. */
  function InRoot(rel: string, size: nat): Resolved<nat> {
    Resolved(Nested(), "/", rel, Attrs(2, size), None)
  }

  lemma {:induction false} MountPointResolves()
    ensures ResolvePath(RootOnly(), "/", "/a/b", true) == Ok(InRoot("/a/b", 0))
  {
    RootOnlyIsSound();
    NestedIsTree();
    assert Render(["a", "b"]) == "/a/b" && [] + ["a", "b"] == ["a", "b"];
    ResolvePlain(RootOnly(), "/", 0, [], ["a", "b"], true);
  }

  lemma {:induction false} MountUnderRoot()
    ensures MountAt(RootOnly(), "/", "/a/b", Bare()).0 == TwoMounts()
  {
    MountPointResolves();
    assert ToAbsolute("/", "/a/b") == "/a/b";
    assert !IsMountPoint(RootOnly(), "/a/b") && !HasMountWithin(RootOnly(), "/a/b");
    var two: bv16 := 2;
    assert two & 2 != 0;
  }

  lemma {:induction false} TwoMountsIsSound()
    ensures Sound(TwoMounts())
  {
    RootOnlyIsSound();
    BareIsTree();
    MountUnderRoot();
    MountKeepsSound(RootOnly(), "/", "/a/b", Bare());
  }

  lemma {:induction false} RootPlaces(rs: Path)
    requires rs == [] || rs == ["a"]
    ensures PlacedAt(TwoMounts(), 0, [], rs)
  {
    var fs := TwoMounts();
    assert Render([]) == "/" && Render(["a", "b"]) == "/a/b" && [] + rs == rs;
    forall j: nat, q | PointAt(fs, j, q) && q <= rs ensures q <= [] {
      RenderInjective(q, if j == 0 then [] else ["a", "b"]);
    }
  }

  lemma {:induction false} NestedNode(rs: Path, n: nat)
    requires (rs == [] && n == 0) || (rs == ["a"] && n == 1)
    ensures Get(Nested(), rs) == Ok(n) && AttrsOf(Nested().store[n]) == Attrs(2, 1) && Nested().store[n].kind.Dir?
  {
    NestedIsTree();
  }

  lemma {:induction false} InRootResolves(rs: Path, follow: bool)
    requires PlacedAt(TwoMounts(), 0, [], rs) && Get(Nested(), rs).Ok? && Get(Nested(), rs).value in Nested().store
    requires var n := Nested().store[Get(Nested(), rs).value]; n.kind.Dir? && AttrsOf(n) == Attrs(2, 1)
    ensures ResolvePath(TwoMounts(), "/", Render([] + rs), follow) == Ok(InRoot(Render(rs), 1))
  {
    TwoMountsIsSound();
    ResolvePlain(TwoMounts(), "/", 0, [], rs, follow);
  }

  lemma {:induction false} SourceResolves()
    ensures ResolvePath(TwoMounts(), "/", "/a", false) == Ok(InRoot("/a", 1))
  {
    RootPlaces(["a"]);
    assert Render(["a"]) == "/a" && [] + ["a"] == ["a"];
    NestedNode(["a"], 1);
    InRootResolves(["a"], false);
  }

  lemma {:induction false} TargetResolves()
    ensures ResolvePath(TwoMounts(), "/", "/", true) == Ok(InRoot("/", 1))
  {
    var top: Path := [];
    RootPlaces(top);
    assert Render(top) == "/" && top + top == top;
    NestedNode(top, 0);
    InRootResolves(top, true);
  }

  lemma {:induction false} NamesSplit()
    ensures SplitParent(MakeAbsolute("/", "/z")) == ("/", "z") && SplitParent("/a") == ("/", "a") && Comps("/") == []
  {
    var top: Path := [];
    assert Render(["z"]) == "/z" && Render(["a"]) == "/a" && Render(top) == "/";
    assert ["z"][..0] == top && ["a"][..0] == top;
    NormalizeFixesNormal(["z"]);
    SplitParentRender(["z"]);
    SplitParentRender(["a"]);
    CompsRender(top);
  }

  /** Renaming "/a" to "/z" while a file system is mounted at "/a/b": the call succeeds. */
  lemma {:induction false} RenameAboveMount(fs: Fs<nat>)
    requires fs == TwoMounts()
    ensures Sound(fs) && RenameAt(fs, "/", "/a", "/z").1 == Renamed && Disturbs(fs, "/", "/a", "/z")
  {
    TwoMountsIsSound();
    NamesSplit();
    SourceResolves();
    TargetResolves();
    MoveIsAllowed();
    MoveUproots();
  }

  lemma {:induction false} MoveIsAllowed()
    ensures RenameResolved(TwoMounts(), InRoot("/a", 1), InRoot("/", 1), "z").1 == Renamed
  {
    NamesSplit();
    EndsAreNoPoints();
    assert JoinRel("/", "z") == "/z";
    MoveInNested();
  }

  lemma {:induction false} EndsAreNoPoints()
    ensures !IsMountPoint(TwoMounts(), "/a") && !IsMountPoint(TwoMounts(), "/z")
  {
    assert |"/a"| == 2 && |"/z"| == 2 && |"/"| == 1 && |"/a/b"| == 4;
  }

  lemma {:induction false} MoveInNested()
    ensures RenameIn(Nested(), [], "a", [], "z").1 == Renamed
  {
    assert Get(Nested(), []) == Ok(0);
  }

  lemma {:induction false} MoveUproots()
    ensures Uproots(TwoMounts(), InRoot("/a", 1), InRoot("/", 1), "z")
  {
    var fs := TwoMounts();
    assert fs[1].point == "/a/b" && "/a/" <= "/a/b";
    assert JoinRel("/", "z") == "/z";
  }
}
