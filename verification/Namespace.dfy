/** File operations by path across the mount table (kernel/src/fs/mod.rs): creating, deleting,
    renaming, opening and closing. A mount hides a directory of the file system below it, and
    the lemmas say which operations leave that directory in place. */
module Namespace {
  import opened Basics
  import opened Paths
  import opened VfsTree
  import opened VfsHandles
  import opened VfsProbe
  import opened Mounts
  import opened Resolve

  // ----- Operations

  /** The table with tree `u` mounted at `mp`. */
  function Replaced<N(==)>(fs: Fs<N>, mp: string, u: Tree<N>): Fs<N> {
    var i := IndexOf(fs, mp);
    if i < |fs| then fs[i := Mount(mp, u)] else fs
  }

  datatype NewEntry = NewFile(mode: bv16) | NewDir(mode: bv16) | NewLink(target: string)

  function NodeOf<N(==)>(e: NewEntry): Node<N> {
    match e
    case NewFile(mode) => Node(mode | 1, File([]), 0)
    case NewDir(mode) => Node(mode | 2, Dir(map[]), 0)
    case NewLink(target) => Node(4, Symlink(target), 0)
  }

  /** `create_file`, `mkdir` and `create_symlink`, for a fresh node `x`. */
  function CreateAt<N(==)>(fs: Fs<N>, cwd: string, path: string, x: N, e: NewEntry): (Fs<N>, Result<()>) {
    var (parent, leaf) := SplitParent(MakeAbsolute(cwd, path));
    if leaf == "" then (fs, Err(InvalidArgument))
    else match ResolvePath(fs, cwd, parent, true)
      case Err(e) => (fs, Err(e))
      case Ok(r) =>
        var (u, o) := CreateIn(r.backend, Comps(r.rel), leaf, x, NodeOf(e));
        (Replaced(fs, r.mp, u), o)
  }

  /** `delete` */
  function DeleteAt<N(==)>(fs: Fs<N>, cwd: string, path: string): (Fs<N>, Result<()>) {
    match ResolvePath(fs, cwd, path, false)
    case Err(e) => (fs, Err(e))
    case Ok(r) =>
      var full := ToAbsolute(r.mp, r.rel);
      if IsMountPoint(fs, full) || HasMountWithin(fs, full) then (fs, Err(FileBusy))
      else
        var (parent, leaf) := SplitParent(r.rel);
        var (u, o) := DeleteIn(r.backend, Comps(parent), leaf);
        (Replaced(fs, r.mp, u), o)
  }

  /** `rename`. Each mount has a backend of its own, so two paths share a backend exactly when
      they share a mount point. */
  function RenameAt<N(==)>(fs: Fs<N>, cwd: string, from: string, to: string): (Fs<N>, RenameOutcome) {
    var (toParent, toLeaf) := SplitParent(MakeAbsolute(cwd, to));
    if toLeaf == "" then (fs, Refused(InvalidArgument))
    else match ResolvePath(fs, cwd, from, false)
      case Err(e) => (fs, Refused(e))
      case Ok(rf) => match ResolvePath(fs, cwd, toParent, true)
        case Err(e) => (fs, Refused(e))
        case Ok(rt) => RenameResolved(fs, rf, rt, toLeaf)
  }

  function RenameResolved<N(==)>(fs: Fs<N>, rf: Resolved<N>, rt: Resolved<N>, toLeaf: string): (Fs<N>, RenameOutcome) {
    if IsMountPoint(fs, ToAbsolute(rf.mp, rf.rel)) then (fs, Refused(FileBusy))
    else if IsMountPoint(fs, ToAbsolute(rt.mp, JoinRel(rt.rel, toLeaf))) then (fs, Refused(FileBusy))
    else if rf.mp != rt.mp then (fs, Refused(Unsupported))
    else
      var (parent, leaf) := SplitParent(rf.rel);
      var (u, o) := RenameIn(rf.backend, Comps(parent), leaf, Comps(rt.rel), toLeaf);
      (Replaced(fs, rf.mp, u), o)
  }

  /** `open` */
  function OpenPath<N(==)>(fs: Fs<N>, cwd: string, path: string): (Fs<N>, Result<Handle<N>>) {
    match ResolvePath(fs, cwd, path, true)
    case Err(e) => (fs, Err(e))
    case Ok(r) =>
      var (u, o) := OpenAt(r.backend, Comps(r.rel));
      (Replaced(fs, r.mp, u), o)
  }

  // ----- Anchored mounts

  ghost predicate PointAt<B>(ms: Table<B>, j: nat, q: Path) {
    j < |ms| && Canonical(q) && ms[j].point == Render(q)
  }

  /** Entry `i`, at `m`, is the deepest mount strictly above `q`. */
  ghost predicate NearestAbove<B>(ms: Table<B>, q: Path, i: nat, m: Path) {
    PointAt(ms, i, m) && m < q && forall j: nat, r | PointAt(ms, j, r) && r < q :: r <= m
  }

  /** `cs` names a node with the directory bit, which is what mounting checks. */
  predicate DirAt<N(==)>(t: Tree<N>, cs: Path) {
    Get(t, cs).Ok? && Get(t, cs).value in t.store && t.store[Get(t, cs).value].mode & 2 != 0
  }

  ghost predicate AnchoredBy<N>(fs: Fs<N>, q: Path, i: nat, m: Path) {
    NearestAbove(fs, q, i, m) && DirAt(fs[i].backend, q[|m|..])
  }

  ghost predicate AnchoredAt<N>(fs: Fs<N>, q: Path) {
    exists i: nat, m :: AnchoredBy(fs, q, i, m)
  }

  /** Every mount point but "/" names a directory of the file system below it. */
  ghost predicate Anchored<N>(fs: Fs<N>) {
    forall j: nat, q :: PointAt(fs, j, q) && q != [] ==> AnchoredAt(fs, q)
  }

  ghost predicate Sound<N>(fs: Fs<N>) {
    FsOk(fs) && Anchored(fs)
  }

  lemma {:induction false} SamePoint<B>(ms: Table<B>, i: nat, j: nat)
    requires TableOk(ms) && i < |ms| && j < |ms|
    ensures ms[i].point == ms[j].point <==> i == j
  {
  }

  lemma {:induction false} IndexOfPoint<N>(fs: Fs<N>, i: nat)
    requires TableOk(fs) && i < |fs|
    ensures IndexOf(fs, fs[i].point) == i
  {
    IndexOfFinds(fs, i);
    SamePoint(fs, i, IndexOf(fs, fs[i].point));
  }

  lemma {:induction false} IndexOfFinds<N>(fs: Fs<N>, i: nat)
    requires i < |fs|
    ensures IndexOf(fs, fs[i].point) < |fs|
    decreases fs
  {
    if fs[0].point != fs[i].point {
      assert fs[1..][i - 1] == fs[i];
      IndexOfFinds(fs[1..], i - 1);
    }
  }

  /** `r` lies in entry `i`, mounted at `m`, under the components `rs`. */
  ghost predicate Located<N>(fs: Fs<N>, r: Resolved<N>, i: nat, m: Path, rs: Path) {
    && PlacedAt(fs, i, m, rs)
    && fs[i] == Mount(r.mp, r.backend) && IndexOf(fs, r.mp) == i
    && r.rel == Render(rs) && Comps(r.rel) == rs
    && ToAbsolute(r.mp, r.rel) == Render(m + rs)
    && Get(r.backend, rs).Ok? && Get(r.backend, rs).value in r.backend.store
    && r.attrs == AttrsOf(r.backend.store[Get(r.backend, rs).value])
  }

  /** Entry `i`, at `m`, is the deepest mount at or above `m + rs`. */
  ghost predicate PlacedAt<B>(ms: Table<B>, i: nat, m: Path, rs: Path) {
    && PointAt(ms, i, m) && Canonical(rs) && Canonical(m + rs)
    && (forall j: nat, q | PointAt(ms, j, q) && q <= m + rs :: q <= m)
  }

  lemma {:induction false} PlaceIsDeepest<B>(ms: Table<B>, cs: Path) returns (i: nat, m: Path, rs: Path)
    requires TableOk(ms) && ms != [] && Canonical(cs)
    ensures PlacedAt(ms, i, m, rs) && cs == m + rs && BestIdx(ms, Render(cs)) == Some(i)
    ensures RelOf(ms[i].point, Render(cs)) == Render(rs) && ToAbsolute(ms[i].point, Render(rs)) == Render(cs)
  {
    LookupIsDeepest(ms, cs);
    i := BestIdx(ms, Render(cs)).value;
    m :| DeepestPoint(ms, cs, i, m);
    rs := cs[|m|..];
    assert cs == m + rs;
    forall j: nat, q | PointAt(ms, j, q) && q <= cs ensures q <= m { }
  }

  lemma {:induction false} LocateFound<N>(fs: Fs<N>, follow: bool, r: Resolved<N>, cs: Path) returns (i: nat, m: Path, rs: Path)
    requires FsOk(fs) && FoundAt(fs, follow, r, cs)
    ensures Located(fs, r, i, m, rs) && cs == m + rs
  {
    i, m, rs := PlaceIsDeepest(fs, cs);
    CompsRender(rs);
    IndexOfPoint(fs, i);
    FoundCanBeOpened(fs[i].backend, r.rel, follow);
  }

  lemma {:induction false} Locate<N>(fs: Fs<N>, cwd: string, path: string, follow: bool) returns (i: nat, m: Path, rs: Path)
    requires FsOk(fs) && ResolvePath(fs, cwd, path, follow).Ok?
    ensures Located(fs, ResolvePath(fs, cwd, path, follow).value, i, m, rs)
  {
    ResolvedIsCanonical(fs, cwd, path, follow);
    var r := ResolvePath(fs, cwd, path, follow).value;
    var cs :| FoundAt(fs, follow, r, cs);
    i, m, rs := LocateFound(fs, follow, r, cs);
  }

  // ----- Replacing one tree

  /** No directory under a mount point is lost when `u` takes the place of entry `i`'s tree. */
  ghost predicate KeepsPoints<N>(fs: Fs<N>, i: nat, m: Path, u: Tree<N>) {
    PointAt(fs, i, m) &&
    forall j: nat, q | PointAt(fs, j, q) && m < q && DirAt(fs[i].backend, q[|m|..]) :: DirAt(u, q[|m|..])
  }

  lemma {:induction false} SamePoints<N>(fs: Fs<N>, i: nat, u: Tree<N>)
    requires i < |fs|
    ensures var gs := fs[i := Mount(fs[i].point, u)];
            && |gs| == |fs| && (forall j | 0 <= j < |fs| :: gs[j].point == fs[j].point)
            && (forall j: nat, q :: PointAt(gs, j, q) <==> PointAt(fs, j, q))
  {
  }

  lemma {:induction false} SameNearest<B>(ms: Table<B>, ns: Table<B>, q: Path, i: nat, m: Path)
    requires (forall j: nat, r :: PointAt(ms, j, r) <==> PointAt(ns, j, r)) && NearestAbove(ms, q, i, m)
    ensures NearestAbove(ns, q, i, m)
  {
  }

  lemma {:induction false} PointsDecideTable<B>(ms: Table<B>, ns: Table<B>)
    requires TableOk(ms) && |ns| == |ms| && forall j | 0 <= j < |ms| :: ns[j].point == ms[j].point
    ensures TableOk(ns)
  {
    if ms != [] {
      var w :| 0 <= w < |ms| && ms[w].point == "/";
      assert ns[w].point == "/";
    }
  }

  lemma {:induction false} ReplaceKeepsTable<N>(fs: Fs<N>, i: nat, u: Tree<N>)
    requires FsOk(fs) && i < |fs|
    ensures FsOk(fs[i := Mount(fs[i].point, u)]) <==> WellFormed(u)
  {
    var gs := fs[i := Mount(fs[i].point, u)];
    PointsDecideTable(fs, gs);
    TreesOkIff(fs, i, u);
  }

  lemma {:induction false} TreesOkIff<N>(fs: Fs<N>, i: nat, u: Tree<N>)
    requires i < |fs| && forall k | 0 <= k < |fs| :: WellFormed(fs[k].backend)
    ensures var gs := fs[i := Mount(fs[i].point, u)];
            (forall k | 0 <= k < |gs| :: WellFormed(gs[k].backend)) <==> WellFormed(u)
  {
    assert fs[i := Mount(fs[i].point, u)][i].backend == u;
  }

  lemma {:induction false} ReplaceKeepsDir<N>(fs: Fs<N>, i: nat, m: Path, u: Tree<N>, j: nat, q: Path, k: nat, r: Path)
    requires KeepsPoints(fs, i, m, u) && AnchoredBy(fs, q, k, r) && PointAt(fs, j, q)
    ensures DirAt(fs[i := Mount(fs[i].point, u)][k].backend, q[|r|..])
  {
    if k == i { RenderInjective(r, m); }
  }

  lemma {:induction false} ReplaceKeepsAnchor<N>(fs: Fs<N>, i: nat, m: Path, u: Tree<N>, j: nat, q: Path)
    requires AnchoredAt(fs, q) && KeepsPoints(fs, i, m, u) && PointAt(fs, j, q)
    ensures AnchoredAt(fs[i := Mount(fs[i].point, u)], q)
  {
    var gs := fs[i := Mount(fs[i].point, u)];
    var k: nat, r :| AnchoredBy(fs, q, k, r);
    SamePoints(fs, i, u);
    ReplaceKeepsDir(fs, i, m, u, j, q, k, r);
    SameNearest(fs, gs, q, k, r);
    assert AnchoredBy(gs, q, k, r);
  }

  lemma {:induction false} ReplaceKeepsAnchors<N>(fs: Fs<N>, i: nat, m: Path, u: Tree<N>)
    requires Anchored(fs) && KeepsPoints(fs, i, m, u)
    ensures Anchored(fs[i := Mount(fs[i].point, u)])
  {
    var gs := fs[i := Mount(fs[i].point, u)];
    forall j: nat, q | PointAt(gs, j, q) && q != [] ensures AnchoredAt(gs, q) {
      assert PointAt(fs, j, q);
      ReplaceKeepsAnchor(fs, i, m, u, j, q);
    }
  }

  // ----- What each operation does to a directory

  lemma {:induction false} CreateKeepsDir<N>(t: Tree<N>, p: Path, leaf: string, x: N, node: Node<N>, cs: Path)
    requires Shaped(t) && x !in t.store && CreateIn(t, p, leaf, x, node).1.Ok? && DirAt(t, cs)
    ensures DirAt(CreateIn(t, p, leaf, x, node).0, cs)
  {
    if p + [leaf] <= cs { NothingThere(t, p, leaf, cs); }
    CreateElsewhere(t, p, leaf, x, node, cs);
  }

  lemma {:induction false} DeleteKeepsDir<N>(t: Tree<N>, p: Path, leaf: string, cs: Path)
    requires Shaped(t) && DeleteIn(t, p, leaf).1.Ok? && DirAt(t, cs) && !(p + [leaf] <= cs)
    ensures DirAt(DeleteIn(t, p, leaf).0, cs)
  {
    DeleteElsewhere(t, p, leaf, cs);
    NameUnder(t, p, leaf);
    if Get(t, cs) == Get(t, p + [leaf]) { UniquePath(t, cs, p + [leaf]); }
  }

  lemma {:induction false} DeleteKeepsNamed<N>(t: Tree<N>, rs: Path, cs: Path)
    requires Shaped(t) && rs != [] && DirAt(t, cs) && !(rs <= cs)
    ensures var (u, o) := DeleteIn(t, rs[..|rs| - 1], rs[|rs| - 1]); o.Ok? ==> DirAt(u, cs)
  {
    assert rs == rs[..|rs| - 1] + [rs[|rs| - 1]];
    if DeleteIn(t, rs[..|rs| - 1], rs[|rs| - 1]).1.Ok? { DeleteKeepsDir(t, rs[..|rs| - 1], rs[|rs| - 1], cs); }
  }

  /** Under the same name, or away from the old one. */
  lemma {:induction false} RenameKeepsDir<N>(t: Tree<N>, f: Path, a: string, d: Path, b: string, cs: Path)
    requires Shaped(t) && RenameIn(t, f, a, d, b).1.Renamed? && !IntoItself(f, a, d) && DirAt(t, cs)
    requires SameName(f, a, d, b) || !(f + [a] <= cs)
    ensures DirAt(RenameIn(t, f, a, d, b).0, cs)
  {
    if f + [a] <= cs {
      var rest := cs[|f| + 1..];
      assert cs == f + [a] + rest;
      RenameMovesOneSubtree(t, f, a, d, b, rest, cs);
    } else {
      if !SameName(f, a, d, b) { NewNameWasFree(t, f, a, d, b, cs); }
      MovedElsewhere(t, f, a, d, b, cs);
    }
  }

  /** Opening and closing change open counts only. */
  ghost predicate CountsAside<N>(t: Tree<N>, u: Tree<N>) {
    SameShape(t, u) && forall n | n in t.store :: u.store[n].mode == t.store[n].mode
  }

  lemma {:induction false} CountsKeepDir<N>(t: Tree<N>, u: Tree<N>, cs: Path)
    requires CountsAside(t, u) && DirAt(t, cs)
    ensures DirAt(u, cs)
  {
    ShapeDecidesWalks(t, u, t.root, cs);
  }

  // ----- Creating, deleting, opening and closing

  /** Entry `i` can hold `u` instead of its tree: nothing changes, or a well-formed tree keeps
      every hidden directory. */
  ghost predicate Fits<N>(fs: Fs<N>, i: nat, m: Path, u: Tree<N>) {
    PointAt(fs, i, m) && (u == fs[i].backend || (WellFormed(u) && KeepsPoints(fs, i, m, u)))
  }

  lemma {:induction false} FitKeepsSound<N>(fs: Fs<N>, i: nat, m: Path, u: Tree<N>)
    requires Sound(fs) && Fits(fs, i, m, u)
    ensures Sound(fs[i := Mount(fs[i].point, u)])
  {
    if u == fs[i].backend {
      assert fs[i := Mount(fs[i].point, u)] == fs;
    } else {
      ReplaceKeepsTable(fs, i, u);
      ReplaceKeepsAnchors(fs, i, m, u);
    }
  }

  lemma {:induction false} ReplaceKeepsSound<N>(fs: Fs<N>, r: Resolved<N>, i: nat, m: Path, rs: Path, u: Tree<N>)
    requires Sound(fs) && Located(fs, r, i, m, rs) && Fits(fs, i, m, u)
    ensures Sound(Replaced(fs, r.mp, u))
  {
    FitKeepsSound(fs, i, m, u);
  }

  lemma {:induction false} UnchangedTree<N>(fs: Fs<N>, r: Resolved<N>, i: nat, m: Path, rs: Path)
    requires Located(fs, r, i, m, rs)
    ensures Replaced(fs, r.mp, r.backend) == fs
  {
  }

  lemma {:induction false} CreateKeepsPoints<N>(fs: Fs<N>, i: nat, m: Path, p: Path, leaf: string, x: N, node: Node<N>)
    requires PointAt(fs, i, m) && Shaped(fs[i].backend) && x !in fs[i].backend.store
    requires CreateIn(fs[i].backend, p, leaf, x, node).1.Ok?
    ensures KeepsPoints(fs, i, m, CreateIn(fs[i].backend, p, leaf, x, node).0)
  {
    var t := fs[i].backend;
    var u := CreateIn(t, p, leaf, x, node).0;
    forall j: nat, q | PointAt(fs, j, q) && m < q && DirAt(t, q[|m|..]) ensures DirAt(u, q[|m|..]) {
      CreateKeepsDir(t, p, leaf, x, node, q[|m|..]);
    }
  }

  lemma {:induction false} CreateFits<N>(fs: Fs<N>, i: nat, m: Path, p: Path, leaf: string, x: N, node: Node<N>)
    requires PointAt(fs, i, m) && WellFormed(fs[i].backend) && x !in fs[i].backend.store && Childless(node)
    ensures Fits(fs, i, m, CreateIn(fs[i].backend, p, leaf, x, node).0)
  {
    if CreateIn(fs[i].backend, p, leaf, x, node).1.Ok? {
      CreateKeepsTree(fs[i].backend, p, leaf, x, node);
      CreateKeepsPoints(fs, i, m, p, leaf, x, node);
    }
  }

  lemma {:induction false} CreateKeepsSound<N>(fs: Fs<N>, cwd: string, path: string, x: N, e: NewEntry)
    requires Sound(fs) && forall i | 0 <= i < |fs| :: x !in fs[i].backend.store
    ensures Sound(CreateAt(fs, cwd, path, x, e).0)
  {
    var (parent, leaf) := SplitParent(MakeAbsolute(cwd, path));
    if leaf != "" && ResolvePath(fs, cwd, parent, true).Ok? {
      var r := ResolvePath(fs, cwd, parent, true).value;
      var i, m, rs := Locate(fs, cwd, parent, true);
      CreateFits(fs, i, m, rs, leaf, x, NodeOf(e));
      ReplaceKeepsSound(fs, r, i, m, rs, CreateIn(r.backend, rs, leaf, x, NodeOf(e)).0);
    }
  }

  lemma {:induction false} WithinIff<B>(ms: Table<B>, cs: Path)
    requires TableOk(ms) && Canonical(cs)
    ensures HasMountWithin(ms, Render(cs)) <==> exists j: nat, q :: PointAt(ms, j, q) && cs < q
  {
    forall j: nat, q | PointAt(ms, j, q) ensures cs < q <==> Inside(Render(cs), ms[j].point) {
      InsideIffExtends(cs, q);
    }
    if HasMountWithin(ms, Render(cs)) {
      var j :| 0 <= j < |ms| && Inside(Render(cs), ms[j].point);
      var q :| Canonical(q) && ms[j].point == Render(q);
      assert PointAt(ms, j, q);
    }
  }

  predicate Inside(dir: string, path: string) {
    path != dir && (if dir == "/" then "/" else dir + "/") <= path
  }

  /** Neither test of `delete` fires: no mount point lies at or below the path. */
  lemma {:induction false} NoPointWithin<B>(ms: Table<B>, cs: Path)
    requires TableOk(ms) && Canonical(cs) && !IsMountPoint(ms, Render(cs)) && !HasMountWithin(ms, Render(cs))
    ensures forall j: nat, q :: PointAt(ms, j, q) ==> !(cs <= q)
  {
    WithinIff(ms, cs);
    assert forall j: nat, q | PointAt(ms, j, q) :: q != cs && !(cs < q);
  }

  /** A path that is no mount point has a last component below its mount. */
  lemma {:induction false} TargetHasName<N>(fs: Fs<N>, r: Resolved<N>, i: nat, m: Path, rs: Path)
    requires Located(fs, r, i, m, rs) && !IsMountPoint(fs, ToAbsolute(r.mp, r.rel))
    ensures rs != [] && SplitParent(r.rel) == (Render(rs[..|rs| - 1]), rs[|rs| - 1])
    ensures Comps(SplitParent(r.rel).0) == rs[..|rs| - 1]
  {
    assert m + [] == m;
    SplitParentRender(rs);
    CompsRender(rs[..|rs| - 1]);
  }

  lemma {:induction false} SplitsBeyond(m: Path, rs: Path, q: Path)
    requires m <= q
    ensures m + rs <= q <==> rs <= q[|m|..]
  {
    assert q == m + q[|m|..];
    if m + rs <= q { assert q[|m|..][..|rs|] == q[|m|..|m| + |rs|] == (m + rs)[|m|..] == rs; }
    if rs <= q[|m|..] { assert (m + rs) == q[..|m| + |rs|]; }
  }

  lemma {:induction false} DeleteKeepsPoints<N>(fs: Fs<N>, i: nat, m: Path, rs: Path)
    requires PointAt(fs, i, m) && Shaped(fs[i].backend) && rs != []
    requires forall j: nat, q :: PointAt(fs, j, q) ==> !(m + rs <= q)
    requires DeleteIn(fs[i].backend, rs[..|rs| - 1], rs[|rs| - 1]).1.Ok?
    ensures KeepsPoints(fs, i, m, DeleteIn(fs[i].backend, rs[..|rs| - 1], rs[|rs| - 1]).0)
  {
    var t := fs[i].backend;
    var u := DeleteIn(t, rs[..|rs| - 1], rs[|rs| - 1]).0;
    forall j: nat, q | PointAt(fs, j, q) && m < q && DirAt(t, q[|m|..]) ensures DirAt(u, q[|m|..]) {
      SplitsBeyond(m, rs, q);
      DeleteKeepsNamed(t, rs, q[|m|..]);
    }
  }

  lemma {:induction false} DeleteFits<N>(fs: Fs<N>, i: nat, m: Path, rs: Path)
    requires PointAt(fs, i, m) && WellFormed(fs[i].backend) && rs != []
    requires forall j: nat, q :: PointAt(fs, j, q) ==> !(m + rs <= q)
    ensures Fits(fs, i, m, DeleteIn(fs[i].backend, rs[..|rs| - 1], rs[|rs| - 1]).0)
  {
    if DeleteIn(fs[i].backend, rs[..|rs| - 1], rs[|rs| - 1]).1.Ok? {
      DeleteKeepsTree(fs[i].backend, rs[..|rs| - 1], rs[|rs| - 1]);
      DeleteKeepsPoints(fs, i, m, rs);
    }
  }

  /** What `delete` puts in the place of its tree. */
  lemma {:induction false} DeletedFits<N>(fs: Fs<N>, r: Resolved<N>, i: nat, m: Path, rs: Path)
    requires FsOk(fs) && Located(fs, r, i, m, rs)
    requires !IsMountPoint(fs, ToAbsolute(r.mp, r.rel)) && !HasMountWithin(fs, ToAbsolute(r.mp, r.rel))
    ensures var (parent, leaf) := SplitParent(r.rel); Fits(fs, i, m, DeleteIn(r.backend, Comps(parent), leaf).0)
  {
    NoPointWithin(fs, m + rs);
    TargetHasName(fs, r, i, m, rs);
    DeleteFits(fs, i, m, rs);
  }

  lemma {:induction false} DeleteKeepsSound<N>(fs: Fs<N>, cwd: string, path: string)
    requires Sound(fs)
    ensures Sound(DeleteAt(fs, cwd, path).0)
  {
    if ResolvePath(fs, cwd, path, false).Ok? {
      var r := ResolvePath(fs, cwd, path, false).value;
      var i, m, rs := Locate(fs, cwd, path, false);
      if !IsMountPoint(fs, ToAbsolute(r.mp, r.rel)) && !HasMountWithin(fs, ToAbsolute(r.mp, r.rel)) {
        var (parent, leaf) := SplitParent(r.rel);
        DeletedFits(fs, r, i, m, rs);
        ReplaceKeepsSound(fs, r, i, m, rs, DeleteIn(r.backend, Comps(parent), leaf).0);
      }
    }
  }

  lemma {:induction false} CountsFit<N>(fs: Fs<N>, i: nat, m: Path, u: Tree<N>)
    requires PointAt(fs, i, m) && WellFormed(fs[i].backend) && CountsAside(fs[i].backend, u)
    ensures Fits(fs, i, m, u)
  {
    ShapeDecidesTree(fs[i].backend, u);
    forall j: nat, q | PointAt(fs, j, q) && m < q && DirAt(fs[i].backend, q[|m|..]) ensures DirAt(u, q[|m|..]) {
      CountsKeepDir(fs[i].backend, u, q[|m|..]);
    }
  }

  lemma {:induction false} OpenKeepsSound<N>(fs: Fs<N>, cwd: string, path: string)
    requires Sound(fs)
    ensures Sound(OpenPath(fs, cwd, path).0)
  {
    if ResolvePath(fs, cwd, path, true).Ok? {
      var r := ResolvePath(fs, cwd, path, true).value;
      var i, m, rs := Locate(fs, cwd, path, true);
      OpenChangesCounts(r.backend, Comps(r.rel));
      CountsFit(fs, i, m, OpenAt(r.backend, Comps(r.rel)).0);
      ReplaceKeepsSound(fs, r, i, m, rs, OpenAt(r.backend, Comps(r.rel)).0);
    }
  }

  lemma {:induction false} OpenChangesCounts<N>(t: Tree<N>, cs: Path)
    ensures CountsAside(t, OpenAt(t, cs).0)
  {
  }

  lemma {:induction false} CloseKeepsSound<N>(fs: Fs<N>, i: nat, h: Handle<N>)
    requires Sound(fs)
    ensures i < |fs| ==> Sound(fs[i := Mount(fs[i].point, CloseHandle(fs[i].backend, h))])
  {
    if i < |fs| {
      var m :| Canonical(m) && fs[i].point == Render(m);
      CountsFit(fs, i, m, CloseHandle(fs[i].backend, h));
      FitKeepsSound(fs, i, m, CloseHandle(fs[i].backend, h));
    }
  }

  // ----- Renaming

  /** The rename pulls a directory out from under a mount point, or moves it below itself. */
  predicate Uproots<N(==)>(fs: Fs<N>, rf: Resolved<N>, rt: Resolved<N>, toLeaf: string) {
    var source := ToAbsolute(rf.mp, rf.rel);
    || Inside(source, ToAbsolute(rt.mp, rt.rel))
    || (HasMountWithin(fs, source) && ToAbsolute(rt.mp, JoinRel(rt.rel, toLeaf)) != source)
  }

  predicate Disturbs<N(==)>(fs: Fs<N>, cwd: string, from: string, to: string) {
    var (toParent, toLeaf) := SplitParent(MakeAbsolute(cwd, to));
    var rf, rt := ResolvePath(fs, cwd, from, false), ResolvePath(fs, cwd, toParent, true);
    RenameAt(fs, cwd, from, to).1.Renamed? && rf.Ok? && rt.Ok? && Uproots(fs, rf.value, rt.value, toLeaf)
  }

  /** The shallowest mount point below `cs`. */
  lemma {:induction false} Shallowest<B>(ms: Table<B>, cs: Path, j: nat, q: Path) returns (k: nat, r: Path)
    requires PointAt(ms, j, q) && cs < q
    ensures PointAt(ms, k, r) && cs < r && forall l: nat, p | PointAt(ms, l, p) && cs < p :: !(p < r)
    decreases |q|
  {
    if l: nat, p :| PointAt(ms, l, p) && cs < p && p < q {
      k, r := Shallowest(ms, cs, l, p);
    } else {
      k, r := j, q;
    }
  }

  lemma {:induction false} Comparable(a: Path, b: Path, q: Path)
    requires a <= q && b <= q
    ensures a <= b || b < a
  {
    assert a == q[..|a|] && b == q[..|b|];
    if |b| < |a| { assert b == a[..|b|]; } else { assert a == b[..|a|]; }
  }

  /** That mount point is anchored in the mount that holds `cs`. */
  lemma {:induction false} AnchorIsHere<B>(ms: Table<B>, i: nat, m: Path, rs: Path, q: Path, k: nat, r: Path)
    requires TableOk(ms) && PlacedAt(ms, i, m, rs) && !IsMountPoint(ms, Render(m + rs))
    requires m + rs < q && forall l: nat, p | PointAt(ms, l, p) && m + rs < p :: !(p < q)
    requires NearestAbove(ms, q, k, r)
    ensures k == i && r == m
  {
    assert m < q;
    assert m <= r;
    Comparable(r, m + rs, q);
    assert r <= m;
    assert r == r[..|m|] == m;
    SamePoint(ms, i, k);
  }

  /** Nothing is left at or below `rs`. */
  ghost predicate Gone<N>(u: Tree<N>, rs: Path) {
    forall rest :: Get(u, rs + rest).Err?
  }

  lemma {:induction false} MovedAway<N>(fs: Fs<N>, i: nat, m: Path, rs: Path, u: Tree<N>)
    requires TableOk(fs) && PlacedAt(fs, i, m, rs) && !IsMountPoint(fs, Render(m + rs)) && HasMountWithin(fs, Render(m + rs))
    requires Gone(u, rs)
    ensures !Anchored(fs[i := Mount(fs[i].point, u)])
  {
    var gs := fs[i := Mount(fs[i].point, u)];
    WithinIff(fs, m + rs);
    var j: nat, q :| PointAt(fs, j, q) && m + rs < q;
    j, q := Shallowest(fs, m + rs, j, q);
    SamePoints(fs, i, u);
    forall k: nat, r ensures !AnchoredBy(gs, q, k, r) {
      if AnchoredBy(gs, q, k, r) {
        SameNearest(gs, fs, q, k, r);
        AnchorIsHere(fs, i, m, rs, q, k, r);
        PassesThrough(u, m, rs, q);
      }
    }
    assert PointAt(gs, j, q) && !AnchoredAt(gs, q);
  }

  lemma {:induction false} PassesThrough<N>(u: Tree<N>, m: Path, rs: Path, q: Path)
    requires m + rs <= q && Gone(u, rs)
    ensures m <= q && !DirAt(u, q[|m|..])
  {
    SplitsBeyond(m, rs, q);
    assert q[|m|..] == rs + q[|m|..][|rs|..];
  }

  lemma {:induction false} NamesAgree(m: Path, rs: Path, d: Path, b: string)
    requires Canonical(m + rs) && rs != [] && Canonical(m + d) && ValidName(b)
    ensures var f, a := rs[..|rs| - 1], rs[|rs| - 1];
            ToAbsolute(Render(m), JoinRel(Render(d), b)) == Render(m + rs) <==> SameName(f, a, d, b)
  {
    var f, a, to := rs[..|rs| - 1], rs[|rs| - 1], d + [b];
    assert rs == f + [a];
    assert d == (m + d)[|m|..] && to == (m + to)[|m|..] && m == (m + to)[..|m|];
    assert Canonical(m) && Canonical(m + to);
    JoinRelRender(d, b);
    RelOfRender(m, m + to);
    if Render(m + to) == Render(m + rs) {
      RenderInjective(m + to, m + rs);
      assert to == (m + rs)[|m|..] == rs;
    }
  }

  lemma {:induction false} RenamedIn<N>(fs: Fs<N>, rf: Resolved<N>, i: nat, m: Path, rs: Path, rt: Resolved<N>, k: nat, n: Path, d: Path, b: string)
    requires Located(fs, rf, i, m, rs) && Located(fs, rt, k, n, d) && RenameResolved(fs, rf, rt, b).1.Renamed?
    ensures k == i && n == m && rs != [] && rt.backend == rf.backend && !IsMountPoint(fs, Render(m + rs))
    ensures RenameIn(rf.backend, rs[..|rs| - 1], rs[|rs| - 1], d, b).1.Renamed?
    ensures RenameResolved(fs, rf, rt, b).0 ==
              fs[i := Mount(fs[i].point, RenameIn(rf.backend, rs[..|rs| - 1], rs[|rs| - 1], d, b).0)]
  {
    TargetHasName(fs, rf, i, m, rs);
    RenderInjective(n, m);
  }

  lemma {:induction false} MoveLosesAnchor<N>(fs: Fs<N>, i: nat, m: Path, rs: Path, d: Path, b: string)
    requires FsOk(fs) && PlacedAt(fs, i, m, rs) && rs != [] && !IsMountPoint(fs, Render(m + rs)) && HasMountWithin(fs, Render(m + rs))
    requires RenameIn(fs[i].backend, rs[..|rs| - 1], rs[|rs| - 1], d, b).1.Renamed? && !SameName(rs[..|rs| - 1], rs[|rs| - 1], d, b)
    ensures !Anchored(fs[i := Mount(fs[i].point, RenameIn(fs[i].backend, rs[..|rs| - 1], rs[|rs| - 1], d, b).0)])
  {
    OldNameAllGone(fs[i].backend, rs, d, b);
    MovedAway(fs, i, m, rs, RenameIn(fs[i].backend, rs[..|rs| - 1], rs[|rs| - 1], d, b).0);
  }

  lemma {:induction false} MoveKeepsAnchorsIff<N>(fs: Fs<N>, i: nat, m: Path, rs: Path, d: Path, b: string)
    requires FsOk(fs) && Anchored(fs) && PlacedAt(fs, i, m, rs) && rs != [] && !IsMountPoint(fs, Render(m + rs)) && !(rs < d)
    requires RenameIn(fs[i].backend, rs[..|rs| - 1], rs[|rs| - 1], d, b).1.Renamed?
    ensures Anchored(fs[i := Mount(fs[i].point, RenameIn(fs[i].backend, rs[..|rs| - 1], rs[|rs| - 1], d, b).0)]) <==>
              SameName(rs[..|rs| - 1], rs[|rs| - 1], d, b) || !HasMountWithin(fs, Render(m + rs))
  {
    if SameName(rs[..|rs| - 1], rs[|rs| - 1], d, b) || !HasMountWithin(fs, Render(m + rs)) {
      RenameKeepsPoints(fs, i, m, rs, d, b);
      ReplaceKeepsAnchors(fs, i, m, RenameIn(fs[i].backend, rs[..|rs| - 1], rs[|rs| - 1], d, b).0);
    } else {
      MoveLosesAnchor(fs, i, m, rs, d, b);
    }
  }

  lemma {:induction false} MoveKeepsTreesIff<N>(fs: Fs<N>, i: nat, rs: Path, d: Path, b: string)
    requires FsOk(fs) && i < |fs| && rs != [] && RenameIn(fs[i].backend, rs[..|rs| - 1], rs[|rs| - 1], d, b).1.Renamed?
    ensures FsOk(fs[i := Mount(fs[i].point, RenameIn(fs[i].backend, rs[..|rs| - 1], rs[|rs| - 1], d, b).0)]) <==> !(rs < d)
  {
    var f, a := rs[..|rs| - 1], rs[|rs| - 1];
    assert rs == f + [a];
    RenameKeepsTreeIff(fs[i].backend, f, a, d, b);
    ReplaceKeepsTable(fs, i, RenameIn(fs[i].backend, f, a, d, b).0);
  }

  /** A rename inside entry `i` leaves every mount point on a directory, and every tree a tree,
      exactly when it does not move below itself and no mount point lies below the old name. */
  lemma {:induction false} MoveSoundIff<N>(fs: Fs<N>, i: nat, m: Path, rs: Path, d: Path, b: string)
    requires Sound(fs) && PlacedAt(fs, i, m, rs) && rs != [] && !IsMountPoint(fs, Render(m + rs))
    requires RenameIn(fs[i].backend, rs[..|rs| - 1], rs[|rs| - 1], d, b).1.Renamed?
    ensures Sound(fs[i := Mount(fs[i].point, RenameIn(fs[i].backend, rs[..|rs| - 1], rs[|rs| - 1], d, b).0)]) <==>
              && !(rs < d)
              && (SameName(rs[..|rs| - 1], rs[|rs| - 1], d, b) || !HasMountWithin(fs, Render(m + rs)))
  {
    MoveKeepsTreesIff(fs, i, rs, d, b);
    if !(rs < d) { MoveKeepsAnchorsIff(fs, i, m, rs, d, b); }
  }

  lemma {:induction false} RenamedSoundIff<N>(fs: Fs<N>, rf: Resolved<N>, i: nat, m: Path, rs: Path, rt: Resolved<N>, k: nat, n: Path, d: Path, b: string)
    requires Sound(fs) && Located(fs, rf, i, m, rs) && Located(fs, rt, k, n, d) && ValidName(b)
    requires RenameResolved(fs, rf, rt, b).1.Renamed?
    ensures Sound(RenameResolved(fs, rf, rt, b).0) <==> !Uproots(fs, rf, rt, b)
  {
    RenamedIn(fs, rf, i, m, rs, rt, k, n, d, b);
    NamesAgree(m, rs, d, b);
    BelowIff(m, rs, d);
    MoveSoundIff(fs, i, m, rs, d, b);
  }

  lemma {:induction false} BelowIff(m: Path, rs: Path, d: Path)
    requires Canonical(m + rs) && Canonical(m + d)
    ensures Inside(Render(m + rs), Render(m + d)) <==> rs < d
  {
    InsideIffExtends(m + rs, m + d);
    SplitsBeyond(m, rs, m + d);
    assert (m + d)[|m|..] == d;
  }

  lemma {:induction false} OldNameAllGone<N>(t: Tree<N>, rs: Path, d: Path, b: string)
    requires Shaped(t) && rs != [] && RenameIn(t, rs[..|rs| - 1], rs[|rs| - 1], d, b).1.Renamed?
    requires !SameName(rs[..|rs| - 1], rs[|rs| - 1], d, b)
    ensures Gone(RenameIn(t, rs[..|rs| - 1], rs[|rs| - 1], d, b).0, rs)
  {
    forall rest ensures Get(RenameIn(t, rs[..|rs| - 1], rs[|rs| - 1], d, b).0, rs + rest).Err? {
      assert rs[..|rs| - 1] + [rs[|rs| - 1]] + rest == rs + rest;
      OldNameGone(t, rs[..|rs| - 1], rs[|rs| - 1], d, b, rest);
    }
  }

  lemma {:induction false} RenameKeepsPoints<N>(fs: Fs<N>, i: nat, m: Path, rs: Path, d: Path, b: string)
    requires FsOk(fs) && PointAt(fs, i, m) && Canonical(m + rs) && rs != [] && !(rs < d) && !IsMountPoint(fs, Render(m + rs))
    requires RenameIn(fs[i].backend, rs[..|rs| - 1], rs[|rs| - 1], d, b).1.Renamed?
    requires SameName(rs[..|rs| - 1], rs[|rs| - 1], d, b) || !HasMountWithin(fs, Render(m + rs))
    ensures KeepsPoints(fs, i, m, RenameIn(fs[i].backend, rs[..|rs| - 1], rs[|rs| - 1], d, b).0)
  {
    var t, f, a := fs[i].backend, rs[..|rs| - 1], rs[|rs| - 1];
    var u := RenameIn(t, f, a, d, b).0;
    assert rs == f + [a];
    RenameOkIff(t, f, a, d, b);
    if !HasMountWithin(fs, Render(m + rs)) { NoPointWithin(fs, m + rs); }
    forall j: nat, q | PointAt(fs, j, q) && m < q && DirAt(t, q[|m|..]) ensures DirAt(u, q[|m|..]) {
      SplitsBeyond(m, rs, q);
      RenameKeepsDir(t, f, a, d, b, q[|m|..]);
    }
  }

  /** `rename` on every input: all stays sound exactly when the call does not both succeed and
      uproot something. The code refuses a source that is a mount point, not one that contains
      a mount point. */
  lemma {:induction false} RenameSoundIff<N>(fs: Fs<N>, cwd: string, from: string, to: string)
    requires Sound(fs)
    ensures Sound(RenameAt(fs, cwd, from, to).0) <==> !Disturbs(fs, cwd, from, to)
  {
    var (toParent, toLeaf) := SplitParent(MakeAbsolute(cwd, to));
    if toLeaf != "" && ResolvePath(fs, cwd, from, false).Ok? && ResolvePath(fs, cwd, toParent, true).Ok? {
      var i, m, rs := Locate(fs, cwd, from, false);
      var k, n, d := Locate(fs, cwd, toParent, true);
      LeafIsValid(cwd, to);
      var rf, rt := ResolvePath(fs, cwd, from, false).value, ResolvePath(fs, cwd, toParent, true).value;
      if RenameResolved(fs, rf, rt, toLeaf).1.Renamed? {
        RenamedSoundIff(fs, rf, i, m, rs, rt, k, n, d, toLeaf);
      } else {
        NotRenamed(fs, rf, i, m, rs, rt, toLeaf);
      }
    }
  }

  lemma {:induction false} NotRenamed<N>(fs: Fs<N>, rf: Resolved<N>, i: nat, m: Path, rs: Path, rt: Resolved<N>, b: string)
    requires Located(fs, rf, i, m, rs) && !RenameResolved(fs, rf, rt, b).1.Renamed?
    ensures RenameResolved(fs, rf, rt, b).0 == fs
  {
    UnchangedTree(fs, rf, i, m, rs);
  }

  lemma {:induction false} LeafIsValid(cwd: string, path: string)
    requires SplitParent(MakeAbsolute(cwd, path)).1 != ""
    ensures ValidName(SplitParent(MakeAbsolute(cwd, path)).1)
  {
    NormalizeIsNormal(path);
    NormalizeIsNormal(cwd + "/" + path);
    JoinUndoesSplit(MakeAbsolute(cwd, path));
  }
}
