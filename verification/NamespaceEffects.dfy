/** What file operations by path do, as later lookups see it (kernel/src/fs/mod.rs,
    kernel/src/fs/mount.rs). */
module NamespaceEffects {
  import opened Basics
  import opened Paths
  import opened VfsTree
  import opened VfsHandles
  import opened VfsProbe
  import opened Mounts
  import opened Following
  import opened Resolve
  import opened Namespace
  import opened NamespaceRuns

  /** A lookup of the path that does not follow a final link finds this node. */
  ghost predicate Finds<N>(fs: Fs<N>, path: string, n: Node<N>) {
    var h := HopFrom(fs, path, false);
    h.Stop? && h.result.Ok? && Shows(h.result.value, n)
  }

  lemma {:induction false} FoundHere<N>(fs: Fs<N>, i: nat, m: Path, rs: Path, n: N)
    requires FsOk(fs) && PlacedAt(fs, i, m, rs) && Get(fs[i].backend, rs) == Ok(n)
    ensures n in fs[i].backend.store && Finds(fs, Render(m + rs), fs[i].backend.store[n])
  {
    var t := fs[i].backend;
    PlaceIsUnique(fs, i, m, rs);
    HopInMeaning(fs[i], m, rs, false);
    assert rs[..|rs|] == rs;
    forall k: nat ensures !LinkAt(t, rs, k, false) {
      if k + 1 < |rs| { PassedAreDirs(t, rs, |rs|, k + 1); }
    }
  }

  /** Another tree in entry `i` moves no mount point. */
  lemma {:induction false} StillPlaced<N>(fs: Fs<N>, i: nat, m: Path, rs: Path, u: Tree<N>)
    requires PlacedAt(fs, i, m, rs)
    ensures PlacedAt(fs[i := Mount(fs[i].point, u)], i, m, rs)
  {
    SamePoints(fs, i, u);
  }

  lemma {:induction false} FoundAfter<N>(fs: Fs<N>, i: nat, m: Path, rs: Path, u: Tree<N>, n: N)
    requires FsOk(fs) && PlacedAt(fs, i, m, rs) && WellFormed(u) && Get(u, rs) == Ok(n)
    ensures n in u.store && Finds(fs[i := Mount(fs[i].point, u)], Render(m + rs), u.store[n])
  {
    StillPlaced(fs, i, m, rs, u);
    ReplaceKeepsTable(fs, i, u);
    FoundHere(fs[i := Mount(fs[i].point, u)], i, m, rs, n);
  }

  // ----- Creating

  /** No mount point sits on a name that is free in the file system below. */
  lemma {:induction false} FreeNameIsPlaced<N>(fs: Fs<N>, i: nat, m: Path, rs: Path, leaf: string)
    requires Sound(fs) && PlacedAt(fs, i, m, rs) && ValidName(leaf) && Get(fs[i].backend, rs + [leaf]).Err?
    ensures PlacedAt(fs, i, m, rs + [leaf])
  {
    forall j: nat, p | PointAt(fs, j, p) && p <= m + (rs + [leaf]) ensures p <= m {
      PointAbove(fs, i, m, rs, leaf, j, p);
    }
    CanonicalAppend(m + rs, leaf);
    CanonicalAppend(rs, leaf);
    assert m + rs + [leaf] == m + (rs + [leaf]);
  }

  lemma {:induction false} CanonicalAppend(cs: Path, n: string)
    requires Canonical(cs) && ValidName(n)
    ensures Canonical(cs + [n])
  {
  }

  lemma {:induction false} PointAbove<N>(fs: Fs<N>, i: nat, m: Path, rs: Path, leaf: string, j: nat, p: Path)
    requires Sound(fs) && PlacedAt(fs, i, m, rs) && Get(fs[i].backend, rs + [leaf]).Err?
    requires PointAt(fs, j, p) && p <= m + (rs + [leaf])
    ensures p <= m
  {
    var q := m + (rs + [leaf]);
    assert q == m + rs + [leaf];
    if p == q {
      assert AnchoredAt(fs, q);
      NotAnchored(fs, i, m, rs, leaf);
    } else {
      assert p <= m + rs;
    }
  }

  lemma {:induction false} NotAnchored<N>(fs: Fs<N>, i: nat, m: Path, rs: Path, leaf: string)
    requires TableOk(fs) && PlacedAt(fs, i, m, rs) && Get(fs[i].backend, rs + [leaf]).Err?
    ensures !AnchoredAt(fs, m + (rs + [leaf]))
  {
    var q := m + (rs + [leaf]);
    forall k: nat, r ensures !AnchoredBy(fs, q, k, r) {
      if NearestAbove(fs, q, k, r) {
        assert r <= m + rs && m < q;
        assert r <= m && m <= r;
        assert r == r[..|m|] == m;
        SamePoint(fs, i, k);
        assert q[|m|..] == rs + [leaf];
      }
    }
  }

  /** What a new entry looks like. */
  predicate LooksNew<N(==)>(e: NewEntry, n: Node<N>) {
    && n.openCount == 0
    && match e
       case NewFile(mode) => n.mode == mode | 1 && n.kind == File([])
       case NewDir(mode) => n.mode == mode | 2 && n.kind == Dir(map[])
       case NewLink(target) => n.mode == 4 && n.kind == Symlink(target)
  }

  /** A creation by path: afterwards the name is found in the resolved directory, with the
      attributes asked for. */
  lemma {:induction false} CreateShows<N>(fs: Fs<N>, cwd: string, path: string, x: N, e: NewEntry) returns (n: Node<N>)
    requires Sound(fs) && (forall i | 0 <= i < |fs| :: x !in fs[i].backend.store) && CreateAt(fs, cwd, path, x, e).1.Ok?
    ensures var (parent, leaf) := SplitParent(MakeAbsolute(cwd, path));
            var r := ResolvePath(fs, cwd, parent, true);
            && r.Ok? && LooksNew(e, n)
            && Finds(CreateAt(fs, cwd, path, x, e).0, JoinRel(ToAbsolute(r.value.mp, r.value.rel), leaf), n)
  {
    var (parent, leaf) := SplitParent(MakeAbsolute(cwd, path));
    var r := ResolvePath(fs, cwd, parent, true).value;
    var i, m, rs := Locate(fs, cwd, parent, true);
    LeafIsValid(cwd, path);
    n := NodeOf(e);
    LooksAsAsked<N>(e);
    CreatedShows(fs, r, i, m, rs, leaf, x, n);
    JoinRelRender(m + rs, leaf);
  }

  lemma {:induction false} LooksAsAsked<N>(e: NewEntry)
    ensures LooksNew(e, NodeOf<N>(e)) && Childless(NodeOf<N>(e))
  {
  }

  lemma {:induction false} CreatedShows<N>(fs: Fs<N>, r: Resolved<N>, i: nat, m: Path, rs: Path, leaf: string, x: N, n: Node<N>)
    requires Sound(fs) && Located(fs, r, i, m, rs) && ValidName(leaf) && x !in r.backend.store && Childless(n)
    requires CreateIn(r.backend, rs, leaf, x, n).1.Ok?
    ensures Finds(Replaced(fs, r.mp, CreateIn(r.backend, rs, leaf, x, n).0), Render(m + rs + [leaf]), n)
  {
    CreatedHere(r.backend, rs, leaf, x, n);
    FreeNameIsPlaced(fs, i, m, rs, leaf);
    FoundAfter(fs, i, m, rs + [leaf], CreateIn(r.backend, rs, leaf, x, n).0, x);
    assert m + (rs + [leaf]) == m + rs + [leaf];
  }

  lemma {:induction false} CreatedHere<N>(t: Tree<N>, rs: Path, leaf: string, x: N, n: Node<N>)
    requires WellFormed(t) && x !in t.store && Childless(n) && CreateIn(t, rs, leaf, x, n).1.Ok?
    ensures Get(t, rs + [leaf]).Err?
    ensures var u := CreateIn(t, rs, leaf, x, n).0;
            WellFormed(u) && Get(u, rs + [leaf]) == Ok(x) && x in u.store && u.store[x] == n
  {
    CreateOkIff(t, rs, leaf, x, n);
    CreateKeepsTree(t, rs, leaf, x, n);
    CreateAddsOneName(t, rs, leaf, x, n, []);
  }

  // ----- Deleting

  lemma {:induction false} MissingAfter<N>(fs: Fs<N>, i: nat, m: Path, f: Path, a: string, u: Tree<N>, follow: bool)
    requires FsOk(fs) && PlacedAt(fs, i, m, f + [a]) && WellFormed(u) && Get(u, f).Ok? && Get(u, f + [a]) == Err(NotFound)
    ensures HopFrom(fs[i := Mount(fs[i].point, u)], Render(m + (f + [a])), follow) == Stop(Err(NotFound))
  {
    ReplaceKeepsTable(fs, i, u);
    MissingName(u, f, a, follow);
    MissingInEntry(fs, i, m, f + [a], u, follow);
  }

  lemma {:induction false} NameDeleted<N>(t: Tree<N>, rs: Path)
    requires WellFormed(t) && rs != [] && DeleteIn(t, rs[..|rs| - 1], rs[|rs| - 1]).1.Ok?
    ensures var u := DeleteIn(t, rs[..|rs| - 1], rs[|rs| - 1]).0;
            WellFormed(u) && Get(u, rs[..|rs| - 1]).Ok? && Get(u, rs) == Err(NotFound)
  {
    var f, a := rs[..|rs| - 1], rs[|rs| - 1];
    assert rs == f + [a];
    DeleteKeepsTree(t, f, a);
    DeleteRemovesOneName(t, f, a, rs);
    DeleteRemovesOneName(t, f, a, f);
  }

  lemma {:induction false} DeletedShows<N>(fs: Fs<N>, i: nat, m: Path, rs: Path, follow: bool)
    requires FsOk(fs) && PlacedAt(fs, i, m, rs) && rs != [] && DeleteIn(fs[i].backend, rs[..|rs| - 1], rs[|rs| - 1]).1.Ok?
    ensures HopFrom(fs[i := Mount(fs[i].point, DeleteIn(fs[i].backend, rs[..|rs| - 1], rs[|rs| - 1]).0)], Render(m + rs), follow)
            == Stop(Err(NotFound))
  {
    NameDeleted(fs[i].backend, rs);
    assert rs == rs[..|rs| - 1] + [rs[|rs| - 1]];
    MissingAfter(fs, i, m, rs[..|rs| - 1], rs[|rs| - 1], DeleteIn(fs[i].backend, rs[..|rs| - 1], rs[|rs| - 1]).0, follow);
  }

  /** A deletion by path: afterwards the canonical name is not found. */
  lemma {:induction false} DeleteShows<N>(fs: Fs<N>, cwd: string, path: string, follow: bool)
    requires FsOk(fs) && DeleteAt(fs, cwd, path).1.Ok?
    ensures var r := ResolvePath(fs, cwd, path, false);
            r.Ok? && HopFrom(DeleteAt(fs, cwd, path).0, ToAbsolute(r.value.mp, r.value.rel), follow) == Stop(Err(NotFound))
  {
    var r := ResolvePath(fs, cwd, path, false).value;
    var i, m, rs := Locate(fs, cwd, path, false);
    TargetHasName(fs, r, i, m, rs);
    DeletedShows(fs, i, m, rs, follow);
  }

  // ----- Renaming

  /** A rename by path that stays outside its source: the new canonical name shows what the old
      one showed, and unless they are the same the old one is not found. */
  lemma {:induction false} RenameShows<N>(fs: Fs<N>, cwd: string, from: string, to: string)
    requires FsOk(fs) && RenameAt(fs, cwd, from, to).1.Renamed? && FsOk(RenameAt(fs, cwd, from, to).0)
    ensures var gs := RenameAt(fs, cwd, from, to).0;
            var (toParent, toLeaf) := SplitParent(MakeAbsolute(cwd, to));
            var rf, rt := ResolvePath(fs, cwd, from, false), ResolvePath(fs, cwd, toParent, true);
            && rf.Ok? && rt.Ok?
            && var src, dst := ToAbsolute(rf.value.mp, rf.value.rel), ToAbsolute(rt.value.mp, JoinRel(rt.value.rel, toLeaf));
               && (exists n :: Finds(fs, src, n) && Finds(gs, dst, n))
               && (src != dst ==> HopFrom(gs, src, false) == Stop(Err(NotFound)))
  {
    var (toParent, toLeaf) := SplitParent(MakeAbsolute(cwd, to));
    var rf, rt := ResolvePath(fs, cwd, from, false).value, ResolvePath(fs, cwd, toParent, true).value;
    var i, m, rs := Locate(fs, cwd, from, false);
    var k, n, d := Locate(fs, cwd, toParent, true);
    LeafIsValid(cwd, to);
    RenamedIn(fs, rf, i, m, rs, rt, k, n, d, toLeaf);
    NewNameRenders(m, d, toLeaf);
    MoveKeepsTreesIff(fs, i, rs, d, toLeaf);
    NewNameIsPlaced(fs, i, m, d, toLeaf);
    MoveShows(fs, i, m, rs, d, toLeaf);
    NamesAgree(m, rs, d, toLeaf);
  }

  lemma {:induction false} NewNameRenders(m: Path, d: Path, b: string)
    requires Canonical(m + d) && ValidName(b)
    ensures ToAbsolute(Render(m), JoinRel(Render(d), b)) == Render(m + (d + [b])) && Canonical(m + (d + [b]))
  {
    var to := d + [b];
    assert d == (m + d)[|m|..] && to == (m + to)[|m|..] && m == (m + d)[..|m|] && m == (m + to)[..|m|];
    assert Canonical(m + to);
    JoinRelRender(d, b);
    RelOfRender(m, m + to);
  }

  lemma {:induction false} NewNameIsPlaced<B>(ms: Table<B>, i: nat, m: Path, d: Path, b: string)
    requires PlacedAt(ms, i, m, d) && ValidName(b) && !IsMountPoint(ms, Render(m + (d + [b])))
    ensures PlacedAt(ms, i, m, d + [b])
  {
    var q := m + (d + [b]);
    assert q == m + d + [b];
    forall j: nat, p | PointAt(ms, j, p) && p <= q ensures p <= m {
      if p != q { assert p <= m + d; }
    }
  }

  lemma {:induction false} MoveShows<N>(fs: Fs<N>, i: nat, m: Path, rs: Path, d: Path, b: string)
    requires FsOk(fs) && PlacedAt(fs, i, m, rs) && PlacedAt(fs, i, m, d + [b]) && rs != [] && !(rs < d)
    requires RenameIn(fs[i].backend, rs[..|rs| - 1], rs[|rs| - 1], d, b).1.Renamed?
    ensures var gs := fs[i := Mount(fs[i].point, RenameIn(fs[i].backend, rs[..|rs| - 1], rs[|rs| - 1], d, b).0)];
            && (exists n :: Finds(fs, Render(m + rs), n) && Finds(gs, Render(m + (d + [b])), n))
            && (!SameName(rs[..|rs| - 1], rs[|rs| - 1], d, b) ==> HopFrom(gs, Render(m + rs), false) == Stop(Err(NotFound)))
  {
    var t, f, a := fs[i].backend, rs[..|rs| - 1], rs[|rs| - 1];
    var u := RenameIn(t, f, a, d, b).0;
    assert rs == f + [a];
    RenameOkIff(t, f, a, d, b);
    RenameKeepsTreeIff(t, f, a, d, b);
    RenameMovesOneSubtree(t, f, a, d, b, [], rs);
    assert d + [b] + [] == d + [b] && f + [a] + [] == rs;
    var x := Get(t, rs).value;
    FoundHere(fs, i, m, rs, x);
    FoundAfter(fs, i, m, d + [b], u, x);
    MovedNodeKept(t, f, a, d, b);
    SameLooks(fs[i := Mount(fs[i].point, u)], Render(m + (d + [b])), t.store[x], u.store[x]);
    if !SameName(f, a, d, b) {
      OldNameIsMissing(t, f, a, d, b, false);
      ReplaceKeepsTable(fs, i, u);
      MissingInEntry(fs, i, m, rs, u, false);
    }
  }

  /** The moved node itself does not change. */
  lemma {:induction false} MovedNodeKept<N>(t: Tree<N>, f: Path, a: string, d: Path, b: string)
    requires Shaped(t) && RenameIn(t, f, a, d, b).1.Renamed? && !IntoItself(f, a, d)
    ensures Get(t, f + [a]).Ok?
    ensures var x := Get(t, f + [a]).value;
            x in t.store && x in RenameIn(t, f, a, d, b).0.store && RenameIn(t, f, a, d, b).0.store[x] == t.store[x]
  {
    NameUnder(t, f, a);
    var x, fp, tp := Get(t, f + [a]).value, Get(t, f).value, Get(t, d).value;
    WalkInStore(t, t.root, f + [a]);
    assert x != fp by { if x == fp { UniquePath(t, f + [a], f); } }
    assert x != tp by { if x == tp { UniquePath(t, f + [a], d); } }
  }

  lemma {:induction false} SameLooks<N>(fs: Fs<N>, path: string, n: Node<N>, n': Node<N>)
    requires Finds(fs, path, n') && n == n'
    ensures Finds(fs, path, n)
  {
  }

  // ----- Opening

  /** An open by path opens the canonical path in its own file system and touches no other. */
  lemma {:induction false} OpenActs<N>(fs: Fs<N>, cwd: string, path: string) returns (i: nat, rs: Path)
    requires FsOk(fs) && ResolvePath(fs, cwd, path, true).Ok?
    ensures var r := ResolvePath(fs, cwd, path, true).value;
            && i < |fs| && fs[i] == Mount(r.mp, r.backend) && r.rel == Render(rs)
            && OpenPath(fs, cwd, path).1.Ok? && OpenPath(fs, cwd, path).1 == OpenAt(fs[i].backend, rs).1
            && OpenPath(fs, cwd, path).0 == fs[i := Mount(r.mp, OpenAt(fs[i].backend, rs).0)]
  {
    var m;
    i, m, rs := Locate(fs, cwd, path, true);
    OpenAfterResolve(fs, cwd, path);
  }

  // ----- Mounting and unmounting

  /** `mount` on a path of a non-empty table: each answer by the canonical path. */
  lemma {:induction false} MountAnswers<N>(fs: Fs<N>, cwd: string, path: string, tree: Tree<N>)
    requires FsOk(fs) && fs != [] && ResolvePath(fs, cwd, path, true).Ok?
    ensures var r := ResolvePath(fs, cwd, path, true).value;
            var full := ToAbsolute(r.mp, r.rel);
            MountAt(fs, cwd, path, tree) ==
            if IsMountPoint(fs, full) then (fs, Err(FileExists))
            else if HasMountWithin(fs, full) then (fs, Err(FileBusy))
            else if r.attrs.mode & 2 == 0 then (fs, Err(NotADirectory))
            else (fs + [Mount(full, tree)], Ok(()))
  {
    ResolveIdempotent(fs, cwd, path, true);
  }

  lemma {:induction false} PushedPlaces<N>(fs: Fs<N>, e: Mount<Tree<N>>, cs: Path, rest: Path)
    requires TableOk(fs) && Canonical(cs) && Canonical(cs + rest) && e.point == Render(cs)
    requires !HasMountWithin(fs, Render(cs))
    ensures PlacedAt(fs + [e], |fs|, cs, rest)
  {
    var gs := fs + [e];
    WithinIff(fs, cs);
    assert rest == (cs + rest)[|cs|..];
    forall j: nat, q | PointAt(gs, j, q) && q <= cs + rest ensures q <= cs {
      if j == |fs| {
        RenderInjective(q, cs);
      } else {
        assert PointAt(fs, j, q);
        Comparable(q, cs, cs + rest);
      }
    }
  }

  lemma {:induction false} PushedElsewhere<N>(fs: Fs<N>, e: Mount<Tree<N>>, cs: Path, i: nat, m: Path, rs: Path)
    requires PlacedAt(fs, i, m, rs) && Canonical(cs) && e.point == Render(cs) && !(cs <= m + rs)
    ensures PlacedAt(fs + [e], i, m, rs)
  {
    var gs := fs + [e];
    forall j: nat, q | PointAt(gs, j, q) && q <= m + rs ensures q <= m {
      if j == |fs| { RenderInjective(q, cs); }
      assert PointAt(fs, j, q);
    }
  }

  /** `h` looks `q` up in the file system mounted at `cs` if it lies there, and in `fs` otherwise. */
  ghost predicate LooksBeyond<N>(fs: Fs<N>, tree: Tree<N>, cs: Path, q: Path, follow: bool, h: Hop<Answer<N>>) {
    if cs <= q then HopIs(tree, cs, q[|cs|..], follow, h) else h == HopFrom(fs, Render(q), follow)
  }

  /** After a successful mount every path at or below the mount point is looked up in the new
      file system, and every other path exactly as before. */
  lemma {:induction false} MountShows<N>(fs: Fs<N>, cwd: string, path: string, tree: Tree<N>, q: Path, follow: bool) returns (cs: Path)
    requires FsOk(fs) && fs != [] && WellFormed(tree) && MountAt(fs, cwd, path, tree).1.Ok? && Canonical(q)
    ensures var r := ResolvePath(fs, cwd, path, true);
            r.Ok? && Canonical(cs) && ToAbsolute(r.value.mp, r.value.rel) == Render(cs)
    ensures LooksBeyond(fs, tree, cs, q, follow, HopFrom(MountAt(fs, cwd, path, tree).0, Render(q), follow))
  {
    cs := MountedAs(fs, cwd, path, tree);
    NewMountShows(fs, Mount(Render(cs), tree), cs, q, follow);
  }

  lemma {:induction false} NewMountShows<N>(fs: Fs<N>, e: Mount<Tree<N>>, cs: Path, q: Path, follow: bool)
    requires FsOk(fs) && fs != [] && FsOk(fs + [e]) && Canonical(cs) && Canonical(q) && e.point == Render(cs)
    requires !HasMountWithin(fs, Render(cs))
    ensures LooksBeyond(fs, e.backend, cs, q, follow, HopFrom(fs + [e], Render(q), follow))
  {
    if cs <= q {
      assert cs + q[|cs|..] == q;
      BelowNewMount(fs, e, cs, q[|cs|..], follow);
    } else {
      BesideNewMount(fs, e, cs, q, follow);
    }
  }

  lemma {:induction false} BelowNewMount<N>(fs: Fs<N>, e: Mount<Tree<N>>, cs: Path, rest: Path, follow: bool)
    requires TableOk(fs) && FsOk(fs + [e]) && Canonical(cs) && Canonical(cs + rest) && e.point == Render(cs)
    requires !HasMountWithin(fs, Render(cs))
    ensures HopIs(e.backend, cs, rest, follow, HopFrom(fs + [e], Render(cs + rest), follow))
  {
    PushedPlaces(fs, e, cs, rest);
    PlacedHop(fs + [e], |fs|, cs, rest, follow);
  }

  lemma {:induction false} PlacedHop<N>(fs: Fs<N>, i: nat, m: Path, rs: Path, follow: bool)
    requires FsOk(fs) && PlacedAt(fs, i, m, rs)
    ensures HopIs(fs[i].backend, m, rs, follow, HopFrom(fs, Render(m + rs), follow))
  {
    PlaceIsUnique(fs, i, m, rs);
    HopInMeaning(fs[i], m, rs, follow);
  }

  lemma {:induction false} BesideNewMount<N>(fs: Fs<N>, e: Mount<Tree<N>>, cs: Path, q: Path, follow: bool)
    requires FsOk(fs) && fs != [] && FsOk(fs + [e]) && Canonical(cs) && Canonical(q) && e.point == Render(cs) && !(cs <= q)
    ensures HopFrom(fs + [e], Render(q), follow) == HopFrom(fs, Render(q), follow)
  {
    var i, m, rs := PlaceIsDeepest(fs, q);
    PushedElsewhere(fs, e, cs, i, m, rs);
    PlaceIsUnique(fs + [e], i, m, rs);
    assert (fs + [e])[i] == fs[i];
  }

  /** `unmount` of an unused file system undoes `mount`. */
  lemma {:induction false} UnmountUndoesMount<N>(fs: Fs<N>, cwd: string, path: string, tree: Tree<N>)
    requires FsOk(fs) && fs != [] && WellFormed(tree) && !RootBusy(tree) && MountAt(fs, cwd, path, tree).1.Ok?
    ensures var r := ResolvePath(fs, cwd, path, true);
            r.Ok? && UnmountAt(MountAt(fs, cwd, path, tree).0, cwd, ToAbsolute(r.value.mp, r.value.rel)) == (fs, Ok(()))
  {
    var cs := MountedAs(fs, cwd, path, tree);
    UndoPushed(fs, cwd, Mount(Render(cs), tree), cs);
  }

  lemma {:induction false} MountedAs<N>(fs: Fs<N>, cwd: string, path: string, tree: Tree<N>) returns (cs: Path)
    requires FsOk(fs) && fs != [] && WellFormed(tree) && MountAt(fs, cwd, path, tree).1.Ok?
    ensures var r := ResolvePath(fs, cwd, path, true);
            r.Ok? && Canonical(cs) && ToAbsolute(r.value.mp, r.value.rel) == Render(cs)
    ensures MountAt(fs, cwd, path, tree).0 == fs + [Mount(Render(cs), tree)] && FsOk(fs + [Mount(Render(cs), tree)])
    ensures !HasMountWithin(fs, Render(cs))
  {
    MountAnswers(fs, cwd, path, tree);
    MountKeepsFs(fs, cwd, path, tree);
    var i, m, rs := Locate(fs, cwd, path, true);
    cs := m + rs;
  }

  lemma {:induction false} UndoPushed<N>(fs: Fs<N>, cwd: string, e: Mount<Tree<N>>, cs: Path)
    requires TableOk(fs) && FsOk(fs + [e]) && Canonical(cs) && e.point == Render(cs) && !RootBusy(e.backend)
    requires !HasMountWithin(fs, Render(cs))
    ensures UnmountAt(fs + [e], cwd, Render(cs)) == (fs, Ok(()))
  {
    PushedOnTop(fs, e, cs);
    DropsLast(fs + [e], cwd, cs, fs);
  }

  /** A mount just pushed is placed at its own point, with nothing below. */
  ghost predicate OnTop<N>(fs: Fs<N>, i: nat, m: Path) {
    PlacedAt(fs, i, m, []) && !HasMountWithin(fs, Render(m)) && !RootBusy(fs[i].backend)
  }

  lemma {:induction false} PushedOnTop<N>(fs: Fs<N>, e: Mount<Tree<N>>, cs: Path)
    requires TableOk(fs) && Canonical(cs) && e.point == Render(cs) && !RootBusy(e.backend)
    requires !HasMountWithin(fs, Render(cs))
    ensures OnTop(fs + [e], |fs + [e]| - 1, cs) && fs == (fs + [e])[..|fs + [e]| - 1]
  {
    assert cs + [] == cs;
    PushedPlaces(fs, e, cs, []);
    StillNoneWithin(fs, e, cs);
    assert (fs + [e])[|fs|] == e;
  }

  /** Unmounting the last mount by its own point takes it out. */
  lemma {:induction false} DropsLast<N>(fs: Fs<N>, cwd: string, m: Path, rest: Fs<N>)
    requires FsOk(fs) && fs != [] && OnTop(fs, |fs| - 1, m) && rest == fs[..|fs| - 1]
    ensures UnmountAt(fs, cwd, Render(m)) == (rest, Ok(()))
  {
    RootResolves(fs, cwd, |fs| - 1, m);
    UnmountIs(fs, cwd, Render(m));
    DropsAt(fs, rest);
  }

  lemma {:induction false} UnmountIs<N>(fs: Fs<N>, cwd: string, path: string)
    requires fs != [] && ResolvePath(fs, cwd, path, true).Ok?
    ensures var r := ResolvePath(fs, cwd, path, true).value; UnmountAt(fs, cwd, path) == DropMount(fs, ToAbsolute(r.mp, r.rel))
  {
  }

  lemma {:induction false} RootResolves<N>(fs: Fs<N>, cwd: string, i: nat, m: Path)
    requires FsOk(fs) && PlacedAt(fs, i, m, [])
    ensures ResolvePath(fs, cwd, Render(m), true).Ok?
    ensures var r := ResolvePath(fs, cwd, Render(m), true).value; ToAbsolute(r.mp, r.rel) == Render(m)
  {
    assert m + [] == m && Get(fs[i].backend, []) == Ok(fs[i].backend.root);
    ResolvePlain(fs, cwd, i, m, [], true);
  }

  lemma {:induction false} DropsAt<N>(fs: Fs<N>, rest: Fs<N>)
    requires TableOk(fs) && fs != [] && rest == fs[..|fs| - 1]
    requires !HasMountWithin(fs, fs[|fs| - 1].point) && !RootBusy(fs[|fs| - 1].backend)
    ensures DropMount(fs, fs[|fs| - 1].point) == (rest, Ok(()))
  {
    IndexOfPoint(fs, |fs| - 1);
    assert fs[|fs|..] == [] && rest + [] == rest;
  }

  lemma {:induction false} StillNoneWithin<B>(ms: Table<B>, e: Mount<B>, cs: Path)
    requires !HasMountWithin(ms, Render(cs)) && e.point == Render(cs)
    ensures !HasMountWithin(ms + [e], Render(cs))
  {
    assert forall i | 0 <= i < |ms| :: (ms + [e])[i] == ms[i];
  }

  /** `unmount`: each answer by the canonical path, and a success takes out exactly that mount. */
  lemma {:induction false} UnmountAnswers<N>(fs: Fs<N>, cwd: string, path: string)
    requires FsOk(fs) && fs != [] && ResolvePath(fs, cwd, path, true).Ok?
    ensures var r := ResolvePath(fs, cwd, path, true).value;
            DropAnswer(fs, ToAbsolute(r.mp, r.rel), UnmountAt(fs, cwd, path))
  {
    var r := ResolvePath(fs, cwd, path, true).value;
    DropAnswers(fs, ToAbsolute(r.mp, r.rel));
  }

  ghost predicate DropAnswer<N>(fs: Fs<N>, full: string, r: (Fs<N>, Result<()>)) {
    && (HasMountWithin(fs, full) ==> r == (fs, Err(FileBusy)))
    && (!HasMountWithin(fs, full) && !IsMountPoint(fs, full) ==> r == (fs, Err(NotFound)))
    && (!HasMountWithin(fs, full) ==> forall i | 0 <= i < |fs| && fs[i].point == full ::
          r == if RootBusy(fs[i].backend) then (fs, Err(FileBusy)) else (RemoveAt(fs, i), Ok(())))
  }

  lemma {:induction false} DropAnswers<N>(fs: Fs<N>, full: string)
    requires TableOk(fs)
    ensures DropAnswer(fs, full, DropMount(fs, full))
  {
    forall i | 0 <= i < |fs| && fs[i].point == full ensures IndexOf(fs, full) == i { IndexOfPoint(fs, i); }
  }
}
