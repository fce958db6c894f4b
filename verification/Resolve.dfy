/** Path resolution across mounts and symlinks, and the operations that rest on it
    (kernel/src/fs/mod.rs, kernel/src/fs/mount.rs), for mounts with in-memory backends. */
module Resolve {
  import opened Basics
  import opened Paths
  import opened VfsTree
  import opened VfsHandles
  import opened VfsProbe
  import opened Mounts
  import opened Following

  const MAX_SYMLINK_DEPTH: nat := 8

  type Fs<N> = Table<Tree<N>>

  datatype Resolved<N> = Resolved(backend: Tree<N>, mp: string, rel: string, attrs: Attrs, target: Option<string>)

  type Answer<N> = Result<Resolved<N>>

  ghost predicate FsOk<N>(fs: Fs<N>) {
    TableOk(fs) && forall i | 0 <= i < |fs| :: WellFormed(fs[i].backend)
  }

  /** One turn of the resolution loop: mount lookup, probe, and the next path if a symlink
      was met. */
  function HopFrom<N(==)>(fs: Fs<N>, full: string, follow: bool): Hop<Answer<N>> {
    match BestIdx(fs, full)
    case None => Stop(Err(NotFound))
    case Some(i) => HopIn(fs[i], RelOf(fs[i].point, full), follow)
  }

  function HopIn<N(==)>(m: Mount<Tree<N>>, rel: string, follow: bool): Hop<Answer<N>> {
    match Probe(m.backend, rel, follow)
    case Err(e) => Stop(Err(e))
    case Ok(Found(attrs, target)) => Stop(Ok(Resolved(m.backend, m.point, rel, attrs, target)))
    case Ok(Link(dir, target, remaining)) => Next(JoinSymlinkTarget(ToAbsolute(m.point, dir), target, remaining))
  }

  function Hops<N(==)>(fs: Fs<N>, follow: bool): string -> Hop<Answer<N>> {
    full => HopFrom(fs, full, follow)
  }

  /** `resolve`: the loop runs while the depth is at most the maximum. */
  function ResolvePath<N(==)>(fs: Fs<N>, cwd: string, path: string, follow: bool): Answer<N> {
    Follow(Hops(fs, follow), MakeAbsolute(cwd, path), MAX_SYMLINK_DEPTH + 1, Err(TooManySymlinks))
  }

  method HopOnce<N(==)>(fs: Fs<N>, full: string, follow: bool) returns (h: Hop<Answer<N>>)
    ensures h == HopFrom(fs, full, follow)
  {
    var m := LookupMp(fs, full);
    if m.None? { return Stop(Err(NotFound)); }
    var (backend, rel, mp) := m.value;
    var step := Probe(backend, rel, follow);
    match step {
      case Err(e) => h := Stop(Err(e));
      case Ok(Found(attrs, target)) => h := Stop(Ok(Resolved(backend, mp, rel, attrs, target)));
      case Ok(Link(dir, target, remaining)) =>
        var absDir := ToAbsolute(mp, dir);
        h := Next(JoinSymlinkTarget(absDir, target, remaining));
    }
  }

  /** In-place form of `resolve`. */
  method ResolveLoop<N(==)>(fs: Fs<N>, cwd: string, path: string, follow: bool) returns (r: Answer<N>)
    ensures r == ResolvePath(fs, cwd, path, follow)
  {
    var full := MakeAbsolute(cwd, path);
    r := FollowLoop(fs, full, follow);
  }

  method FollowLoop<N(==)>(fs: Fs<N>, start: string, follow: bool) returns (r: Answer<N>)
    ensures r == Follow(Hops(fs, follow), start, MAX_SYMLINK_DEPTH + 1, Err(TooManySymlinks))
  {
    ghost var hop, giveUp := Hops(fs, follow), Err(TooManySymlinks);
    ghost var goal := Follow(hop, start, MAX_SYMLINK_DEPTH + 1, giveUp);
    var full, depth := start, 0;
    while true
      invariant 0 <= depth <= MAX_SYMLINK_DEPTH + 1
      invariant Follow(hop, full, MAX_SYMLINK_DEPTH + 1 - depth, giveUp) == goal
      decreases MAX_SYMLINK_DEPTH + 1 - depth
    {
      if depth > MAX_SYMLINK_DEPTH { return Err(TooManySymlinks); }
      var h := HopOnce(fs, full, follow);
      FollowOnce(hop, full, MAX_SYMLINK_DEPTH - depth, giveUp);
      match h {
        case Stop(answer) => return answer;
        case Next(next) => full, depth := next, depth + 1;
      }
    }
  }

  // ----- Bounded following against unbounded following

  lemma {:induction false} AnswersErrors<N>(t: Tree<N>, comps: Path, follow: bool, r: Result<ProbeStep>)
    requires Answers(t, comps, follow, r)
    ensures r != Err(TooManySymlinks)
  {
    WalkFails(t, t.root, comps, TooManySymlinks);
    if k: nat :| LinkAt(t, comps, k, follow) {
    } else {
      assert forall k: nat :: !LinkAt(t, comps, k, follow);
    }
  }

  /** A single hop never reports TooManySymlinks. */
  lemma {:induction false} HopErrors<N>(fs: Fs<N>, full: string, follow: bool)
    requires FsOk(fs)
    ensures HopFrom(fs, full, follow) != Stop(Err(TooManySymlinks))
  {
    var b := BestIdx(fs, full);
    if b.Some? {
      var t, rel := fs[b.value].backend, RelOf(fs[b.value].point, full);
      ProbeMeaning(t, rel, follow);
      AnswersErrors(t, Comps(rel), follow, Probe(t, rel, follow));
    }
  }

  /** `resolve` reports TooManySymlinks exactly when following without a bound would make
      more than eight expansions. */
  lemma {:induction false} TooManyIffMoreThanEight<N>(fs: Fs<N>, cwd: string, path: string, follow: bool)
    requires FsOk(fs)
    ensures ResolvePath(fs, cwd, path, follow) == Err(TooManySymlinks) <==>
              CanExpand(Hops(fs, follow), MakeAbsolute(cwd, path), 9)
  {
    var hop := Hops(fs, follow);
    forall x ensures hop(x) != Stop(Err(TooManySymlinks)) { HopErrors(fs, x, follow); }
    GiveUpIffTooLong(hop, MakeAbsolute(cwd, path), MAX_SYMLINK_DEPTH + 1, Err(TooManySymlinks));
  }

  /** Whenever unbounded following stops within eight expansions, `resolve` answers the same. */
  lemma {:induction false} ResolveAgreesWithUnbounded<N>(fs: Fs<N>, cwd: string, path: string, follow: bool, n: nat, q: string, r: Answer<N>)
    requires n <= MAX_SYMLINK_DEPTH && StopsAt(Hops(fs, follow), MakeAbsolute(cwd, path), n, q, r)
    ensures ResolvePath(fs, cwd, path, follow) == r
  {
    FollowReachesStop(Hops(fs, follow), MakeAbsolute(cwd, path), n, q, r, MAX_SYMLINK_DEPTH + 1, Err(TooManySymlinks));
  }

  // ----- What one turn of the loop does

  lemma {:induction false} DeepestIsFound<B>(ms: Table<B>, cs: Path, i: nat, m: Path)
    requires TableOk(ms) && Canonical(cs) && DeepestPoint(ms, cs, i, m)
    ensures BestIdx(ms, Render(cs)) == Some(i)
  {
    LookupIsDeepest(ms, cs);
    var k := BestIdx(ms, Render(cs)).value;
    var n :| DeepestPoint(ms, cs, k, n);
    assert n <= m && m <= n;
    assert n == m[..|n|] == m;
  }

  /** Where a link in directory `ds` of a file system mounted at `m` leads: an absolute target
      from the root, a relative one from the link's own directory, and then along the rest of
      the path. */
  function LinkLeads(m: Path, ds: Path, target: string, rest: Path): Path {
    Led(if "/" <= target then [] else m + ds, Split(target)) + rest
  }

  /** The attributes shown for a node. */
  predicate Shows<N(==)>(r: Resolved<N>, n: Node<N>) {
    && r.attrs.mode == n.mode
    && match n.kind
       case File(data) => r.attrs.size == |data| && r.target == None
       case Dir(children) => r.attrs.size == |children| && r.target == None
       case Symlink(target) => r.attrs.size == |target| && r.target == Some(target)
  }

  /** What a lookup of the normal path `cs` below mount point `m` does: at the one symlink that
      must be followed it goes on where the link leads, and otherwise it ends with the node, or
      the error, of the plain walk. */
  ghost predicate HopIs<N>(t: Tree<N>, m: Path, rs: Path, follow: bool, h: Hop<Answer<N>>) {
    && (forall k: nat :: LinkAt(t, rs, k, follow) ==>
          h == Next(Render(LinkLeads(m, rs[..k], t.store[Get(t, rs[..k + 1]).value].kind.target, rs[k + 1..]))))
    && ((forall k: nat :: !LinkAt(t, rs, k, follow)) ==>
          match Get(t, rs)
          case Err(e) => h == Stop(Err(e))
          case Ok(n) => && h.Stop? && h.result.Ok? && n in t.store && Shows(h.result.value, t.store[n])
                        && h.result.value.backend == t && h.result.value.mp == Render(m) && h.result.value.rel == Render(rs))
  }

  lemma {:induction false} LinkHop<N>(t: Tree<N>, m: Path, rs: Path, k: nat, target: string)
    requires Canonical(m) && Canonical(rs) && k < |rs|
    ensures JoinSymlinkTarget(ToAbsolute(Render(m), Render(rs[..k])), target, JoinSlash(rs[k + 1..])) ==
            Render(LinkLeads(m, rs[..k], target, rs[k + 1..]))
  {
    var cs := m + rs[..k];
    assert m == cs[..|m|] && cs[|m|..] == rs[..k];
    RelOfRender(m, cs);
    SymlinkLeads(cs, target, rs[k + 1..]);
  }

  lemma {:induction false} HopInMeaning<N>(e: Mount<Tree<N>>, m: Path, rs: Path, follow: bool)
    requires WellFormed(e.backend) && Canonical(m) && Canonical(rs) && e.point == Render(m)
    ensures HopIs(e.backend, m, rs, follow, HopIn(e, Render(rs), follow))
  {
    var t := e.backend;
    ProbeMeaning(t, Render(rs), follow);
    CompsRender(rs);
    forall k: nat | LinkAt(t, rs, k, follow)
      ensures HopIn(e, Render(rs), follow) ==
              Next(Render(LinkLeads(m, rs[..k], t.store[Get(t, rs[..k + 1]).value].kind.target, rs[k + 1..])))
    {
      LinkHop(t, m, rs, k, t.store[Get(t, rs[..k + 1]).value].kind.target);
    }
  }

  /** One turn of `resolve` on every normal path. */
  lemma {:induction false} HopMeaning<N>(fs: Fs<N>, cs: Path, i: nat, m: Path, follow: bool)
    requires FsOk(fs) && Canonical(cs) && DeepestPoint(fs, cs, i, m)
    ensures HopIs(fs[i].backend, m, cs[|m|..], follow, HopFrom(fs, Render(cs), follow))
  {
    DeepestIsFound(fs, cs, i, m);
    HopInMeaning(fs[i], m, cs[|m|..], follow);
  }

  // ----- What a resolved path is good for

  lemma {:induction false} HopsStayNormal<N>(fs: Fs<N>, p: string, follow: bool)
    ensures HopFrom(fs, p, follow).Next? ==> Normal(HopFrom(fs, p, follow).full)
  {
    var b := BestIdx(fs, p);
    if b.Some? {
      var step := Probe(fs[b.value].backend, RelOf(fs[b.value].point, p), follow);
      if step.Ok? && step.value.Link? {
        var dir, target, rest := ToAbsolute(fs[b.value].point, step.value.dir), step.value.target, step.value.remaining;
        var base := if "/" <= target then target else dir + "/" + target;
        NormalizeIsNormal(if rest == "" then base else base + "/" + rest);
      }
    }
  }

  lemma {:induction false} NormalAllTheWay<R>(hop: string -> Hop<R>, p: string, n: nat, q: string)
    requires Normal(p) && Expands(hop, p, n, q) && forall x :: hop(x).Next? ==> Normal(hop(x).full)
    ensures Normal(q)
    decreases n
  {
    if n > 0 { NormalAllTheWay(hop, hop(p).full, n - 1, q); }
  }

  lemma {:induction false} ExpansionsStayNormal<N>(fs: Fs<N>, follow: bool, p: string, n: nat, q: string)
    requires Normal(p) && Expands(Hops(fs, follow), p, n, q)
    ensures Normal(q)
  {
    var hop := Hops(fs, follow);
    forall x ensures hop(x).Next? ==> Normal(hop(x).full) { HopsStayNormal(fs, x, follow); }
    NormalAllTheWay(hop, p, n, q);
  }

  /** `r` is what one hop finds at the normal path with components `cs`. */
  ghost predicate FoundAt<N>(fs: Fs<N>, follow: bool, r: Resolved<N>, cs: Path) {
    && Canonical(cs) && HopFrom(fs, Render(cs), follow) == Stop(Ok(r))
    && ToAbsolute(r.mp, r.rel) == Render(cs)
    && Normal(r.rel)
    && exists i :: 0 <= i < |fs| && fs[i] == Mount(r.mp, r.backend)
  }

  lemma {:induction false} HopFoundAt<N>(fs: Fs<N>, follow: bool, r: Resolved<N>, cs: Path)
    requires FsOk(fs) && Canonical(cs) && HopFrom(fs, Render(cs), follow) == Stop(Ok(r))
    ensures FoundAt(fs, follow, r, cs)
  {
    var i := LookupRebuilds(fs, cs);
    assert fs[i] == Mount(r.mp, r.backend);
  }

  /** A successful resolution names a normal path on which the lookup stops at once. */
  lemma {:induction false} ResolvedIsCanonical<N>(fs: Fs<N>, cwd: string, path: string, follow: bool)
    requires FsOk(fs) && ResolvePath(fs, cwd, path, follow).Ok?
    ensures exists cs :: FoundAt(fs, follow, ResolvePath(fs, cwd, path, follow).value, cs)
  {
    var hop, p := Hops(fs, follow), MakeAbsolute(cwd, path);
    var r := ResolvePath(fs, cwd, path, follow);
    NormalizeIsNormal(path);
    NormalizeIsNormal(cwd + "/" + path);
    FollowMeaning(hop, p, MAX_SYMLINK_DEPTH + 1, Err(TooManySymlinks));
    var n: nat, q :| n < MAX_SYMLINK_DEPTH + 1 && StopsAt(hop, p, n, q, r);
    ExpansionsStayNormal(fs, follow, p, n, q);
    var cs :| Canonical(cs) && q == Render(cs);
    HopFoundAt(fs, follow, r.value, cs);
  }

  /** The canonical name of a resolved path, as `resolve_symlink` returns it, resolves to
      itself. */
  lemma {:induction false} ResolveIdempotent<N>(fs: Fs<N>, cwd: string, path: string, follow: bool)
    requires FsOk(fs) && ResolvePath(fs, cwd, path, follow).Ok?
    ensures var r := ResolvePath(fs, cwd, path, follow).value;
            ResolvePath(fs, cwd, ToAbsolute(r.mp, r.rel), follow) == Ok(r)
  {
    ResolvedIsCanonical(fs, cwd, path, follow);
    var r := ResolvePath(fs, cwd, path, follow).value;
    var cs :| FoundAt(fs, follow, r, cs);
    NormalizeFixesNormal(cs);
    assert "/" <= Render(cs);
    assert StopsAt(Hops(fs, follow), Render(cs), 0, Render(cs), Ok(r));
    ResolveAgreesWithUnbounded(fs, cwd, Render(cs), follow, 0, Render(cs), Ok(r));
  }

  /** `open`: once `resolve` has succeeded with symlinks followed, `open_at` on the same
      backend succeeds; in particular its own TooManySymlinks error cannot occur. */
  lemma {:induction false} OpenAfterResolve<N>(fs: Fs<N>, cwd: string, path: string)
    requires FsOk(fs) && ResolvePath(fs, cwd, path, true).Ok?
    ensures var r := ResolvePath(fs, cwd, path, true).value;
            var (_, h) := OpenAt(r.backend, Comps(r.rel));
            h.Ok? && h.value.node in r.backend.store && r.attrs == AttrsOf(r.backend.store[h.value.node])
  {
    ResolvedIsCanonical(fs, cwd, path, true);
    var r := ResolvePath(fs, cwd, path, true).value;
    var cs :| FoundAt(fs, true, r, cs);
    var i := BestIdx(fs, Render(cs)).value;
    FoundCanBeOpened(fs[i].backend, r.rel, true);
  }

  /** The two-part lookup of `delete` and `rename` finds the node the whole path names. */
  ghost predicate LeafIsThere<N>(t: Tree<N>, rel: string) {
    var (parent, leaf) := SplitParent(rel);
    && leaf != "" && Get(t, Comps(parent)).Ok?
    && HasChild(t, Get(t, Comps(parent)).value, leaf)
    && Get(t, Comps(rel)) == Ok(Child(t, Get(t, Comps(parent)).value, leaf))
  }

  lemma {:induction false} FoundLeaf<N>(t: Tree<N>, rs: Path)
    requires WellFormed(t) && Canonical(rs) && rs != [] && Get(t, rs).Ok?
    ensures LeafIsThere(t, Render(rs))
    ensures var (parent, leaf) := SplitParent(Render(rs));
            DeleteIn(t, Comps(parent), leaf).1 in {Ok(()), Err(FileBusy), Err(NotEmpty)}
  {
    SplitParentRender(rs);
    CompsRender(rs);
    CompsRender(rs[..|rs| - 1]);
    WalkLast(t, t.root, rs);
    WalkInStore(t, t.root, rs[..|rs| - 1]);
    WalkInStore(t, t.root, rs);
  }

  lemma {:induction false} FoundInMount<N>(fs: Fs<N>, follow: bool, r: Resolved<N>, cs: Path) returns (rs: Path)
    requires FsOk(fs) && FoundAt(fs, follow, r, cs)
    ensures WellFormed(r.backend) && Canonical(rs) && r.rel == Render(rs) && Get(r.backend, rs).Ok?
  {
    var i := BestIdx(fs, Render(cs)).value;
    FoundCanBeOpened(fs[i].backend, r.rel, follow);
    rs :| Canonical(rs) && r.rel == Render(rs);
    CompsRender(rs);
  }

  /** `delete` and `rename` look their target up in two parts. After a successful `resolve`
      of anything but a file system root, the parent is a directory that has the leaf, so a
      delete can only be refused because the target is open or not empty. */
  lemma {:induction false} DeleteAfterResolve<N>(fs: Fs<N>, cwd: string, path: string, r: Resolved<N>)
    requires FsOk(fs) && ResolvePath(fs, cwd, path, false) == Ok(r) && r.rel != "/"
    ensures LeafIsThere(r.backend, r.rel)
    ensures var (parent, leaf) := SplitParent(r.rel);
            DeleteIn(r.backend, Comps(parent), leaf).1 in {Ok(()), Err(FileBusy), Err(NotEmpty)}
  {
    ResolvedIsCanonical(fs, cwd, path, false);
    var cs :| FoundAt(fs, false, r, cs);
    var rs := FoundInMount(fs, false, r, cs);
    FoundLeaf(r.backend, rs);
  }

  // ----- Mounting and unmounting

  /** `validate_mount_point_and_source` and the push, for a non-empty table. */
  function AddMount<N(==)>(fs: Fs<N>, cwd: string, canonical: string, tree: Tree<N>): (Fs<N>, Result<()>) {
    if IsMountPoint(fs, canonical) then (fs, Err(FileExists))
    else if HasMountWithin(fs, canonical) then (fs, Err(FileBusy))
    else match ResolvePath(fs, cwd, canonical, true)
      case Err(e) => (fs, Err(e))
      case Ok(s) =>
        if s.attrs.mode & 2 == 0 then (fs, Err(NotADirectory))
        else (fs + [Mount(canonical, tree)], Ok(()))
  }

  /** `mount` of an in-memory file system. */
  function MountAt<N(==)>(fs: Fs<N>, cwd: string, path: string, tree: Tree<N>): (Fs<N>, Result<()>) {
    if fs == [] then
      if Normalize(path) == "/" then ([Mount("/", tree)], Ok(())) else (fs, Err(InvalidArgument))
    else match ResolvePath(fs, cwd, path, true)
      case Err(e) => (fs, Err(e))
      case Ok(r) => AddMount(fs, cwd, ToAbsolute(r.mp, r.rel), tree)
  }

  function IndexOf<N(==)>(fs: Fs<N>, point: string): (i: nat)
    ensures i <= |fs| && (i < |fs| ==> fs[i].point == point)
  {
    if fs == [] then 0 else if fs[0].point == point then 0 else 1 + IndexOf(fs[1..], point)
  }

  function DropMount<N(==)>(fs: Fs<N>, canonical: string): (Fs<N>, Result<()>) {
    if HasMountWithin(fs, canonical) then (fs, Err(FileBusy))
    else
      var i := IndexOf(fs, canonical);
      if i == |fs| then (fs, Err(NotFound))
      else if RootBusy(fs[i].backend) then (fs, Err(FileBusy))
      else (fs[..i] + fs[i + 1..], Ok(()))
  }

  /** `unmount` */
  function UnmountAt<N(==)>(fs: Fs<N>, cwd: string, path: string): (Fs<N>, Result<()>) {
    if fs == [] then (fs, Err(NotFound))
    else match ResolvePath(fs, cwd, path, true)
      case Err(e) => (fs, Err(e))
      case Ok(r) => DropMount(fs, ToAbsolute(r.mp, r.rel))
  }

  datatype MountOp<N> = DoMount(cwd: string, path: string, tree: Tree<N>) | DoUnmount(cwd: string, path: string)

  function MountStep<N(==)>(fs: Fs<N>, op: MountOp<N>): Fs<N> {
    match op
    case DoMount(cwd, path, tree) => MountAt(fs, cwd, path, tree).0
    case DoUnmount(cwd, path) => UnmountAt(fs, cwd, path).0
  }

  function MountRun<N(==)>(fs: Fs<N>, ops: seq<MountOp<N>>): Fs<N>
    decreases ops
  {
    if ops == [] then fs else MountRun(MountStep(fs, ops[0]), ops[1..])
  }

  lemma {:induction false} AddMountKeepsFs<N>(fs: Fs<N>, cwd: string, canonical: string, tree: Tree<N>)
    requires FsOk(fs) && WellFormed(tree) && Normal(canonical) && fs != []
    ensures FsOk(AddMount(fs, cwd, canonical, tree).0)
  {
    if !IsMountPoint(fs, canonical) {
      PushKeepsTable(fs, Mount(canonical, tree));
      assert FsOk(fs + [Mount(canonical, tree)]);
    }
  }

  lemma {:induction false} MountKeepsFs<N>(fs: Fs<N>, cwd: string, path: string, tree: Tree<N>)
    requires FsOk(fs) && WellFormed(tree)
    ensures FsOk(MountAt(fs, cwd, path, tree).0)
  {
    if fs == [] {
      assert Render([]) == "/" && Canonical([]);
      PushKeepsTable(fs, Mount("/", tree));
      assert fs + [Mount("/", tree)] == [Mount("/", tree)];
    } else if ResolvePath(fs, cwd, path, true).Ok? {
      var r := ResolvePath(fs, cwd, path, true).value;
      ResolvedIsCanonical(fs, cwd, path, true);
      AddMountKeepsFs(fs, cwd, ToAbsolute(r.mp, r.rel), tree);
    }
  }

  lemma {:induction false} DropMountKeepsFs<N>(fs: Fs<N>, canonical: string)
    requires FsOk(fs)
    ensures FsOk(DropMount(fs, canonical).0)
  {
    var i := IndexOf(fs, canonical);
    if i < |fs| && !HasMountWithin(fs, canonical) {
      RemoveKeepsTable(fs, i);
      RemoveKeepsTrees(fs, i);
    }
  }

  lemma {:induction false} RemoveKeepsTrees<N>(fs: Fs<N>, i: nat)
    requires (forall k | 0 <= k < |fs| :: WellFormed(fs[k].backend)) && i < |fs|
    ensures var ns := fs[..i] + fs[i + 1..]; forall k | 0 <= k < |ns| :: WellFormed(ns[k].backend)
  {
    var ns := fs[..i] + fs[i + 1..];
    assert forall k | 0 <= k < |ns| :: ns[k] == fs[if k < i then k else k + 1];
  }

  lemma {:induction false} UnmountKeepsFs<N>(fs: Fs<N>, cwd: string, path: string)
    requires FsOk(fs)
    ensures FsOk(UnmountAt(fs, cwd, path).0)
  {
    if fs != [] && ResolvePath(fs, cwd, path, true).Ok? {
      var r := ResolvePath(fs, cwd, path, true).value;
      DropMountKeepsFs(fs, ToAbsolute(r.mp, r.rel));
    }
  }

  /** Over every run of mounts and unmounts the table stays empty or rooted at "/", with
      distinct normal mount points, so every normal path keeps its unique deepest mount. */
  lemma {:induction false} MountRunKeepsFs<N>(fs: Fs<N>, ops: seq<MountOp<N>>)
    requires FsOk(fs) && forall i | 0 <= i < |ops| && ops[i].DoMount? :: WellFormed(ops[i].tree)
    ensures FsOk(MountRun(fs, ops))
    decreases ops
  {
    if ops != [] {
      match ops[0] {
        case DoMount(cwd, path, tree) => MountKeepsFs(fs, cwd, path, tree);
        case DoUnmount(cwd, path) => UnmountKeepsFs(fs, cwd, path);
      }
      MountRunKeepsFs(MountStep(fs, ops[0]), ops[1..]);
    }
  }
}
