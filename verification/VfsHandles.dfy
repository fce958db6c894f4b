/** Open handles pin the path to their node (kernel/src/fs/vfs.rs): every run of opens,
    closes, creations, deletions and renames keeps each node's open count equal to the
    number of handles through it. */
module VfsHandles {
  import opened VfsTree

  datatype Handle<N> = Handle(node: N, ancestors: seq<N>)

  function Chain<N>(h: Handle<N>): seq<N> {
    h.ancestors + [h.node]
  }

  /** One file system and the handles open on it. */
  datatype State<N> = State(t: Tree<N>, handles: seq<Handle<N>>)

  /** The directories a successful walk passes, starting node first. */
  function Ancestors<N(==)>(t: Tree<N>, n: N, cs: Path): seq<N>
    decreases cs
  {
    if cs == [] || !HasChild(t, n, cs[0]) then []
    else [n] + Ancestors(t, Child(t, n, cs[0]), cs[1..])
  }

  function Bumped<N(==)>(t: Tree<N>, ns: seq<N>): Tree<N> {
    t.(store := map n | n in t.store :: if n in ns then t.store[n].(openCount := t.store[n].openCount + 1) else t.store[n])
  }

  function Lowered<N(==)>(t: Tree<N>, ns: seq<N>): Tree<N> {
    t.(store := map n | n in t.store ::
        if n in ns && t.store[n].openCount > 0 then t.store[n].(openCount := t.store[n].openCount - 1) else t.store[n])
  }

  /** `open_at`: the file system with counts raised along the path, and the new handle. */
  function OpenAt<N(==)>(t: Tree<N>, cs: Path): (Tree<N>, Result<Handle<N>>) {
    match Get(t, cs)
    case Err(e) => (t, Err(e))
    case Ok(n) =>
      if n in t.store && t.store[n].kind.Symlink? then (t, Err(TooManySymlinks))
      else
        var h := Handle(n, Ancestors(t, t.root, cs));
        (Bumped(t, Chain(h)), Ok(h))
  }

  /** `close` */
  function CloseHandle<N(==)>(t: Tree<N>, h: Handle<N>): Tree<N> {
    Lowered(t, Chain(h))
  }

  predicate RootBusy<N(==)>(t: Tree<N>) {
    t.root in t.store && t.store[t.root].kind.Dir? && t.store[t.root].openCount > 0
  }

  function Count<N(==)>(hs: seq<Handle<N>>, n: N): nat {
    if hs == [] then 0 else (if n in Chain(hs[0]) then 1 else 0) + Count(hs[1..], n)
  }

  /** `cs` is a real path of the tree, and the handle records exactly the nodes along it. */
  ghost predicate OnPath<N>(t: Tree<N>, h: Handle<N>, cs: Path) {
    && |h.ancestors| == |cs|
    && (forall k | 0 <= k <= |cs| :: Get(t, cs[..k]) == Ok(Chain(h)[k]))
  }

  ghost predicate Pinned<N>(t: Tree<N>, h: Handle<N>) {
    && h.node in t.store && !t.store[h.node].kind.Symlink?
    && exists cs :: OnPath(t, h, cs)
  }

  ghost predicate Inv<N>(s: State<N>) {
    && WellFormed(s.t)
    && (forall i | 0 <= i < |s.handles| :: Pinned(s.t, s.handles[i]))
    && (forall n | n in s.t.store :: s.t.store[n].openCount == Count(s.handles, n))
  }

  // ----- Counting

  lemma {:induction false} CountAppend<N>(hs: seq<Handle<N>>, h: Handle<N>, n: N)
    ensures Count(hs + [h], n) == Count(hs, n) + if n in Chain(h) then 1 else 0
  {
    if hs == [] {
      assert [h][1..] == [] && [] + [h] == [h];
    } else {
      CountAppend(hs[1..], h, n);
      assert (hs + [h])[1..] == hs[1..] + [h];
    }
  }

  lemma {:induction false} CountRemove<N>(hs: seq<Handle<N>>, i: nat, n: N)
    requires i < |hs|
    ensures Count(hs[..i] + hs[i + 1..], n) == Count(hs, n) - if n in Chain(hs[i]) then 1 else 0
  {
    if i == 0 {
      assert hs[..0] + hs[1..] == hs[1..];
    } else {
      CountRemove(hs[1..], i - 1, n);
      assert (hs[..i] + hs[i + 1..])[1..] == hs[1..][..i - 1] + hs[1..][i..];
    }
  }

  lemma {:induction false} CountPositive<N>(hs: seq<Handle<N>>, i: nat, n: N)
    requires i < |hs| && n in Chain(hs[i])
    ensures Count(hs, n) > 0
  {
    if i > 0 { CountPositive(hs[1..], i - 1, n); }
  }

  // ----- Open and close

  /** Same nodes with the same contents, counts aside. */
  ghost predicate SameShape<N>(t: Tree<N>, u: Tree<N>) {
    && u.root == t.root && u.store.Keys == t.store.Keys
    && forall n | n in t.store :: u.store[n].kind == t.store[n].kind
  }

  lemma {:induction false} ShapeDecidesWalks<N>(t: Tree<N>, u: Tree<N>, n: N, cs: Path)
    requires SameShape(t, u)
    ensures Walk(u, n, cs) == Walk(t, n, cs)
  {
    WalkAgree(t, u, n, cs);
  }

  lemma {:induction false} ShapeDecidesTree<N>(t: Tree<N>, u: Tree<N>)
    requires SameShape(t, u) && WellFormed(t)
    ensures WellFormed(u)
  {
    forall p, a | p in u.store && HasChild(u, p, a)
      ensures HasChild(t, p, a) && Child(t, p, a) == Child(u, p, a)
    {
    }
    forall n | n in u.store ensures Reachable(u, n) {
      var cs :| Get(t, cs) == Ok(n);
      ShapeDecidesWalks(t, u, t.root, cs);
      assert Get(u, cs) == Ok(n);
    }
  }

  lemma {:induction false} ShapeKeepsPinned<N>(t: Tree<N>, u: Tree<N>, h: Handle<N>)
    requires SameShape(t, u) && Pinned(t, h)
    ensures Pinned(u, h)
  {
    var cs :| OnPath(t, h, cs);
    forall k | 0 <= k <= |cs| ensures Get(u, cs[..k]) == Ok(Chain(h)[k]) {
      ShapeDecidesWalks(t, u, t.root, cs[..k]);
    }
    assert OnPath(u, h, cs);
  }

  lemma {:induction false} AncestorsOnPath<N>(t: Tree<N>, n: N, cs: Path)
    requires Walk(t, n, cs).Ok?
    ensures |Ancestors(t, n, cs)| == |cs|
    ensures forall k | 0 <= k < |cs| :: Walk(t, n, cs[..k]) == Ok(Ancestors(t, n, cs)[k])
    decreases cs
  {
    if cs != [] {
      var m := Child(t, n, cs[0]);
      AncestorsOnPath(t, m, cs[1..]);
      forall k | 0 <= k < |cs| ensures Walk(t, n, cs[..k]) == Ok(Ancestors(t, n, cs)[k]) {
        if k > 0 {
          assert cs[..k][1..] == cs[1..][..k - 1];
          assert Walk(t, n, cs[..k]) == Walk(t, m, cs[1..][..k - 1]);
        }
      }
    }
  }

  lemma {:induction false} OpenPins<N>(t: Tree<N>, cs: Path)
    requires WellFormed(t) && OpenAt(t, cs).1.Ok?
    ensures Pinned(t, OpenAt(t, cs).1.value) && OnPath(t, OpenAt(t, cs).1.value, cs)
  {
    var h := OpenAt(t, cs).1.value;
    AncestorsOnPath(t, t.root, cs);
    WalkInStore(t, t.root, cs);
    forall k | 0 <= k <= |cs| ensures Get(t, cs[..k]) == Ok(Chain(h)[k]) {
      if k == |cs| { assert cs[..k] == cs; }
    }
    assert OnPath(t, h, cs);
  }

  lemma {:induction false} OpenKeepsInv<N>(s: State<N>, cs: Path)
    requires Inv(s) && OpenAt(s.t, cs).1.Ok?
    ensures Inv(State(OpenAt(s.t, cs).0, s.handles + [OpenAt(s.t, cs).1.value]))
  {
    var (u, r) := OpenAt(s.t, cs);
    var h := r.value;
    OpenPins(s.t, cs);
    assert SameShape(s.t, u);
    ShapeDecidesTree(s.t, u);
    var hs := s.handles + [h];
    forall i | 0 <= i < |hs| ensures Pinned(u, hs[i]) { ShapeKeepsPinned(s.t, u, hs[i]); }
    forall n | n in u.store ensures u.store[n].openCount == Count(hs, n) { CountAppend(s.handles, h, n); }
  }

  /** Every node along an open handle has a positive count, so `close` never saturates. */
  lemma {:induction false} CloseNeverSaturates<N>(s: State<N>, i: nat, n: N)
    requires Inv(s) && i < |s.handles| && n in Chain(s.handles[i])
    ensures n in s.t.store && s.t.store[n].openCount > 0
  {
    var h := s.handles[i];
    var cs :| OnPath(s.t, h, cs);
    var k :| 0 <= k < |Chain(h)| && Chain(h)[k] == n;
    assert Get(s.t, cs[..k]) == Ok(n);
    WalkInStore(s.t, s.t.root, cs[..k]);
    CountPositive(s.handles, i, n);
  }

  lemma {:induction false} CloseKeepsInv<N>(s: State<N>, i: nat)
    requires Inv(s) && i < |s.handles|
    ensures Inv(State(CloseHandle(s.t, s.handles[i]), s.handles[..i] + s.handles[i + 1..]))
  {
    var u := CloseHandle(s.t, s.handles[i]);
    var hs := s.handles[..i] + s.handles[i + 1..];
    assert SameShape(s.t, u);
    ShapeDecidesTree(s.t, u);
    forall j | 0 <= j < |hs| ensures Pinned(u, hs[j]) {
      var j' := if j < i then j else j + 1;
      assert hs[j] == s.handles[j'];
      ShapeKeepsPinned(s.t, u, hs[j]);
    }
    forall n | n in u.store ensures u.store[n].openCount == Count(hs, n) {
      CountRemove(s.handles, i, n);
      if n in Chain(s.handles[i]) { CloseNeverSaturates(s, i, n); }
    }
  }

  // ----- Operations that change the tree leave every pinned path alone

  /** A path through a node that is not busy belongs to no handle. */
  lemma {:induction false} HandlesAvoidIdle<N>(s: State<N>, i: nat, cs: Path, p: Path)
    requires Inv(s) && i < |s.handles| && OnPath(s.t, s.handles[i], cs)
    requires Get(s.t, p).Ok? && Get(s.t, p).value in s.t.store && !Busy(s.t.store[Get(s.t, p).value])
    ensures !(p <= cs)
  {
    var h := s.handles[i];
    if p <= cs {
      var x := Get(s.t, p).value;
      assert cs[..|p|] == p;
      assert Chain(h)[|p|] == x;
      CloseNeverSaturates(s, i, x);
      if |p| < |cs| {
        assert cs[..|cs|] == cs == p + cs[|p|..];
        WalkAppend(s.t, s.t.root, p, cs[|p|..]);
      }
      assert false;
    }
  }

  lemma {:induction false} PathsKeepPinned<N>(t: Tree<N>, u: Tree<N>, h: Handle<N>, cs: Path)
    requires Pinned(t, h) && OnPath(t, h, cs)
    requires forall k | 0 <= k <= |cs| :: Get(u, cs[..k]) == Get(t, cs[..k])
    requires h.node in u.store && !u.store[h.node].kind.Symlink?
    ensures Pinned(u, h)
  {
    assert OnPath(u, h, cs);
  }

  lemma {:induction false} PrefixOfPrefix(p: Path, cs: Path, k: nat)
    requires k <= |cs| && !(p <= cs)
    ensures !(p <= cs[..k])
  {
  }

  lemma {:induction false} RenameKeepsInv<N>(s: State<N>, f: Path, a: string, d: Path, b: string)
    requires Inv(s) && RenameIn(s.t, f, a, d, b).1.Renamed? && !IntoItself(f, a, d)
    ensures Inv(State(RenameIn(s.t, f, a, d, b).0, s.handles))
  {
    SuccessKeepsTreeIff(s.t, f, a, d, b);
    RenameKeepsCounts(s.t, f, a, d, b);
    forall i | 0 <= i < |s.handles| ensures Pinned(RenameIn(s.t, f, a, d, b).0, s.handles[i]) {
      var cs :| OnPath(s.t, s.handles[i], cs);
      RenameKeepsHandle(s, i, cs, f, a, d, b);
    }
  }

  lemma {:induction false} RenameKeepsCounts<N>(t: Tree<N>, f: Path, a: string, d: Path, b: string)
    requires Shaped(t) && RenameIn(t, f, a, d, b).1.Renamed?
    ensures var u := RenameIn(t, f, a, d, b).0;
            u.store.Keys == t.store.Keys && forall n | n in t.store ::
              u.store[n].openCount == t.store[n].openCount && u.store[n].kind.Symlink? == t.store[n].kind.Symlink?
  {
    RenameKeepsShape(t, f, a, d, b);
  }

  /** An open handle is never on the path that moves, so its own path stays. */
  lemma {:induction false} RenameKeepsHandle<N>(s: State<N>, i: nat, cs: Path, f: Path, a: string, d: Path, b: string)
    requires Inv(s) && RenameIn(s.t, f, a, d, b).1.Renamed? && !IntoItself(f, a, d)
    requires i < |s.handles| && OnPath(s.t, s.handles[i], cs)
    ensures Pinned(RenameIn(s.t, f, a, d, b).0, s.handles[i])
  {
    var u, h := RenameIn(s.t, f, a, d, b).0, s.handles[i];
    WalkOne(s.t, Get(s.t, f).value, a);
    WalkAppend(s.t, s.t.root, f, [a]);
    HandlesAvoidIdle(s, i, cs, f + [a]);
    assert cs[..|cs|] == cs;
    if !SameName(f, a, d, b) { NewNameWasFree(s.t, f, a, d, b, cs); }
    forall k | 0 <= k <= |cs| ensures Get(u, cs[..k]) == Get(s.t, cs[..k]) {
      PrefixOfPrefix(f + [a], cs, k);
      PrefixOfPrefix(d + [b], cs, k);
      MovedElsewhere(s.t, f, a, d, b, cs[..k]);
    }
    PathsKeepPinned(s.t, u, h, cs);
  }

  lemma {:induction false} DeleteKeepsInv<N>(s: State<N>, p: Path, leaf: string)
    requires Inv(s) && DeleteIn(s.t, p, leaf).1.Ok?
    ensures Inv(State(DeleteIn(s.t, p, leaf).0, s.handles))
  {
    var u := DeleteIn(s.t, p, leaf).0;
    var x := Child(s.t, Get(s.t, p).value, leaf);
    DeleteKeepsTree(s.t, p, leaf);
    WalkOne(s.t, Get(s.t, p).value, leaf);
    WalkAppend(s.t, s.t.root, p, [leaf]);
    forall i | 0 <= i < |s.handles| ensures Pinned(u, s.handles[i]) {
      var h := s.handles[i];
      var cs :| OnPath(s.t, h, cs);
      HandlesAvoidIdle(s, i, cs, p + [leaf]);
      assert cs[..|cs|] == cs;
      assert h.node != x by { if h.node == x { UniquePath(s.t, cs, p + [leaf]); } }
      forall k | 0 <= k <= |cs| ensures Get(u, cs[..k]) == Get(s.t, cs[..k]) {
        PrefixOfPrefix(p + [leaf], cs, k);
        DeleteElsewhere(s.t, p, leaf, cs[..k]);
      }
      PathsKeepPinned(s.t, u, h, cs);
    }
  }

  lemma {:induction false} CreateKeepsInv<N>(s: State<N>, p: Path, leaf: string, x: N, node: Node<N>)
    requires Inv(s) && x !in s.t.store && Childless(node) && node.openCount == 0
    requires CreateIn(s.t, p, leaf, x, node).1.Ok?
    ensures Inv(State(CreateIn(s.t, p, leaf, x, node).0, s.handles))
  {
    var u := CreateIn(s.t, p, leaf, x, node).0;
    CreateKeepsTree(s.t, p, leaf, x, node);
    forall i | 0 <= i < |s.handles| ensures Pinned(u, s.handles[i]) && x !in Chain(s.handles[i]) {
      var h := s.handles[i];
      var cs :| OnPath(s.t, h, cs);
      forall k | 0 <= k <= |cs| ensures Get(u, cs[..k]) == Get(s.t, cs[..k]) && Chain(h)[k] != x {
        if p + [leaf] <= cs[..k] { NothingThere(s.t, p, leaf, cs[..k]); }
        CreateElsewhere(s.t, p, leaf, x, node, cs[..k]);
        WalkInStore(s.t, s.t.root, cs[..k]);
      }
      PathsKeepPinned(s.t, u, h, cs);
    }
    CountZero(s.handles, x);
  }

  lemma {:induction false} CountZero<N>(hs: seq<Handle<N>>, n: N)
    requires forall i | 0 <= i < |hs| :: n !in Chain(hs[i])
    ensures Count(hs, n) == 0
  {
    if hs != [] {
      forall i | 0 <= i < |hs[1..]| ensures n !in Chain(hs[1..][i]) { assert hs[1..][i] == hs[i + 1]; }
      CountZero(hs[1..], n);
    }
  }

  // ----- Whole runs

  datatype Op<N> =
    | Open(path: Path)
    | Close(i: nat)
    | Create(path: Path, leaf: string, x: N, node: Node<N>)
    | Delete(path: Path, leaf: string)
    | Rename(path: Path, leaf: string, toPath: Path, toLeaf: string)

  /** A close names an open handle, a creation brings a fresh, empty, unopened node, and a
      rename does not move a directory into itself (`VfsTree.RenameHangsIff`, `VfsTree.RenameKeepsTreeIff`). */
  ghost predicate Permitted<N>(s: State<N>, op: Op<N>) {
    match op
    case Open(_) => true
    case Close(i) => i < |s.handles|
    case Create(_, _, x, node) => x !in s.t.store && Childless(node) && node.openCount == 0
    case Delete(_, _) => true
    case Rename(path, leaf, toPath, _) => !IntoItself(path, leaf, toPath)
  }

  function Step<N(==)>(s: State<N>, op: Op<N>): State<N> {
    match op
    case Open(path) =>
      var (u, r) := OpenAt(s.t, path);
      State(u, if r.Ok? then s.handles + [r.value] else s.handles)
    case Close(i) =>
      if i < |s.handles| then State(CloseHandle(s.t, s.handles[i]), s.handles[..i] + s.handles[i + 1..]) else s
    case Create(path, leaf, x, node) => State(CreateIn(s.t, path, leaf, x, node).0, s.handles)
    case Delete(path, leaf) => State(DeleteIn(s.t, path, leaf).0, s.handles)
    case Rename(path, leaf, toPath, toLeaf) => State(RenameIn(s.t, path, leaf, toPath, toLeaf).0, s.handles)
  }

  ghost predicate AllPermitted<N>(s: State<N>, ops: seq<Op<N>>)
    decreases ops
  {
    ops != [] ==> Permitted(s, ops[0]) && AllPermitted(Step(s, ops[0]), ops[1..])
  }

  function Run<N(==)>(s: State<N>, ops: seq<Op<N>>): State<N>
    decreases ops
  {
    if ops == [] then s else Run(Step(s, ops[0]), ops[1..])
  }

  lemma {:induction false} OpenStep<N>(s: State<N>, path: Path)
    requires Inv(s)
    ensures Inv(Step(s, Open(path)))
  {
    if OpenAt(s.t, path).1.Ok? { OpenKeepsInv(s, path); }
  }

  lemma {:induction false} CreateStep<N>(s: State<N>, path: Path, leaf: string, x: N, node: Node<N>)
    requires Inv(s) && Permitted(s, Create(path, leaf, x, node))
    ensures Inv(Step(s, Create(path, leaf, x, node)))
  {
    if CreateIn(s.t, path, leaf, x, node).1.Ok? { CreateKeepsInv(s, path, leaf, x, node); }
  }

  lemma {:induction false} DeleteStep<N>(s: State<N>, path: Path, leaf: string)
    requires Inv(s)
    ensures Inv(Step(s, Delete(path, leaf)))
  {
    if DeleteIn(s.t, path, leaf).1.Ok? { DeleteKeepsInv(s, path, leaf); }
  }

  lemma {:induction false} RenameStep<N>(s: State<N>, path: Path, leaf: string, toPath: Path, toLeaf: string)
    requires Inv(s) && !IntoItself(path, leaf, toPath)
    ensures Inv(Step(s, Rename(path, leaf, toPath, toLeaf)))
  {
    if RenameIn(s.t, path, leaf, toPath, toLeaf).1.Renamed? {
      RenameKeepsInv(s, path, leaf, toPath, toLeaf);
      assert Step(s, Rename(path, leaf, toPath, toLeaf)) == State(RenameIn(s.t, path, leaf, toPath, toLeaf).0, s.handles);
    } else {
      RefusedStep(s, path, leaf, toPath, toLeaf);
    }
  }

  lemma {:induction false} RefusedStep<N>(s: State<N>, path: Path, leaf: string, toPath: Path, toLeaf: string)
    requires !RenameIn(s.t, path, leaf, toPath, toLeaf).1.Renamed?
    ensures Step(s, Rename(path, leaf, toPath, toLeaf)) == s
  {
    FailureChangesNothing(s.t, path, leaf, toPath, toLeaf, s.t.root, Node(0, Dir(map[]), 0));
  }

  lemma {:induction false} StepKeepsInv<N>(s: State<N>, op: Op<N>)
    requires Inv(s) && Permitted(s, op)
    ensures Inv(Step(s, op))
  {
    match op {
      case Open(path) => OpenStep(s, path);
      case Close(i) => CloseKeepsInv(s, i);
      case Create(path, leaf, x, node) => CreateStep(s, path, leaf, x, node);
      case Delete(path, leaf) => DeleteStep(s, path, leaf);
      case Rename(path, leaf, toPath, toLeaf) => RenameStep(s, path, leaf, toPath, toLeaf);
    }
  }

  lemma {:induction false} RunKeepsInv<N>(s: State<N>, ops: seq<Op<N>>)
    requires Inv(s) && AllPermitted(s, ops)
    ensures Inv(Run(s, ops))
    decreases ops
  {
    if ops != [] {
      StepKeepsInv(s, ops[0]);
      RunKeepsInv(Step(s, ops[0]), ops[1..]);
    }
  }

  /** A new file system: an empty root directory. */
  function Fresh<N(==)>(root: N, mode: bv16): State<N> {
    State(Tree(root, map[root := Node(mode, Dir(map[]), 0)]), [])
  }

  lemma {:induction false} FreshInv<N>(root: N, mode: bv16)
    ensures Inv(Fresh(root, mode))
  {
    var s := Fresh(root, mode);
    assert Get(s.t, []) == Ok(root);
  }

  /** The promise over every run from a fresh file system: each node's count is the number
      of open handles through it, and every handle still records a real path from the root. */
  lemma {:induction false} CountsMatchHandles<N>(root: N, mode: bv16, ops: seq<Op<N>>, n: N, i: nat)
    requires AllPermitted(Fresh(root, mode), ops)
    ensures var s := Run(Fresh(root, mode), ops);
            && (n in s.t.store ==> s.t.store[n].openCount == Count(s.handles, n))
            && (i < |s.handles| ==> Pinned(s.t, s.handles[i]))
  {
    FreshInv(root, mode);
    RunKeepsInv(Fresh(root, mode), ops);
  }

  /** `root_busy` tells exactly whether any handle is open. */
  lemma {:induction false} RootBusyIffOpen<N>(s: State<N>)
    requires Inv(s)
    ensures RootBusy(s.t) <==> s.handles != []
  {
    if s.handles != [] {
      var h := s.handles[0];
      var cs :| OnPath(s.t, h, cs);
      assert Get(s.t, cs[..0]) == Ok(Chain(h)[0]);
      CountPositive(s.handles, 0, s.t.root);
    }
  }
}
