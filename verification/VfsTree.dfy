/** The node tree of the in-memory file system (kernel/src/fs/vfs.rs), as a value: a store
    from node identities to node contents. `Vfs` keeps the same information in heap objects
    and is proved to perform these operations. */
module VfsTree {
  import opened Basics

  datatype Error =
    | NotFound | NotADirectory | InvalidArgument | FileExists | FileBusy | NotEmpty | TooManySymlinks | Unsupported

  datatype Result<+T> = Ok(value: T) | Err(error: Error)

  type Bytes = seq<int>

  datatype Kind<N> =
    | File(data: Bytes)
    | Dir(children: map<string, N>)
    | Symlink(target: string)

  /** `openCount` is meaningful for files and directories only; it stays 0 for symlinks. */
  datatype Node<N> = Node(mode: bv16, kind: Kind<N>, openCount: nat)

  datatype Tree<N> = Tree(root: N, store: map<N, Node<N>>)

  type Path = seq<string>

  /** Is there an edge named `a` from `p`, and to where? */
  predicate HasChild<N(==)>(t: Tree<N>, p: N, a: string) {
    p in t.store && t.store[p].kind.Dir? && a in t.store[p].kind.children
  }

  function Child<N(==)>(t: Tree<N>, p: N, a: string): N
    requires HasChild(t, p, a)
  {
    t.store[p].kind.children[a]
  }

  /** `raw_get` from node `n`: follow the components, no symlink resolution. */
  function Walk<N(==)>(t: Tree<N>, n: N, cs: Path): Result<N>
    decreases cs
  {
    if cs == [] then Ok(n)
    else if n !in t.store || !t.store[n].kind.Dir? then Err(NotADirectory)
    else if cs[0] !in t.store[n].kind.children then Err(NotFound)
    else Walk(t, t.store[n].kind.children[cs[0]], cs[1..])
  }

  function Get<N(==)>(t: Tree<N>, cs: Path): Result<N> {
    Walk(t, t.root, cs)
  }

  /** A tree: a directory at the root, every edge inside the store, at most one edge into a
      node and none into the root, and every node reachable from the root. */
  ghost predicate WellFormed<N>(t: Tree<N>) {
    && Shaped(t)
    && (forall n :: n in t.store ==> Reachable(t, n))
  }

  ghost predicate Shaped<N>(t: Tree<N>) {
    && t.root in t.store && t.store[t.root].kind.Dir?
    && (forall p, a | p in t.store && HasChild(t, p, a) :: Child(t, p, a) in t.store && Child(t, p, a) != t.root)
    && (forall p, a, q, b | p in t.store && q in t.store && HasChild(t, p, a) && HasChild(t, q, b) ::
          Child(t, p, a) == Child(t, q, b) ==> p == q && a == b)
  }

  ghost predicate Reachable<N>(t: Tree<N>, n: N) {
    exists cs :: Get(t, cs) == Ok(n)
  }

  // ----- Walks

  lemma {:induction false} WalkAppend<N>(t: Tree<N>, n: N, cs: Path, ds: Path)
    ensures Walk(t, n, cs + ds) ==
              if Walk(t, n, cs).Ok? then Walk(t, Walk(t, n, cs).value, ds) else Walk(t, n, cs)
    decreases cs
  {
    if cs == [] {
      assert cs + ds == ds;
    } else {
      assert (cs + ds)[1..] == cs[1..] + ds;
      if HasChild(t, n, cs[0]) { WalkAppend(t, Child(t, n, cs[0]), cs[1..], ds); }
    }
  }

  lemma {:induction false} WalkOne<N>(t: Tree<N>, n: N, a: string)
    ensures Walk(t, n, [a]) == if HasChild(t, n, a) then Ok(Child(t, n, a))
                               else if n in t.store && t.store[n].kind.Dir? then Err(NotFound) else Err(NotADirectory)
  {
    assert [a][1..] == [];
  }

  /** The last edge of a successful walk. */
  lemma {:induction false} WalkLast<N>(t: Tree<N>, n: N, cs: Path)
    requires cs != [] && Walk(t, n, cs).Ok?
    ensures var d, a := cs[..|cs| - 1], cs[|cs| - 1];
            Walk(t, n, d).Ok? && HasChild(t, Walk(t, n, d).value, a) &&
            Walk(t, n, cs).value == Child(t, Walk(t, n, d).value, a)
  {
    var d, a := cs[..|cs| - 1], cs[|cs| - 1];
    assert cs == d + [a];
    WalkAppend(t, n, d, [a]);
    if Walk(t, n, d).Ok? { WalkOne(t, Walk(t, n, d).value, a); }
  }

  /** Two paths to one node are the same path. */
  lemma {:induction false} UniquePath<N>(t: Tree<N>, cs: Path, ds: Path)
    requires Shaped(t) && Get(t, cs).Ok? && Get(t, cs) == Get(t, ds)
    ensures cs == ds
    decreases |cs| + |ds|
  {
    if cs != [] { WalkLast(t, t.root, cs); }
    if ds != [] { WalkLast(t, t.root, ds); }
    if cs != [] && ds != [] {
      UniquePath(t, cs[..|cs| - 1], ds[..|ds| - 1]);
      assert cs == cs[..|cs| - 1] + [cs[|cs| - 1]] && ds == ds[..|ds| - 1] + [ds[|ds| - 1]];
    }
  }

  lemma {:induction false} WalkInStore<N>(t: Tree<N>, n: N, cs: Path)
    requires Shaped(t) && n in t.store && Walk(t, n, cs).Ok?
    ensures Walk(t, n, cs).value in t.store
    decreases cs
  {
    if cs != [] { WalkInStore(t, Child(t, n, cs[0]), cs[1..]); }
  }

  /** `u` answers a lookup of `a` at `m` as `t` does. */
  predicate Agree<N(==)>(t: Tree<N>, u: Tree<N>, m: N, a: string) {
    && (m in t.store && t.store[m].kind.Dir? <==> m in u.store && u.store[m].kind.Dir?)
    && (HasChild(t, m, a) <==> HasChild(u, m, a))
    && (HasChild(t, m, a) ==> Child(t, m, a) == Child(u, m, a))
  }

  /** Trees that agree at every step of a walk agree on its outcome. */
  lemma {:induction false} WalkAgree<N>(t: Tree<N>, u: Tree<N>, n: N, cs: Path)
    requires forall k | 0 <= k < |cs| && Walk(t, n, cs[..k]).Ok? :: Agree(t, u, Walk(t, n, cs[..k]).value, cs[k])
    ensures Walk(u, n, cs) == Walk(t, n, cs)
    decreases cs
  {
    if cs != [] {
      assert cs[..0] == [];
      assert Agree(t, u, n, cs[0]);
      if HasChild(t, n, cs[0]) {
        var m := Child(t, n, cs[0]);
        forall k | 0 <= k < |cs[1..]| && Walk(t, m, cs[1..][..k]).Ok?
          ensures Agree(t, u, Walk(t, m, cs[1..][..k]).value, cs[1..][k])
        {
          assert cs[..k + 1][1..] == cs[1..][..k];
          assert Walk(t, n, cs[..k + 1]) == Walk(t, m, cs[1..][..k]);
        }
        WalkAgree(t, u, m, cs[1..]);
      }
    }
  }

  // ----- Operations on an already looked-up directory

  function WithChildren<N(==)>(t: Tree<N>, p: N, children: map<string, N>): Tree<N>
    requires p in t.store
  {
    t.(store := t.store[p := t.store[p].(kind := Dir(children))])
  }

  function Inserted<N(==)>(t: Tree<N>, p: N, a: string, x: N): Tree<N>
    requires p in t.store && t.store[p].kind.Dir?
  {
    WithChildren(t, p, t.store[p].kind.children[a := x])
  }

  function Removed<N(==)>(t: Tree<N>, p: N, a: string): Tree<N>
    requires p in t.store && t.store[p].kind.Dir?
  {
    WithChildren(t, p, t.store[p].kind.children - {a})
  }

  /** `create_file_in`, `mkdir_in` and `create_symlink_in`, for a fresh node `x`. */
  function CreateIn<N(==)>(t: Tree<N>, parent: Path, leaf: string, x: N, node: Node<N>): (Tree<N>, Result<()>) {
    if leaf == "" then (t, Err(InvalidArgument))
    else match Get(t, parent)
      case Err(e) => (t, Err(e))
      case Ok(p) =>
        if p !in t.store || !t.store[p].kind.Dir? then (t, Err(NotADirectory))
        else if leaf in t.store[p].kind.children then (t, Err(FileExists))
        else
          var u := Inserted(t, p, leaf, x);
          (u.(store := u.store[x := node]), Ok(()))
  }

  /** Refused when open, or a directory that is not empty. */
  function DeleteRefusal<N(==)>(n: Node<N>): Option<Error> {
    match n.kind
    case File(_) => if n.openCount > 0 then Some(FileBusy) else None
    case Dir(children) => if children != map[] then Some(NotEmpty) else if n.openCount > 0 then Some(FileBusy) else None
    case Symlink(_) => None
  }

  predicate Busy<N(==)>(n: Node<N>) {
    !n.kind.Symlink? && n.openCount > 0
  }

  function DeleteIn<N(==)>(t: Tree<N>, parent: Path, leaf: string): (Tree<N>, Result<()>) {
    if leaf == "" then (t, Err(InvalidArgument))
    else match Get(t, parent)
      case Err(e) => (t, Err(e))
      case Ok(p) =>
        if p !in t.store || !t.store[p].kind.Dir? then (t, Err(NotADirectory))
        else if leaf !in t.store[p].kind.children then (t, Err(NotFound))
        else
          var x := t.store[p].kind.children[leaf];
          if x !in t.store then (t, Err(NotFound))
          else if DeleteRefusal(t.store[x]).Some? then (t, Err(DeleteRefusal(t.store[x]).value))
          else
            var u := Removed(t, p, leaf);
            (u.(store := u.store - {x}), Ok(()))
  }

  /** `Hangs` is a call that never returns: it spins on a lock it holds itself. */
  datatype RenameOutcome = Renamed | Refused(error: Error) | Hangs

  /** The checks of `rename_in` on the two parents. The directory checks of distinct parents
      happen in address order, but both fail with the same error. Both parents stay locked while
      the busy check locks the moved node, so a destination parent that is the moved node is
      never unlocked. */
  function MoveOutcome<N(==)>(t: Tree<N>, fp: N, from: string, tp: N, to: string): (o: RenameOutcome)
    ensures o.Renamed? ==> HasChild(t, fp, from) && tp in t.store && t.store[tp].kind.Dir?
  {
    if fp !in t.store || !t.store[fp].kind.Dir? || tp !in t.store || !t.store[tp].kind.Dir? then Refused(NotADirectory)
    else if from !in t.store[fp].kind.children then Refused(NotFound)
    else
      var x := t.store[fp].kind.children[from];
      if x !in t.store then Refused(NotFound)
      else if x == tp then Hangs
      else if Busy(t.store[x]) then Refused(FileBusy)
      else if to in t.store[tp].kind.children && !(fp == tp && to == from) then Refused(FileExists)
      else Renamed
  }

  /** `rename_in` */
  function RenameIn<N(==)>(t: Tree<N>, fromParent: Path, from: string, toParent: Path, to: string): (Tree<N>, RenameOutcome) {
    if from == "" || to == "" then (t, Refused(InvalidArgument))
    else match Get(t, fromParent)
      case Err(e) => (t, Refused(e))
      case Ok(fp) => match Get(t, toParent)
        case Err(e) => (t, Refused(e))
        case Ok(tp) =>
          var o := MoveOutcome(t, fp, from, tp, to);
          (if o.Renamed? then Moved(t, fp, from, tp, to) else t, o)
  }

  function Moved<N(==)>(t: Tree<N>, fp: N, from: string, tp: N, to: string): Tree<N>
    requires HasChild(t, fp, from) && tp in t.store && t.store[tp].kind.Dir?
  {
    var x := Child(t, fp, from);
    Inserted(Removed(t, fp, from), tp, to, x)
  }

  // ----- Failing operations change nothing

  /** Looking a name up under a resolved directory. */
  lemma {:induction false} NameUnder<N>(t: Tree<N>, p: Path, leaf: string)
    requires Get(t, p).Ok?
    ensures Get(t, p + [leaf]).Ok? <==> HasChild(t, Get(t, p).value, leaf)
    ensures Get(t, p + [leaf]).Ok? ==> Get(t, p + [leaf]).value == Child(t, Get(t, p).value, leaf)
    ensures Get(t, p + [leaf]) == Err(NotFound) <==>
              var n := Get(t, p).value; n in t.store && t.store[n].kind.Dir? && leaf !in t.store[n].kind.children
  {
    WalkAppend(t, t.root, p, [leaf]);
    WalkOne(t, Get(t, p).value, leaf);
  }

  /** A creation succeeds exactly where the directory resolves and the name does not. */
  lemma {:induction false} CreateOkIff<N>(t: Tree<N>, p: Path, leaf: string, x: N, node: Node<N>)
    ensures CreateIn(t, p, leaf, x, node).1.Ok? <==> leaf != "" && Get(t, p).Ok? && Get(t, p + [leaf]) == Err(NotFound)
    ensures CreateIn(t, p, leaf, x, node).1 == Err(FileExists) ==> Get(t, p + [leaf]).Ok?
  {
    if Get(t, p).Ok? { NameUnder(t, p, leaf); } else { WalkFails(t, t.root, p, FileExists); }
  }

  /** A lookup fails only for a missing name or a non-directory on the way. */
  lemma {:induction false} WalkFails<N>(t: Tree<N>, n: N, cs: Path, e: Error)
    requires e != NotFound && e != NotADirectory
    ensures Walk(t, n, cs) != Err(e)
    decreases cs
  {
    if cs != [] && HasChild(t, n, cs[0]) { WalkFails(t, Child(t, n, cs[0]), cs[1..], e); }
  }

  /** A deletion succeeds exactly for a name whose node is neither open nor a directory with
      entries. */
  lemma {:induction false} DeleteOkIff<N>(t: Tree<N>, p: Path, leaf: string)
    requires Shaped(t)
    ensures DeleteIn(t, p, leaf).1.Ok? <==>
              && leaf != "" && Get(t, p).Ok? && Get(t, p + [leaf]).Ok?
              && var n := Get(t, p + [leaf]).value;
                 n in t.store && !Busy(t.store[n]) && (t.store[n].kind.Dir? ==> t.store[n].kind.children == map[])
  {
    if Get(t, p).Ok? { NameUnder(t, p, leaf); }
  }

  /** A rename succeeds exactly for a source that is not open, a free, or the same, name, and a
      destination directory other than the source. */
  lemma {:induction false} RenameOkIff<N>(t: Tree<N>, f: Path, a: string, d: Path, b: string)
    requires Shaped(t)
    ensures RenameIn(t, f, a, d, b).1.Renamed? <==>
              && a != "" && b != "" && Get(t, f).Ok? && Get(t, d).Ok? && Get(t, f + [a]).Ok? && d != f + [a]
              && Get(t, f + [a]).value in t.store && !Busy(t.store[Get(t, f + [a]).value])
              && (Get(t, d + [b]) == Err(NotFound) || (f == d && a == b))
  {
    if Get(t, f).Ok? && Get(t, d).Ok? {
      NameUnder(t, f, a);
      NameUnder(t, d, b);
      if Get(t, f) == Get(t, d) { UniquePath(t, f, d); }
      if Get(t, f + [a]).Ok? && Get(t, f + [a]) == Get(t, d) { UniquePath(t, f + [a], d); }
    }
  }

  /** A rename never returns exactly when the destination directory is the directory to be
      moved, whether it is open or not and whether the new name is free or not. */
  lemma {:induction false} RenameHangsIff<N>(t: Tree<N>, f: Path, a: string, d: Path, b: string)
    requires Shaped(t)
    ensures RenameIn(t, f, a, d, b).1.Hangs? <==>
              && a != "" && b != "" && d == f + [a] && Get(t, d).Ok?
              && Get(t, d).value in t.store && t.store[Get(t, d).value].kind.Dir?
  {
    if Get(t, f).Ok? {
      NameUnder(t, f, a);
      if Get(t, f + [a]).Ok? && Get(t, f + [a]) == Get(t, d) { UniquePath(t, f + [a], d); }
      if HasChild(t, Get(t, f).value, a) { WalkInStore(t, t.root, f); }
    } else {
      WalkAppend(t, t.root, f, [a]);
    }
  }

  // ----- Which error, exactly

  /** The walk gets as far as component `k`, where the node has the name or it has not. */
  ghost predicate FailsAt<N>(t: Tree<N>, n: N, cs: Path, k: nat, e: Error) {
    && k < |cs| && Walk(t, n, cs[..k]).Ok?
    && var m := Walk(t, n, cs[..k]).value;
       if e == NotADirectory then !(m in t.store && t.store[m].kind.Dir?)
       else e == NotFound && m in t.store && t.store[m].kind.Dir? && cs[k] !in t.store[m].kind.children
  }

  /** A lookup fails where a node on the way is no directory, or has no such name. */
  lemma {:induction false} WalkStops<N>(t: Tree<N>, n: N, cs: Path)
    ensures Walk(t, n, cs).Err? ==> exists k: nat :: FailsAt(t, n, cs, k, Walk(t, n, cs).error)
    decreases cs
  {
    if cs != [] {
      if HasChild(t, n, cs[0]) {
        var m := Child(t, n, cs[0]);
        WalkStops(t, m, cs[1..]);
        if Walk(t, n, cs).Err? {
          var k: nat :| FailsAt(t, m, cs[1..], k, Walk(t, m, cs[1..]).error);
          assert cs[..k + 1][1..] == cs[1..][..k] && cs[..k + 1][0] == cs[0];
          assert FailsAt(t, n, cs, k + 1, Walk(t, n, cs).error);
        }
      } else {
        assert cs[..0] == [];
        assert FailsAt(t, n, cs, 0, Walk(t, n, cs).error);
      }
    }
  }

  /** Each error of a creation by the lookup that explains it: only a missing parent is not
      found, and an existing name is refused. */
  lemma {:induction false} CreateErrors<N>(t: Tree<N>, p: Path, leaf: string, x: N, node: Node<N>)
    ensures var r := CreateIn(t, p, leaf, x, node).1;
            && (r == Err(InvalidArgument) <==> leaf == "")
            && (r == Err(NotFound) <==> leaf != "" && Get(t, p) == Err(NotFound))
            && (r == Err(NotADirectory) <==> leaf != "" && Get(t, p + [leaf]) == Err(NotADirectory))
            && (r == Err(FileExists) <==> leaf != "" && Get(t, p + [leaf]).Ok?)
  {
    WalkAppend(t, t.root, p, [leaf]);
    if Get(t, p).Ok? { WalkOne(t, Get(t, p).value, leaf); } else { WalkErrors(t, p); }
  }

  lemma {:induction false} WalkErrors<N>(t: Tree<N>, cs: Path)
    ensures Get(t, cs).Ok? || Get(t, cs) == Err(NotFound) || Get(t, cs) == Err(NotADirectory)
  {
    if Get(t, cs).Err? && Get(t, cs).error != NotFound && Get(t, cs).error != NotADirectory {
      WalkFails(t, t.root, cs, Get(t, cs).error);
    }
  }

  /** Each error of a deletion: the whole path decides a missing name or a non-directory on the
      way, a directory with entries is not empty whether open or not, and anything else that is
      open is busy. */
  lemma {:induction false} DeleteErrors<N>(t: Tree<N>, p: Path, leaf: string)
    requires Shaped(t)
    ensures var r, g := DeleteIn(t, p, leaf).1, Get(t, p + [leaf]);
            && (r == Err(InvalidArgument) <==> leaf == "")
            && (r == Err(NotFound) <==> leaf != "" && g == Err(NotFound))
            && (r == Err(NotADirectory) <==> leaf != "" && g == Err(NotADirectory))
            && (r == Err(NotEmpty) <==> leaf != "" && g.Ok? && HasEntries(t, g.value))
            && (r == Err(FileBusy) <==> leaf != "" && g.Ok? && !HasEntries(t, g.value) && IsOpen(t, g.value))
  {
    WalkAppend(t, t.root, p, [leaf]);
    if Get(t, p).Ok? {
      WalkOne(t, Get(t, p).value, leaf);
      WalkInStore(t, t.root, p);
    } else {
      WalkErrors(t, p);
    }
  }

  predicate HasEntries<N(==)>(t: Tree<N>, n: N) {
    n in t.store && t.store[n].kind.Dir? && |t.store[n].kind.children| > 0
  }

  /** Symlinks are never open. */
  predicate IsOpen<N(==)>(t: Tree<N>, n: N) {
    n in t.store && (t.store[n].kind.File? || t.store[n].kind.Dir?) && t.store[n].openCount > 0
  }

  /** Each refusal of a rename, in the order of its checks: empty names, the two parents, the
      source, an open source, a taken name. */
  lemma {:induction false} RenameErrors<N>(t: Tree<N>, f: Path, a: string, d: Path, b: string)
    requires Shaped(t)
    ensures var r := RenameIn(t, f, a, d, b).1;
            var named := a != "" && b != "";
            var parents := Get(t, f).Ok? && Get(t, d).Ok? && IsDir(t, Get(t, f).value) && IsDir(t, Get(t, d).value);
            var found := named && parents && Get(t, f + [a]).Ok? && d != f + [a];
            && (!named ==> r == Refused(InvalidArgument))
            && (named && Get(t, f).Err? ==> r == Refused(Get(t, f).error))
            && (named && Get(t, f).Ok? && Get(t, d).Err? ==> r == Refused(Get(t, d).error))
            && (named && Get(t, f).Ok? && Get(t, d).Ok? && !parents ==> r == Refused(NotADirectory))
            && (named && parents && Get(t, f + [a]).Err? ==> r == Refused(NotFound))
            && (found && IsOpen(t, Get(t, f + [a]).value) ==> r == Refused(FileBusy))
            && (found && !IsOpen(t, Get(t, f + [a]).value) && Get(t, d + [b]).Ok? && !SameName(f, a, d, b) ==> r == Refused(FileExists))
  {
    if Get(t, f).Ok? && Get(t, d).Ok? {
      NameUnder(t, f, a);
      NameUnder(t, d, b);
      WalkInStore(t, t.root, f);
      WalkInStore(t, t.root, d);
      if Get(t, f) == Get(t, d) { UniquePath(t, f, d); }
      if Get(t, f + [a]).Ok? && Get(t, f + [a]) == Get(t, d) { UniquePath(t, f + [a], d); }
    }
  }

  predicate IsDir<N(==)>(t: Tree<N>, n: N) {
    n in t.store && t.store[n].kind.Dir?
  }

  lemma {:induction false} FailureChangesNothing<N>(t: Tree<N>, p: Path, a: string, q: Path, b: string, x: N, node: Node<N>)
    ensures CreateIn(t, p, a, x, node).1.Err? ==> CreateIn(t, p, a, x, node).0 == t
    ensures DeleteIn(t, p, a).1.Err? ==> DeleteIn(t, p, a).0 == t
    ensures !RenameIn(t, p, a, q, b).1.Renamed? ==> RenameIn(t, p, a, q, b).0 == t
  {
  }

  // ----- Rename

  /** The destination directory lies in the subtree being moved. */
  predicate IntoItself(fromParent: Path, from: string, toParent: Path) {
    fromParent + [from] <= toParent
  }

  predicate SameName(fromParent: Path, from: string, toParent: Path, to: string) {
    fromParent == toParent && from == to
  }

  /** A lookup that passes neither the old nor the new name is untouched. */
  lemma {:induction false} MovedElsewhere<N>(t: Tree<N>, f: Path, a: string, d: Path, b: string, cs: Path)
    requires Shaped(t) && RenameIn(t, f, a, d, b).1.Renamed?
    requires !(f + [a] <= cs) && !(d + [b] <= cs)
    ensures Get(RenameIn(t, f, a, d, b).0, cs) == Get(t, cs)
  {
    var u := RenameIn(t, f, a, d, b).0;
    var fp, tp := Get(t, f).value, Get(t, d).value;
    forall k | 0 <= k < |cs| && Get(t, cs[..k]).Ok?
      ensures Agree(t, u, Get(t, cs[..k]).value, cs[k])
    {
      var m := Get(t, cs[..k]).value;
      assert cs[..k + 1] == cs[..k] + [cs[k]];
      if m == fp { UniquePath(t, cs[..k], f); }
      if m == tp { UniquePath(t, cs[..k], d); }
    }
    WalkAgree(t, u, t.root, cs);
  }

  /** Inside the moved subtree nothing changes either, unless it was moved into itself. */
  lemma {:induction false} MovedInside<N>(t: Tree<N>, f: Path, a: string, d: Path, b: string, rest: Path)
    requires Shaped(t) && RenameIn(t, f, a, d, b).1.Renamed? && !IntoItself(f, a, d)
    ensures var x := Child(t, Get(t, f).value, a);
            Walk(RenameIn(t, f, a, d, b).0, x, rest) == Walk(t, x, rest)
  {
    var u := RenameIn(t, f, a, d, b).0;
    var fp, tp := Get(t, f).value, Get(t, d).value;
    var x := Child(t, fp, a);
    WalkOne(t, fp, a);
    WalkAppend(t, t.root, f, [a]);
    forall k | 0 <= k < |rest| && Walk(t, x, rest[..k]).Ok?
      ensures Agree(t, u, Walk(t, x, rest[..k]).value, rest[k])
    {
      var m := Walk(t, x, rest[..k]).value;
      WalkAppend(t, t.root, f + [a], rest[..k]);
      assert Get(t, f + [a] + rest[..k]) == Ok(m);
      assert m != fp by { if m == fp { UniquePath(t, f + [a] + rest[..k], f); } }
      assert m != tp by { if m == tp { UniquePath(t, f + [a] + rest[..k], d); } }
    }
    WalkAgree(t, u, x, rest);
  }

  /** A successful rename, seen through lookups: everything under the old name is found
      under the new one, the old name is gone (unless it is the new one), and every other
      lookup gives what it gave before. */
  lemma {:induction false} RenameMovesOneSubtree<N>(t: Tree<N>, f: Path, a: string, d: Path, b: string, rest: Path, cs: Path)
    requires Shaped(t) && RenameIn(t, f, a, d, b).1.Renamed? && !IntoItself(f, a, d)
    ensures var u := RenameIn(t, f, a, d, b).0;
            && Get(u, d + [b] + rest) == Get(t, f + [a] + rest)
            && (!SameName(f, a, d, b) ==> Get(u, f + [a] + rest) == Err(NotFound))
            && (!(f + [a] <= cs) && !(d + [b] <= cs) ==> Get(u, cs) == Get(t, cs))
  {
    var u := RenameIn(t, f, a, d, b).0;
    var fp, tp := Get(t, f).value, Get(t, d).value;
    if !(f + [a] <= cs) && !(d + [b] <= cs) { MovedElsewhere(t, f, a, d, b, cs); }

    MovedElsewhere(t, f, a, d, b, d);
    MovedInside(t, f, a, d, b, rest);
    WalkOne(t, fp, a);
    WalkAppend(t, t.root, f, [a]);
    WalkAppend(t, t.root, f + [a], rest);
    WalkOne(u, tp, b);
    WalkAppend(u, u.root, d, [b]);
    WalkAppend(u, u.root, d + [b], rest);

    if !SameName(f, a, d, b) {
      OldNameGone(t, f, a, d, b, rest);
    }
  }

  lemma {:induction false} OldNameGone<N>(t: Tree<N>, f: Path, a: string, d: Path, b: string, rest: Path)
    requires Shaped(t) && RenameIn(t, f, a, d, b).1.Renamed? && !SameName(f, a, d, b)
    ensures Get(RenameIn(t, f, a, d, b).0, f + [a] + rest) == Err(NotFound)
  {
    var u := RenameIn(t, f, a, d, b).0;
    var fp, tp := Get(t, f).value, Get(t, d).value;
    if fp == tp { UniquePath(t, f, d); }
    NewNameWasFree(t, f, a, d, b, f);
    MovedElsewhere(t, f, a, d, b, f);
    WalkOne(u, fp, a);
    WalkAppend(u, u.root, f, [a]);
    WalkAppend(u, u.root, f + [a], rest);
  }

  /** Unless the rename is to the same name, no existing path passes the new name. */
  lemma {:induction false} NewNameWasFree<N>(t: Tree<N>, f: Path, a: string, d: Path, b: string, cs: Path)
    requires Shaped(t) && RenameIn(t, f, a, d, b).1.Renamed? && !SameName(f, a, d, b)
    ensures Get(t, cs).Ok? ==> !(d + [b] <= cs)
  {
    var fp, tp := Get(t, f).value, Get(t, d).value;
    if fp == tp { UniquePath(t, f, d); }
    WalkOne(t, tp, b);
    WalkAppend(t, t.root, d, [b]);
    assert Get(t, d + [b]).Err?;
    if d + [b] <= cs {
      assert cs == d + [b] + cs[|d| + 1..];
      WalkAppend(t, t.root, d + [b], cs[|d| + 1..]);
    }
  }

  lemma {:induction false} RenameKeepsShape<N>(t: Tree<N>, f: Path, a: string, d: Path, b: string)
    requires Shaped(t) && RenameIn(t, f, a, d, b).1.Renamed?
    ensures Shaped(RenameIn(t, f, a, d, b).0)
    ensures RenameIn(t, f, a, d, b).0.store.Keys == t.store.Keys
  {
    var u := RenameIn(t, f, a, d, b).0;
    var fp, tp := Get(t, f).value, Get(t, d).value;
    var x := Child(t, fp, a);
    forall p, c | p in u.store && HasChild(u, p, c)
      ensures (p == tp && c == b && Child(u, p, c) == x) || (HasChild(t, p, c) && Child(u, p, c) == Child(t, p, c) && !(p == fp && c == a))
    {
    }
  }

  /** A rename that returns keeps a well-formed tree well-formed exactly when the destination
      does not lie strictly below the moved directory; the code does not check this. */
  lemma {:induction false} RenameKeepsTreeIff<N>(t: Tree<N>, f: Path, a: string, d: Path, b: string)
    requires WellFormed(t) && !RenameIn(t, f, a, d, b).1.Hangs?
    ensures WellFormed(RenameIn(t, f, a, d, b).0) <==> !(RenameIn(t, f, a, d, b).1.Renamed? && f + [a] < d)
  {
    if RenameIn(t, f, a, d, b).1.Renamed? {
      RenameOkIff(t, f, a, d, b);
      SuccessKeepsTreeIff(t, f, a, d, b);
    }
  }

  lemma {:induction false} SuccessKeepsTreeIff<N>(t: Tree<N>, f: Path, a: string, d: Path, b: string)
    requires WellFormed(t) && RenameIn(t, f, a, d, b).1.Renamed?
    ensures WellFormed(RenameIn(t, f, a, d, b).0) <==> !IntoItself(f, a, d)
  {
    RenameKeepsShape(t, f, a, d, b);
    var u := RenameIn(t, f, a, d, b).0;
    if IntoItself(f, a, d) {
      var x := Child(t, Get(t, f).value, a);
      assert x in u.store;
      if Reachable(u, x) {
        var cs :| Get(u, cs) == Ok(x);
        SubtreeCutOff(t, f, a, d, b, cs, []);
        assert false;
      }
    } else {
      forall n | n in u.store ensures Reachable(u, n) {
        var cs :| Get(t, cs) == Ok(n);
        var rest := if f + [a] <= cs then cs[|f| + 1..] else [];
        RenameMovesOneSubtree(t, f, a, d, b, rest, cs);
        if f + [a] <= cs {
          assert cs == f + [a] + rest;
        } else if !SameName(f, a, d, b) {
          NewNameWasFree(t, f, a, d, b, cs);
        }
      }
    }
  }

  /** Moved strictly below itself, the subtree can no longer be reached from the root. */
  lemma {:induction false} SubtreeCutOff<N>(t: Tree<N>, f: Path, a: string, d: Path, b: string, cs: Path, r: Path)
    requires WellFormed(t) && RenameIn(t, f, a, d, b).1.Renamed? && IntoItself(f, a, d)
    requires Get(RenameIn(t, f, a, d, b).0, cs).Ok?
    ensures Walk(t, Child(t, Get(t, f).value, a), r) != Get(RenameIn(t, f, a, d, b).0, cs)
    decreases cs
  {
    var u := RenameIn(t, f, a, d, b).0;
    var fp, tp := Get(t, f).value, Get(t, d).value;
    var x := Child(t, fp, a);
    assert fp != tp by { if fp == tp { UniquePath(t, f, d); } }
    if Walk(t, x, r) == Get(u, cs) {
      var n := Get(u, cs).value;
      if cs == [] {
        InsideIsNotRoot(t, f, a, r);
      } else {
        WalkLast(u, u.root, cs);
        var m, c := Get(u, cs[..|cs| - 1]).value, cs[|cs| - 1];
        if m == tp && c == b && !(HasChild(t, m, c)) {
          // the edge into the moved node starts inside the subtree
          var r' := d[|f| + 1..];
          assert d == f + [a] + r';
          WalkOne(t, fp, a);
          WalkAppend(t, t.root, f, [a]);
          WalkAppend(t, t.root, f + [a], r');
          SubtreeCutOff(t, f, a, d, b, cs[..|cs| - 1], r');
        } else {
          // an old edge into a node of the subtree other than its top
          assert HasChild(t, m, c) && Child(t, m, c) == n;
          if r != [] {
            WalkLast(t, x, r);
            SubtreeCutOff(t, f, a, d, b, cs[..|cs| - 1], r[..|r| - 1]);
          }
        }
      }
      assert false;
    }
  }

  lemma {:induction false} InsideIsNotRoot<N>(t: Tree<N>, f: Path, a: string, r: Path)
    requires Shaped(t) && Get(t, f).Ok? && HasChild(t, Get(t, f).value, a)
    ensures Walk(t, Child(t, Get(t, f).value, a), r) != Ok(t.root)
  {
    WalkOne(t, Get(t, f).value, a);
    WalkAppend(t, t.root, f, [a]);
    WalkAppend(t, t.root, f + [a], r);
    if Get(t, f + [a] + r) == Ok(t.root) {
      UniquePath(t, f + [a] + r, []);
    }
  }

  /** Three nested directories, "/a/b". */
  function Nested(): Tree<nat> {
    Tree(0, map[0 := Node(2, Dir(map["a" := 1]), 0), 1 := Node(2, Dir(map["b" := 2]), 0), 2 := Node(2, Dir(map[]), 0)])
  }

  lemma {:induction false} NestedPaths()
    ensures Get(Nested(), []) == Ok(0) && Get(Nested(), ["a"]) == Ok(1) && Get(Nested(), ["a", "b"]) == Ok(2)
  {
    var t := Nested();
    WalkOne(t, 0, "a");
    WalkOne(t, 1, "b");
    assert ["a"] + ["b"] == ["a", "b"];
    WalkAppend(t, 0, ["a"], ["b"]);
  }

  lemma {:induction false} NestedShape()
    ensures Shaped(Nested())
  {
  }

  lemma {:induction false} NestedIsTree()
    ensures WellFormed(Nested()) && Get(Nested(), ["a"]) == Ok(1) && Get(Nested(), ["a", "b"]) == Ok(2)
  {
    NestedPaths();
    NestedShape();
    forall n | n in Nested().store ensures Reachable(Nested(), n) {
      assert Get(Nested(), if n == 0 then [] else if n == 1 then ["a"] else ["a", "b"]) == Ok(n);
    }
  }

  /** Renaming "/a" to "/a/b/c" succeeds and detaches "/a"; renaming it to "/a/c" never returns. */
  lemma {:induction false} RenameIntoItselfDetaches(t: Tree<nat>)
    requires t == Nested()
    ensures var (u, r) := RenameIn(t, [], "a", ["a", "b"], "c");
            r == Renamed && Get(u, ["a"]) == Err(NotFound) && WellFormed(t) && !WellFormed(u)
    ensures RenameIn(t, [], "a", ["a"], "c").1 == Hangs
  {
    NestedIsTree();
    assert [] + ["a"] == ["a"] && Get(t, []) == Ok(0);
    assert ["a"] < ["a", "b"];
    var (u, r) := RenameIn(t, [], "a", ["a", "b"], "c");
    OldNameGone(t, [], "a", ["a", "b"], "c", []);
    assert [] + ["a"] + [] == ["a"];
    RenameKeepsTreeIff(t, [], "a", ["a", "b"], "c");
  }

  // ----- Create and delete

  predicate Childless<N(==)>(n: Node<N>) {
    n.kind.Dir? ==> n.kind.children == map[]
  }

  /** A successful creation adds exactly one name; every other lookup is unchanged. */
  lemma {:induction false} CreateAddsOneName<N>(t: Tree<N>, p: Path, leaf: string, x: N, node: Node<N>, cs: Path)
    requires WellFormed(t) && x !in t.store && Childless(node) && CreateIn(t, p, leaf, x, node).1.Ok?
    ensures var u := CreateIn(t, p, leaf, x, node).0;
            && Get(u, p + [leaf]) == Ok(x) && u.store[x] == node
            && (!(p + [leaf] <= cs) ==> Get(u, cs) == Get(t, cs))
  {
    var u := CreateIn(t, p, leaf, x, node).0;
    assert !(p + [leaf] <= p);
    CreateElsewhere(t, p, leaf, x, node, p);
    if !(p + [leaf] <= cs) { CreateElsewhere(t, p, leaf, x, node, cs); }
    WalkOne(u, Get(t, p).value, leaf);
    WalkAppend(u, u.root, p, [leaf]);
  }

  lemma {:induction false} CreateElsewhere<N>(t: Tree<N>, p: Path, leaf: string, x: N, node: Node<N>, cs: Path)
    requires Shaped(t) && x !in t.store && CreateIn(t, p, leaf, x, node).1.Ok? && !(p + [leaf] <= cs)
    ensures Get(CreateIn(t, p, leaf, x, node).0, cs) == Get(t, cs)
  {
    var u := CreateIn(t, p, leaf, x, node).0;
    var d := Get(t, p).value;
    forall k | 0 <= k < |cs| && Get(t, cs[..k]).Ok?
      ensures Agree(t, u, Get(t, cs[..k]).value, cs[k])
    {
      var m := Get(t, cs[..k]).value;
      WalkInStore(t, t.root, cs[..k]);
      assert cs[..k + 1] == cs[..k] + [cs[k]];
      if m == d { UniquePath(t, cs[..k], p); }
    }
    WalkAgree(t, u, t.root, cs);
  }

  lemma {:induction false} CreateKeepsTree<N>(t: Tree<N>, p: Path, leaf: string, x: N, node: Node<N>)
    requires WellFormed(t) && x !in t.store && Childless(node) && CreateIn(t, p, leaf, x, node).1.Ok?
    ensures WellFormed(CreateIn(t, p, leaf, x, node).0)
  {
    var u := CreateIn(t, p, leaf, x, node).0;
    var d := Get(t, p).value;
    assert Shaped(u) by {
      forall q, c | q in u.store && HasChild(u, q, c)
        ensures (q == d && c == leaf && Child(u, q, c) == x) || (HasChild(t, q, c) && Child(u, q, c) == Child(t, q, c))
      {
      }
    }
    forall n | n in u.store ensures Reachable(u, n) {
      if n == x {
        CreateAddsOneName(t, p, leaf, x, node, []);
      } else {
        var cs :| Get(t, cs) == Ok(n);
        if p + [leaf] <= cs { NothingThere(t, p, leaf, cs); }
        CreateAddsOneName(t, p, leaf, x, node, cs);
      }
    }
  }

  lemma {:induction false} NothingThere<N>(t: Tree<N>, p: Path, leaf: string, cs: Path)
    requires Get(t, p).Ok? && !HasChild(t, Get(t, p).value, leaf) && p + [leaf] <= cs
    ensures Get(t, cs).Err?
  {
    WalkOne(t, Get(t, p).value, leaf);
    WalkAppend(t, t.root, p, [leaf]);
    assert cs == p + [leaf] + cs[|p| + 1..];
    WalkAppend(t, t.root, p + [leaf], cs[|p| + 1..]);
  }

  /** A successful deletion removes exactly one name. */
  lemma {:induction false} DeleteRemovesOneName<N>(t: Tree<N>, p: Path, leaf: string, cs: Path)
    requires WellFormed(t) && DeleteIn(t, p, leaf).1.Ok?
    ensures var u := DeleteIn(t, p, leaf).0;
            && (p + [leaf] <= cs ==> Get(u, cs) == Err(NotFound))
            && (!(p + [leaf] <= cs) ==> Get(u, cs) == Get(t, cs))
  {
    var u := DeleteIn(t, p, leaf).0;
    assert !(p + [leaf] <= p);
    DeleteElsewhere(t, p, leaf, p);
    if !(p + [leaf] <= cs) {
      DeleteElsewhere(t, p, leaf, cs);
    } else {
      WalkOne(u, Get(t, p).value, leaf);
      WalkAppend(u, u.root, p, [leaf]);
      assert cs == p + [leaf] + cs[|p| + 1..];
      WalkAppend(u, u.root, p + [leaf], cs[|p| + 1..]);
    }
  }

  /** The deleted node is a leaf of the tree other than the root, so only walks through its
      name can meet it. */
  lemma {:induction false} DeleteElsewhere<N>(t: Tree<N>, p: Path, leaf: string, cs: Path)
    requires Shaped(t) && DeleteIn(t, p, leaf).1.Ok? && !(p + [leaf] <= cs)
    ensures Get(DeleteIn(t, p, leaf).0, cs) == Get(t, cs)
  {
    var u := DeleteIn(t, p, leaf).0;
    var d := Get(t, p).value;
    var x := Child(t, d, leaf);
    WalkOne(t, d, leaf);
    WalkAppend(t, t.root, p, [leaf]);
    assert x != d by { if x == d { UniquePath(t, p, p + [leaf]); } }
    forall k | 0 <= k < |cs| && Get(t, cs[..k]).Ok?
      ensures Agree(t, u, Get(t, cs[..k]).value, cs[k])
    {
      var m := Get(t, cs[..k]).value;
      assert cs[..k + 1] == cs[..k] + [cs[k]];
      if m == d { UniquePath(t, cs[..k], p); }
      if m == x { UniquePath(t, cs[..k], p + [leaf]); }
    }
    WalkAgree(t, u, t.root, cs);
  }

  lemma {:induction false} DeleteKeepsTree<N>(t: Tree<N>, p: Path, leaf: string)
    requires WellFormed(t) && DeleteIn(t, p, leaf).1.Ok?
    ensures WellFormed(DeleteIn(t, p, leaf).0)
  {
    var u := DeleteIn(t, p, leaf).0;
    var d := Get(t, p).value;
    var x := Child(t, d, leaf);
    WalkOne(t, d, leaf);
    WalkAppend(t, t.root, p, [leaf]);
    assert x != d by { if x == d { UniquePath(t, p, p + [leaf]); } }
    assert Shaped(u) by {
      forall q, c | q in u.store && HasChild(u, q, c)
        ensures HasChild(t, q, c) && Child(u, q, c) == Child(t, q, c) && !(q == d && c == leaf)
      {
      }
    }
    forall n | n in u.store ensures Reachable(u, n) {
      var cs :| Get(t, cs) == Ok(n);
      assert !(p + [leaf] <= cs) by {
        if p + [leaf] <= cs { LeafHasNoBelow(t, p, leaf, cs); }
      }
      DeleteElsewhere(t, p, leaf, cs);
    }
  }

  lemma {:induction false} LeafHasNoBelow<N>(t: Tree<N>, p: Path, leaf: string, cs: Path)
    requires Shaped(t) && DeleteIn(t, p, leaf).1.Ok? && p + [leaf] <= cs && Get(t, cs).Ok?
    ensures Get(t, cs).value == Child(t, Get(t, p).value, leaf)
  {
    var x := Child(t, Get(t, p).value, leaf);
    WalkOne(t, Get(t, p).value, leaf);
    WalkAppend(t, t.root, p, [leaf]);
    var rest := cs[|p| + 1..];
    assert cs == p + [leaf] + rest;
    WalkAppend(t, t.root, p + [leaf], rest);
    assert Childless(t.store[x]);
  }
}
