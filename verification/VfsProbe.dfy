/** One resolution step inside a file system (kernel/src/fs/vfs.rs): look a path up and stop
    at the first symlink that has to be followed. */
module VfsProbe {
  import opened Basics
  import opened VfsTree
  import opened VfsHandles
  import opened Paths

  datatype Attrs = Attrs(mode: bv16, size: nat)

  datatype ProbeStep =
    | Found(attrs: Attrs, symlinkTarget: Option<string>)
    | Link(dir: string, target: string, remaining: string)

  /** Sizes are read from the contents. */
  function AttrsOf<N(==)>(n: Node<N>): Attrs {
    Attrs(n.mode, match n.kind case File(data) => |data| case Dir(children) => |children| case Symlink(target) => |target|)
  }

  function TargetOf<N(==)>(n: Node<N>): Option<string> {
    if n.kind.Symlink? then Some(n.kind.target) else None
  }

  function ProbeFrom<N(==)>(t: Tree<N>, n: N, comps: Path, idx: nat, followFinal: bool): Result<ProbeStep>
    requires idx < |comps|
    decreases |comps| - idx
  {
    if n !in t.store || !t.store[n].kind.Dir? then Err(NotADirectory)
    else if comps[idx] !in t.store[n].kind.children then Err(NotFound)
    else
      var child := t.store[n].kind.children[comps[idx]];
      var last := idx == |comps| - 1;
      if child !in t.store then Err(NotFound)
      else if t.store[child].kind.Symlink? && (!last || followFinal) then
        Ok(Link(Render(comps[..idx]), t.store[child].kind.target, JoinSlash(comps[idx + 1..])))
      else if last then Ok(Found(AttrsOf(t.store[child]), TargetOf(t.store[child])))
      else ProbeFrom(t, child, comps, idx + 1, followFinal)
  }

  function Probe<N(==)>(t: Tree<N>, path: string, followFinal: bool): Result<ProbeStep> {
    var comps := Comps(path);
    if t.root !in t.store then Err(NotFound)
    else if comps == [] then Ok(Found(AttrsOf(t.store[t.root]), None))
    else ProbeFrom(t, t.root, comps, 0, followFinal)
  }

  /** The walk along `comps` meets, at component `k`, a symlink that must be followed. */
  ghost predicate LinkAt<N>(t: Tree<N>, comps: Path, k: nat, followFinal: bool) {
    && k < |comps|
    && Get(t, comps[..k + 1]).Ok? && Get(t, comps[..k + 1]).value in t.store
    && t.store[Get(t, comps[..k + 1]).value].kind.Symlink?
    && (k + 1 < |comps| || followFinal)
  }

  /** What a probe of `comps` answers, said without walking: it stops at the one symlink on
      the path that must be followed and splits the path exactly there; otherwise it finds
      the node a plain walk finds, or fails as the plain walk fails. */
  ghost predicate Answers<N>(t: Tree<N>, comps: Path, followFinal: bool, r: Result<ProbeStep>) {
    && (forall k: nat :: LinkAt(t, comps, k, followFinal) ==>
          r == Ok(Link(Render(comps[..k]), t.store[Get(t, comps[..k + 1]).value].kind.target, JoinSlash(comps[k + 1..]))))
    && ((forall k: nat :: !LinkAt(t, comps, k, followFinal)) ==>
          match Get(t, comps)
          case Err(e) => r == Err(e)
          case Ok(n) => n in t.store && r == Ok(Found(AttrsOf(t.store[n]), TargetOf(t.store[n]))))
  }

  /** Only the last node of a successful walk can be a symlink. */
  lemma {:induction false} PassedAreDirs<N>(t: Tree<N>, comps: Path, k: nat, j: nat)
    requires j < k <= |comps| && Get(t, comps[..k]).Ok?
    ensures Get(t, comps[..j]).Ok? && Get(t, comps[..j]).value in t.store && t.store[Get(t, comps[..j]).value].kind.Dir?
  {
    assert comps[..k] == comps[..j] + comps[j..k];
    WalkAppend(t, t.root, comps[..j], comps[j..k]);
  }

  lemma {:induction false} StepAlong<N>(t: Tree<N>, n: N, comps: Path, idx: nat)
    requires idx < |comps| && Get(t, comps[..idx]) == Ok(n)
    ensures Get(t, comps[..idx + 1]) == Walk(t, n, [comps[idx]])
    ensures Walk(t, n, [comps[idx]]).Err? ==> Get(t, comps) == Walk(t, n, [comps[idx]])
  {
    assert comps[..idx + 1] == comps[..idx] + [comps[idx]];
    WalkAppend(t, t.root, comps[..idx], [comps[idx]]);
    assert comps == comps[..idx + 1] + comps[idx + 1..];
    WalkAppend(t, t.root, comps[..idx + 1], comps[idx + 1..]);
  }

  /** A symlink on the path lies at or beyond any node of the walk that is not one itself. */
  lemma {:induction false} LinkIsBeyond<N>(t: Tree<N>, n: N, comps: Path, idx: nat, followFinal: bool, k: nat)
    requires idx < |comps| && Get(t, comps[..idx]) == Ok(n) && n in t.store && !t.store[n].kind.Symlink?
    ensures LinkAt(t, comps, k, followFinal) ==> k >= idx && HasChild(t, n, comps[idx])
  {
    if LinkAt(t, comps, k, followFinal) {
      if k + 1 < idx {
        PassedAreDirs(t, comps, idx, k + 1);
      } else if k >= idx {
        assert comps[..k + 1] == comps[..idx] + comps[idx..k + 1];
        WalkAppend(t, t.root, comps[..idx], comps[idx..k + 1]);
        assert comps[idx..k + 1][0] == comps[idx];
      }
    }
  }

  /** At most one symlink on a path has to be followed next. */
  lemma {:induction false} LinkIsUnique<N>(t: Tree<N>, comps: Path, j: nat, k: nat, followFinal: bool)
    requires LinkAt(t, comps, j, followFinal) && LinkAt(t, comps, k, followFinal)
    ensures j == k
  {
    if j < k { PassedAreDirs(t, comps, k + 1, j + 1); }
    if k < j { PassedAreDirs(t, comps, j + 1, k + 1); }
  }

  lemma {:induction false} ProbeFromAnswers<N>(t: Tree<N>, n: N, comps: Path, idx: nat, followFinal: bool)
    requires Shaped(t) && idx < |comps| && Get(t, comps[..idx]) == Ok(n)
    requires n in t.store && !t.store[n].kind.Symlink?
    ensures Answers(t, comps, followFinal, ProbeFrom(t, n, comps, idx, followFinal))
    decreases |comps| - idx
  {
    WalkOne(t, n, comps[idx]);
    StepAlong(t, n, comps, idx);
    forall k: nat ensures LinkAt(t, comps, k, followFinal) ==> k >= idx && HasChild(t, n, comps[idx]) {
      LinkIsBeyond(t, n, comps, idx, followFinal, k);
    }
    if HasChild(t, n, comps[idx]) {
      var child := Child(t, n, comps[idx]);
      if t.store[child].kind.Symlink? && (idx + 1 < |comps| || followFinal) {
        assert LinkAt(t, comps, idx, followFinal);
        forall k: nat | LinkAt(t, comps, k, followFinal) ensures k == idx {
          LinkIsUnique(t, comps, k, idx, followFinal);
        }
      } else if idx + 1 == |comps| {
        assert comps[..idx + 1] == comps;
      } else {
        ProbeFromAnswers(t, child, comps, idx + 1, followFinal);
      }
    }
  }

  /** The meaning of `probe` for every path. */
  lemma {:induction false} ProbeMeaning<N>(t: Tree<N>, path: string, followFinal: bool)
    requires WellFormed(t)
    ensures Answers(t, Comps(path), followFinal, Probe(t, path, followFinal))
  {
    var comps := Comps(path);
    if comps != [] {
      assert comps[..0] == [];
      ProbeFromAnswers(t, t.root, comps, 0, followFinal);
    }
  }

  /** The link splits the path: directory, link and remainder together are the path, and
      everything before the link is a plain directory. */
  ghost predicate SplitAt<N>(t: Tree<N>, comps: Path, followFinal: bool, s: ProbeStep, k: nat) {
    && LinkAt(t, comps, k, followFinal)
    && s == Link(Render(comps[..k]), t.store[Get(t, comps[..k + 1]).value].kind.target, JoinSlash(comps[k + 1..]))
    && Get(t, comps[..k]).Ok? && HasChild(t, Get(t, comps[..k]).value, comps[k])
  }

  lemma {:induction false} LinkAnswer<N>(t: Tree<N>, comps: Path, followFinal: bool, r: Result<ProbeStep>)
    requires Answers(t, comps, followFinal, r) && r.Ok? && r.value.Link?
    ensures exists k: nat :: SplitAt(t, comps, followFinal, r.value, k)
  {
    var k: nat :| LinkAt(t, comps, k, followFinal);
    PassedAreDirs(t, comps, k + 1, k);
    var n := Get(t, comps[..k]).value;
    WalkOne(t, n, comps[k]);
    StepAlong(t, n, comps, k);
    assert SplitAt(t, comps, followFinal, r.value, k);
  }

  lemma {:induction false} FoundAnswer<N>(t: Tree<N>, comps: Path, followFinal: bool, r: Result<ProbeStep>)
    requires Answers(t, comps, followFinal, r) && r.Ok? && r.value.Found?
    ensures var g := Get(t, comps);
            && g.Ok? && g.value in t.store && r.value == Found(AttrsOf(t.store[g.value]), TargetOf(t.store[g.value]))
            && (followFinal && comps != [] ==> !t.store[g.value].kind.Symlink?)
  {
    assert forall k: nat :: !LinkAt(t, comps, k, followFinal);
    if followFinal && comps != [] {
      assert comps[..|comps|] == comps;
      assert !LinkAt(t, comps, |comps| - 1, true);
    }
  }

  lemma {:induction false} LinkSplitsPath<N>(t: Tree<N>, path: string, followFinal: bool)
    requires WellFormed(t) && Probe(t, path, followFinal).Ok? && Probe(t, path, followFinal).value.Link?
    ensures exists k: nat :: SplitAt(t, Comps(path), followFinal, Probe(t, path, followFinal).value, k)
  {
    ProbeMeaning(t, path, followFinal);
    LinkAnswer(t, Comps(path), followFinal, Probe(t, path, followFinal));
  }

  /** `Found` with the final symlink followed: opening the same path succeeds, on that same
      node, which is not a symlink. Without following, the node may be a symlink, and then
      its target is reported. */
  lemma {:induction false} FoundCanBeOpened<N>(t: Tree<N>, path: string, followFinal: bool)
    requires WellFormed(t) && Probe(t, path, followFinal).Ok? && Probe(t, path, followFinal).value.Found?
    ensures var g := Get(t, Comps(path));
            && g.Ok? && g.value in t.store
            && Probe(t, path, followFinal).value == Found(AttrsOf(t.store[g.value]), TargetOf(t.store[g.value]))
            && (followFinal ==> OpenAt(t, Comps(path)).1.Ok? && OpenAt(t, Comps(path)).1.value.node == g.value)
  {
    ProbeMeaning(t, path, followFinal);
    FoundAnswer(t, Comps(path), followFinal, Probe(t, path, followFinal));
  }
}
