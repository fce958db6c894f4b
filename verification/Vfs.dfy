/** The in-memory file system as it is kept in memory: heap nodes that hold maps of
    references to their children and are updated in place (kernel/src/fs/vfs.rs). Every
    method is proved to perform the corresponding operation of `VfsTree` and `VfsHandles`. */
module Vfs {
  import opened Basics
  import opened VfsTree
  import opened VfsHandles
  import P = VfsProbe
  import Paths

  const MODE_FILE: bv16 := 1
  const MODE_DIR: bv16 := 2
  const MODE_SYMLINK: bv16 := 4

  class VfsNode {
    var mode: bv16
    var kind: Kind<VfsNode>
    var openCount: nat

    constructor (mode: bv16, kind: Kind<VfsNode>)
      ensures this.mode == mode && this.kind == kind && openCount == 0
    {
      this.mode, this.kind, this.openCount := mode, kind, 0;
    }
  }

  function SizeOf(kind: Kind<VfsNode>): nat {
    match kind
    case File(data) => |data|
    case Dir(children) => |children|
    case Symlink(target) => |target|
  }

  class Vfs {
    var root: VfsNode
    ghost var nodes: set<VfsNode>
    ghost var handles: seq<Handle<VfsNode>>

    ghost function View(): Tree<VfsNode>
      reads this, nodes
    {
      Tree(root, map n | n in nodes :: Node(n.mode, n.kind, n.openCount))
    }

    ghost function Now(): State<VfsNode>
      reads this, nodes
    {
      State(View(), handles)
    }

    ghost predicate Valid()
      reads this, nodes
    {
      Inv(Now())
    }

    constructor ()
      ensures Valid() && fresh(nodes) && Now() == Fresh(root, MODE_DIR)
    {
      var r := new VfsNode(0 | MODE_DIR, Dir(map[]));
      root, nodes, handles := r, {r}, [];
      new;
      FreshInv(r, MODE_DIR);
      assert View().store == map[r := Node(MODE_DIR, Dir(map[]), 0)];
    }

    /** Walk without symlink resolution. */
    method RawGet(path: string) returns (r: Result<VfsNode>)
      requires Shaped(View())
      ensures r == Get(View(), Paths.Comps(path))
      ensures r.Ok? ==> r.value in nodes
    {
      var comps := Paths.Comps(path);
      var cur := root;
      for i := 0 to |comps|
        invariant cur in nodes
        invariant Walk(View(), cur, comps[i..]) == Get(View(), comps)
      {
        assert comps[i..][1..] == comps[i + 1..];
        match cur.kind {
          case Dir(children) =>
            if comps[i] !in children { return Err(NotFound); }
            assert HasChild(View(), cur, comps[i]);
            cur := children[comps[i]];
          case _ => return Err(NotADirectory);
        }
      }
      return Ok(cur);
    }

    method Probe(path: string, followFinal: bool) returns (r: Result<P.ProbeStep>)
      requires Shaped(View())
      ensures r == P.Probe(View(), path, followFinal)
    {
      var comps := Paths.Comps(path);
      var cur := root;
      if |comps| == 0 { return Ok(P.Found(P.Attrs(cur.mode, SizeOf(cur.kind)), None)); }
      var idx := 0;
      while true
        invariant 0 <= idx < |comps| && cur in nodes
        invariant P.ProbeFrom(View(), cur, comps, idx, followFinal) == P.ProbeFrom(View(), root, comps, 0, followFinal)
        decreases |comps| - idx
      {
        if !cur.kind.Dir? { return Err(NotADirectory); }
        if comps[idx] !in cur.kind.children { return Err(NotFound); }
        assert HasChild(View(), cur, comps[idx]);
        var child := cur.kind.children[comps[idx]];
        var last := idx == |comps| - 1;
        if child.kind.Symlink? && (!last || followFinal) {
          var remaining := if last then "" else Paths.JoinSlash(comps[idx + 1..]);
          return Ok(P.Link(Paths.Render(comps[..idx]), child.kind.target, remaining));
        }
        if last {
          var target := if child.kind.Symlink? then Some(child.kind.target) else None;
          return Ok(P.Found(P.Attrs(child.mode, SizeOf(child.kind)), target));
        }
        cur, idx := child, idx + 1;
      }
    }

    /** The descent of `open_at`: the node and the directories passed on the way. */
    method Descend(path: string) returns (r: Result<(VfsNode, seq<VfsNode>)>)
      requires Shaped(View())
      ensures match Get(View(), Paths.Comps(path))
              case Err(e) => r == Err(e)
              case Ok(n) => r == Ok((n, Ancestors(View(), root, Paths.Comps(path)))) && n in nodes
    {
      var comps := Paths.Comps(path);
      var cur, ancestors := root, [];
      for i := 0 to |comps|
        invariant cur in nodes
        invariant Walk(View(), cur, comps[i..]) == Get(View(), comps)
        invariant ancestors + Ancestors(View(), cur, comps[i..]) == Ancestors(View(), root, comps)
      {
        assert comps[i..][1..] == comps[i + 1..];
        match cur.kind {
          case Dir(children) =>
            if comps[i] !in children { return Err(NotFound); }
            assert HasChild(View(), cur, comps[i]);
            assert ancestors + ([cur] + Ancestors(View(), children[comps[i]], comps[i + 1..])) ==
                   ancestors + [cur] + Ancestors(View(), children[comps[i]], comps[i + 1..]);
            ancestors := ancestors + [cur];
            cur := children[comps[i]];
          case _ => return Err(NotADirectory);
        }
      }
      assert comps[|comps|..] == [] && ancestors + [] == ancestors;
      r := Ok((cur, ancestors));
    }

    method OpenAt(path: string) returns (r: Result<(VfsNode, seq<VfsNode>, bool)>)
      requires Valid()
      modifies this`handles, nodes`openCount
      ensures Valid() && nodes == old(nodes)
      ensures Now() == Step(old(Now()), Open(Paths.Comps(path)))
      ensures match VfsHandles.OpenAt(old(View()), Paths.Comps(path)).1
              case Err(e) => r == Err(e)
              case Ok(h) => r == Ok((h.node, h.ancestors, h.node.kind.Dir?))
    {
      ghost var s, comps := Now(), Paths.Comps(path);
      var d := Descend(path);
      if d.Err? { return Err(d.error); }
      var (cur, ancestors) := d.value;
      if cur.kind.Symlink? { return Err(TooManySymlinks); }
      OpenFacts(s, comps);
      Pin(cur, ancestors);
      r := Ok((cur, ancestors, cur.kind.Dir?));
    }

    /** The counting at the end of `open_at`. */
    method RaiseAll(node: VfsNode, ancestors: seq<VfsNode>)
      requires ChainIn(nodes, node, ancestors)
      modifies nodes`openCount
      ensures View() == Bumped(old(View()), ancestors + [node])
    {
      node.openCount := node.openCount + 1;
      for k := 0 to |ancestors|
        invariant forall n | n in nodes ::
          n.openCount == old(n.openCount) + if n == node || n in ancestors[..k] then 1 else 0
      {
        assert ancestors[k] !in ancestors[..k] && ancestors[..k + 1] == ancestors[..k] + [ancestors[k]];
        ancestors[k].openCount := ancestors[k].openCount + 1;
      }
      assert ancestors[..|ancestors|] == ancestors;
    }

    /** From here on the handle is open. */
    method Pin(node: VfsNode, ancestors: seq<VfsNode>)
      requires ChainIn(nodes, node, ancestors)
      modifies this`handles, nodes`openCount
      ensures Now() == State(Bumped(old(View()), ancestors + [node]), old(handles) + [Handle(node, ancestors)])
    {
      RaiseAll(node, ancestors);
      handles := handles + [Handle(node, ancestors)];
    }

    /** `close` of the handle with index `i` in the order of opening. */
    method Close(node: VfsNode, ancestors: seq<VfsNode>, ghost i: nat)
      requires Valid() && i < |handles| && handles[i] == Handle(node, ancestors)
      modifies this`handles, nodes`openCount
      ensures Valid() && nodes == old(nodes)
      ensures Now() == Step(old(Now()), VfsHandles.Close(i))
    {
      ghost var s := Now();
      CloseFacts(s, i);
      Unpin(node, ancestors, i);
    }

    method LowerAll(node: VfsNode, ancestors: seq<VfsNode>)
      requires ChainIn(nodes, node, ancestors) && !node.kind.Symlink?
      requires forall i | 0 <= i < |ancestors| :: ancestors[i].kind.Dir?
      modifies nodes`openCount
      ensures View() == Lowered(old(View()), ancestors + [node])
    {
      LowerCount(node);
      for k := 0 to |ancestors|
        invariant forall n | n in nodes && (n == node || n in ancestors[..k]) :: n.openCount == OneLess(old(n.openCount))
        invariant forall n | n in nodes && n != node && n !in ancestors[..k] :: n.openCount == old(n.openCount)
      {
        assert ancestors[k] !in ancestors[..k] && ancestors[..k + 1] == ancestors[..k] + [ancestors[k]];
        LowerCount(ancestors[k]);
      }
      assert ancestors[..|ancestors|] == ancestors;
    }

    method LowerCount(n: VfsNode)
      requires !n.kind.Symlink?
      modifies n`openCount
      ensures n.openCount == OneLess(old(n.openCount))
    {
      if !n.kind.Symlink? && n.openCount > 0 { n.openCount := n.openCount - 1; }
    }

    method Unpin(node: VfsNode, ancestors: seq<VfsNode>, ghost i: nat)
      requires i < |handles| && ChainIn(nodes, node, ancestors) && !node.kind.Symlink?
      requires forall i | 0 <= i < |ancestors| :: ancestors[i].kind.Dir?
      modifies this`handles, nodes`openCount
      ensures Now() == State(Lowered(old(View()), ancestors + [node]), old(handles)[..i] + old(handles)[i + 1..])
    {
      LowerAll(node, ancestors);
      handles := handles[..i] + handles[i + 1..];
    }

    /** Whether anything is open anywhere in this file system. */
    method RootBusy() returns (busy: bool)
      requires Valid()
      ensures busy <==> handles != []
    {
      RootBusyIffOpen(Now());
      busy := root.kind.Dir? && root.openCount > 0;
    }

    /** Replace the entries of one directory. */
    method SetChildren(p: VfsNode, children: map<string, VfsNode>)
      requires p in nodes
      modifies p`kind
      ensures p.kind == Dir(children) && View() == WithChildren(old(View()), p, children)
    {
      p.kind := Dir(children);
      assert View().store == WithChildren(old(View()), p, children).store;
    }

    /** Link the fresh node `x` under a looked-up directory. */
    method Link(parent: VfsNode, leaf: string, x: VfsNode)
      requires parent in nodes && parent.kind.Dir? && x !in nodes
      modifies this`nodes, parent`kind
      ensures nodes == old(nodes) + {x}
      ensures var u := Inserted(old(View()), parent, leaf, x);
              Now() == State(u.(store := u.store[x := Node(x.mode, x.kind, x.openCount)]), old(handles))
    {
      SetChildren(parent, parent.kind.children[leaf := x]);
      Adopt(x);
    }

    ghost method Adopt(x: VfsNode)
      modifies this`nodes
      ensures nodes == old(nodes) + {x}
      ensures View() == old(View()).(store := old(View()).store[x := Node(x.mode, x.kind, x.openCount)])
    {
      nodes := nodes + {x};
      assert View().store == old(View()).store[x := Node(x.mode, x.kind, x.openCount)];
    }

    ghost method Forget(x: VfsNode)
      modifies this`nodes
      ensures nodes == old(nodes) - {x} && View() == old(View()).(store := old(View()).store - {x})
    {
      nodes := nodes - {x};
      assert View().store == old(View()).store - {x};
    }

    /** What `create_file_in`, `mkdir_in` and `create_symlink_in` share. */
    method AddNode(parentRel: string, leaf: string, x: VfsNode) returns (r: Result<()>)
      requires Valid() && x !in nodes && x.openCount == 0
      requires x.kind.Dir? ==> x.kind.children == map[]
      modifies this`nodes, nodes`kind
      ensures Valid() && nodes == if r.Ok? then old(nodes) + {x} else old(nodes)
      ensures var node := Node(x.mode, x.kind, x.openCount);
              Now() == Step(old(Now()), Create(Paths.Comps(parentRel), leaf, x, node)) &&
              r == CreateIn(old(View()), Paths.Comps(parentRel), leaf, x, node).1
    {
      if leaf == "" { return Err(InvalidArgument); }
      var p := RawGet(parentRel);
      if p.Err? { return Err(p.error); }
      if !p.value.kind.Dir? { return Err(NotADirectory); }
      if leaf in p.value.kind.children { return Err(FileExists); }
      CreateFacts(Now(), Paths.Comps(parentRel), leaf, p.value, x, Node(x.mode, x.kind, x.openCount));
      Link(p.value, leaf, x);
      r := Ok(());
    }

    method CreateFileIn(parentRel: string, leaf: string, mode: bv16) returns (r: Result<()>, ghost x: VfsNode)
      requires Valid()
      modifies this`nodes, nodes`kind
      ensures Valid() && fresh(nodes - old(nodes)) && fresh(x)
      ensures var node := Node(mode | MODE_FILE, File([]), 0);
              Now() == Step(old(Now()), Create(Paths.Comps(parentRel), leaf, x, node)) &&
              r == CreateIn(old(View()), Paths.Comps(parentRel), leaf, x, node).1
    {
      var n := new VfsNode(mode | MODE_FILE, File([]));
      x := n;
      r := AddNode(parentRel, leaf, n);
    }

    method MkdirIn(parentRel: string, leaf: string, mode: bv16) returns (r: Result<()>, ghost x: VfsNode)
      requires Valid()
      modifies this`nodes, nodes`kind
      ensures Valid() && fresh(nodes - old(nodes)) && fresh(x)
      ensures var node := Node(mode | MODE_DIR, Dir(map[]), 0);
              Now() == Step(old(Now()), Create(Paths.Comps(parentRel), leaf, x, node)) &&
              r == CreateIn(old(View()), Paths.Comps(parentRel), leaf, x, node).1
    {
      var n := new VfsNode(mode | MODE_DIR, Dir(map[]));
      x := n;
      r := AddNode(parentRel, leaf, n);
    }

    method CreateSymlinkIn(parentRel: string, leaf: string, target: string) returns (r: Result<()>, ghost x: VfsNode)
      requires Valid()
      modifies this`nodes, nodes`kind
      ensures Valid() && fresh(nodes - old(nodes)) && fresh(x)
      ensures var node := Node(MODE_SYMLINK, Symlink(target), 0);
              Now() == Step(old(Now()), Create(Paths.Comps(parentRel), leaf, x, node)) &&
              r == CreateIn(old(View()), Paths.Comps(parentRel), leaf, x, node).1
    {
      var n := new VfsNode(MODE_SYMLINK, Symlink(target));
      x := n;
      r := AddNode(parentRel, leaf, n);
    }

    /** Remove a name; the node it led to leaves the tree. */
    method Unlink(parent: VfsNode, leaf: string)
      requires parent in nodes && parent.kind.Dir? && leaf in parent.kind.children
      requires parent.kind.children[leaf] != parent
      modifies this`nodes, parent`kind
      ensures nodes == old(nodes) - {old(parent.kind.children[leaf])}
      ensures var u := Removed(old(View()), parent, leaf);
              Now() == State(u.(store := u.store - {old(parent.kind.children[leaf])}), old(handles))
    {
      ghost var x := parent.kind.children[leaf];
      SetChildren(parent, parent.kind.children - {leaf});
      Forget(x);
    }

    method DeleteIn(parentRel: string, leaf: string) returns (r: Result<()>)
      requires Valid()
      modifies this`nodes, nodes`kind
      ensures Valid() && nodes <= old(nodes)
      ensures Now() == Step(old(Now()), Delete(Paths.Comps(parentRel), leaf))
      ensures r == VfsTree.DeleteIn(old(View()), Paths.Comps(parentRel), leaf).1
    {
      if leaf == "" { return Err(InvalidArgument); }
      var p := RawGet(parentRel);
      if p.Err? { return Err(p.error); }
      var parent := p.value;
      if !parent.kind.Dir? { return Err(NotADirectory); }
      if leaf !in parent.kind.children { return Err(NotFound); }
      assert HasChild(View(), parent, leaf);
      var node := parent.kind.children[leaf];
      match node.kind {
        case File(_) => if node.openCount > 0 { return Err(FileBusy); }
        case Dir(sub) =>
          if sub != map[] { return Err(NotEmpty); }
          if node.openCount > 0 { return Err(FileBusy); }
        case Symlink(_) =>
      }
      DeleteFacts(Now(), Paths.Comps(parentRel), leaf, parent);
      Unlink(parent, leaf);
      r := Ok(());
    }

    /** Change the name of an entry within one directory. */
    method Relabel(fp: VfsNode, from: string, to: string)
      requires fp in nodes && fp.kind.Dir? && from in fp.kind.children
      modifies fp`kind
      ensures Now() == State(Moved(old(View()), fp, from, fp, to), old(handles))
    {
      var node := fp.kind.children[from];
      SetChildren(fp, (fp.kind.children - {from})[to := node]);
      assert View().store == Moved(old(View()), fp, from, fp, to).store;
    }

    /** Move an entry to another directory. */
    method Relink(fp: VfsNode, from: string, tp: VfsNode, to: string)
      requires fp in nodes && fp.kind.Dir? && from in fp.kind.children && tp in nodes && tp.kind.Dir? && fp != tp
      modifies fp`kind, tp`kind
      ensures Now() == State(Moved(old(View()), fp, from, tp, to), old(handles))
    {
      var node := fp.kind.children[from];
      SetChildren(fp, fp.kind.children - {from});
      SetChildren(tp, tp.kind.children[to := node]);
    }

    /** The checks on the two parents. Both stay locked here, so with the source itself as
        destination the busy check waits for a lock this call holds. */
    method CheckEntries(fp: VfsNode, from: string, tp: VfsNode, to: string) returns (r: RenameOutcome)
      requires fp in nodes && tp in nodes && (fp.kind.Dir? && from in fp.kind.children ==> fp.kind.children[from] in nodes)
      ensures r == MoveOutcome(View(), fp, from, tp, to)
    {
      if !fp.kind.Dir? || !tp.kind.Dir? { return Refused(NotADirectory); }
      if from !in fp.kind.children { return Refused(NotFound); }
      var node := fp.kind.children[from];
      if node == tp { return Hangs; }
      if !node.kind.Symlink? && node.openCount > 0 { return Refused(FileBusy); }
      if to in tp.kind.children && !(fp == tp && to == from) { return Refused(FileExists); }
      r := Renamed;
    }

    /** The outcome of a rename, and the two directories if it is to go ahead. */
    method CheckMove(fromParentRel: string, from: string, toParentRel: string, to: string)
      returns (r: RenameOutcome, fp: VfsNode, tp: VfsNode)
      requires Shaped(View())
      ensures r == VfsTree.RenameIn(View(), Paths.Comps(fromParentRel), from, Paths.Comps(toParentRel), to).1
      ensures r.Renamed? ==> Get(View(), Paths.Comps(fromParentRel)) == Ok(fp) && Get(View(), Paths.Comps(toParentRel)) == Ok(tp)
      ensures r.Renamed? ==> fp in nodes && fp.kind.Dir? && from in fp.kind.children && tp in nodes && tp.kind.Dir?
    {
      fp, tp := root, root;
      if from == "" || to == "" { return Refused(InvalidArgument), fp, tp; }
      var f := RawGet(fromParentRel);
      if f.Err? { return Refused(f.error), fp, tp; }
      var t := RawGet(toParentRel);
      if t.Err? { return Refused(t.error), fp, tp; }
      fp, tp := f.value, t.value;
      assert HasChild(View(), fp, from) ==> Child(View(), fp, from) in nodes;
      r := CheckEntries(fp, from, tp, to);
    }

    /** Like the source, this does not check that the destination is outside the source. */
    method RenameIn(fromParentRel: string, from: string, toParentRel: string, to: string) returns (r: RenameOutcome)
      requires Valid()
      modifies nodes`kind
      ensures Now() == Step(old(Now()), Rename(Paths.Comps(fromParentRel), from, Paths.Comps(toParentRel), to))
      ensures r == VfsTree.RenameIn(old(View()), Paths.Comps(fromParentRel), from, Paths.Comps(toParentRel), to).1
      ensures Valid() <==> !(r.Renamed? && IntoItself(Paths.Comps(fromParentRel), from, Paths.Comps(toParentRel)))
    {
      var fp, tp;
      r, fp, tp := CheckMove(fromParentRel, from, toParentRel, to);
      if r.Renamed? {
        RenameFacts(Now(), Paths.Comps(fromParentRel), from, Paths.Comps(toParentRel), to, fp, tp);
        MoveEntry(fp, from, tp, to);
      } else {
        RefusedStep(Now(), Paths.Comps(fromParentRel), from, Paths.Comps(toParentRel), to);
      }
    }

    method MoveEntry(fp: VfsNode, from: string, tp: VfsNode, to: string)
      requires fp in nodes && fp.kind.Dir? && from in fp.kind.children && tp in nodes && tp.kind.Dir?
      modifies fp`kind, tp`kind
      ensures Now() == State(Moved(old(View()), fp, from, tp, to), old(handles))
    {
      if fp == tp { Relabel(fp, from, to); } else { Relink(fp, from, tp, to); }
    }
  }

  /** The saturating decrement of `close`. */
  function OneLess(count: nat): nat {
    if count > 0 then count - 1 else 0
  }

  lemma {:induction false} RenameFacts<N>(s: State<N>, f: Path, a: string, d: Path, b: string, fp: N, tp: N)
    requires Inv(s) && VfsTree.RenameIn(s.t, f, a, d, b).1.Renamed? && Get(s.t, f) == Ok(fp) && Get(s.t, d) == Ok(tp)
    ensures HasChild(s.t, fp, a) && tp in s.t.store && s.t.store[tp].kind.Dir?
    ensures var s' := State(Moved(s.t, fp, a, tp, b), s.handles);
            s' == Step(s, Rename(f, a, d, b)) && (Inv(s') <==> !IntoItself(f, a, d))
  {
    if !IntoItself(f, a, d) { StepKeepsInv(s, Rename(f, a, d, b)); }
    SuccessKeepsTreeIff(s.t, f, a, d, b);
  }

  lemma {:induction false} CreateFacts<N>(s: State<N>, cs: Path, leaf: string, p: N, x: N, node: Node<N>)
    requires Inv(s) && Get(s.t, cs) == Ok(p) && p in s.t.store && s.t.store[p].kind.Dir?
    requires leaf != "" && leaf !in s.t.store[p].kind.children
    requires x !in s.t.store && Childless(node) && node.openCount == 0
    ensures var u := Inserted(s.t, p, leaf, x);
            var s' := State(u.(store := u.store[x := node]), s.handles);
            s' == Step(s, Create(cs, leaf, x, node)) && Inv(s')
  {
    StepKeepsInv(s, Create(cs, leaf, x, node));
  }

  lemma {:induction false} DeleteFacts<N>(s: State<N>, cs: Path, leaf: string, p: N)
    requires Inv(s) && Get(s.t, cs) == Ok(p) && HasChild(s.t, p, leaf) && leaf != ""
    requires Child(s.t, p, leaf) in s.t.store && DeleteRefusal(s.t.store[Child(s.t, p, leaf)]) == None
    ensures Child(s.t, p, leaf) != p
    ensures var u := Removed(s.t, p, leaf);
            var s' := State(u.(store := u.store - {Child(s.t, p, leaf)}), s.handles);
            s' == Step(s, Delete(cs, leaf)) && Inv(s')
  {
    NoSelfEdge(s.t, cs, leaf);
    StepKeepsInv(s, Delete(cs, leaf));
  }

  lemma {:induction false} NoSelfEdge<N>(t: Tree<N>, p: Path, a: string)
    requires Shaped(t) && Get(t, p).Ok? && HasChild(t, Get(t, p).value, a)
    ensures Child(t, Get(t, p).value, a) != Get(t, p).value
  {
    WalkOne(t, Get(t, p).value, a);
    WalkAppend(t, t.root, p, [a]);
    if Child(t, Get(t, p).value, a) == Get(t, p).value { UniquePath(t, p, p + [a]); }
  }

  /** Distinct nodes of the store. */
  ghost predicate ChainIn<N>(nodes: set<N>, node: N, ancestors: seq<N>) {
    && node in nodes && node !in ancestors
    && (forall i | 0 <= i < |ancestors| :: ancestors[i] in nodes)
    && (forall i, j | 0 <= i < j < |ancestors| :: ancestors[i] != ancestors[j])
  }

  lemma {:induction false} OpenFacts<N>(s: State<N>, cs: Path)
    requires Inv(s) && VfsHandles.OpenAt(s.t, cs).1.Ok?
    ensures Inv(Step(s, Open(cs)))
    ensures var h := VfsHandles.OpenAt(s.t, cs).1.value; ChainIn(s.t.store.Keys, h.node, h.ancestors)
  {
    OpenKeepsInv(s, cs);
    OpenPins(s.t, cs);
    ChainFacts(s.t, VfsHandles.OpenAt(s.t, cs).1.value, cs);
  }

  lemma {:induction false} CloseFacts<N>(s: State<N>, i: nat)
    requires Inv(s) && i < |s.handles|
    ensures Inv(Step(s, VfsHandles.Close(i)))
    ensures var h := s.handles[i];
            && ChainIn(s.t.store.Keys, h.node, h.ancestors) && !s.t.store[h.node].kind.Symlink?
            && forall k | 0 <= k < |h.ancestors| :: h.ancestors[k] in s.t.store && s.t.store[h.ancestors[k]].kind.Dir?
  {
    CloseKeepsInv(s, i);
    assert Pinned(s.t, s.handles[i]);
    var cs :| OnPath(s.t, s.handles[i], cs);
    ChainFacts(s.t, s.handles[i], cs);
  }

  /** The nodes along a path are distinct, and all but the last are directories. */
  lemma {:induction false} ChainFacts<N>(t: Tree<N>, h: Handle<N>, cs: Path)
    requires WellFormed(t) && OnPath(t, h, cs)
    ensures h.node in t.store && h.node !in h.ancestors
    ensures forall i | 0 <= i < |h.ancestors| ::
              h.ancestors[i] in t.store && t.store[h.ancestors[i]].kind.Dir?
    ensures forall i, j | 0 <= i < j < |h.ancestors| :: h.ancestors[i] != h.ancestors[j]
  {
    forall i | 0 <= i < |Chain(h)|
      ensures Chain(h)[i] in t.store && (i < |h.ancestors| ==> t.store[Chain(h)[i]].kind.Dir?)
    {
      assert Get(t, cs[..i]) == Ok(Chain(h)[i]);
      WalkInStore(t, t.root, cs[..i]);
      if i < |h.ancestors| {
        assert Get(t, cs[..i + 1]).Ok? && cs[..i + 1] == cs[..i] + [cs[i]];
        WalkAppend(t, t.root, cs[..i], [cs[i]]);
      }
    }
    forall i, j | 0 <= i < j < |Chain(h)| ensures Chain(h)[i] != Chain(h)[j] {
      assert Get(t, cs[..i]) == Ok(Chain(h)[i]) && Get(t, cs[..j]) == Ok(Chain(h)[j]);
      if Chain(h)[i] == Chain(h)[j] { UniquePath(t, cs[..i], cs[..j]); }
    }
    assert Chain(h)[|h.ancestors|] == h.node;
    forall i | 0 <= i < |h.ancestors|
      ensures h.ancestors[i] in t.store && t.store[h.ancestors[i]].kind.Dir? && h.ancestors[i] != h.node
    {
      assert Chain(h)[i] == h.ancestors[i];
    }
    forall i, j | 0 <= i < j < |h.ancestors| ensures h.ancestors[i] != h.ancestors[j] {
      assert Chain(h)[i] == h.ancestors[i] && Chain(h)[j] == h.ancestors[j];
    }
  }
}
