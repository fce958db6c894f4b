/** The build script's dependency order of drivers (kernel/build.rs): a depth-first search
    that marks drivers as being visited and visited and collects them in post-order. */
module DriverOrder {

  type Name = string

  /** Each driver and the drivers it imports. */
  type Graph = map<Name, seq<Name>>

  datatype Mark = Visiting | Visited

  datatype Outcome =
    | Ok
    | Circular(node: Name)
    | UnknownDriver(node: Name)
    | UnknownImport(node: Name, dep: Name)

  // ----- Reference notions, independent of the search

  ghost predicate ImportsAreKeys(g: Graph) {
    forall n, d | n in g && d in g[n] :: d in g
  }

  /** Each entry imports the next. */
  ghost predicate Path(g: Graph, p: seq<Name>) {
    && (forall i | 0 <= i < |p| :: p[i] in g)
    && (forall i | 0 <= i < |p| - 1 :: p[i + 1] in g[p[i]])
  }

  ghost predicate Cycle(g: Graph, p: seq<Name>) {
    |p| > 1 && Path(g, p) && p[0] == p[|p| - 1]
  }

  ghost predicate Acyclic(g: Graph) {
    forall p :: !Cycle(g, p)
  }

  predicate NoRepeats(o: seq<Name>) {
    forall i, j | 0 <= i < j < |o| :: o[i] != o[j]
  }

  /** Every import of a listed driver is listed before it. */
  ghost predicate ImportsFirst(g: Graph, o: seq<Name>) {
    forall i, d | 0 <= i < |o| && o[i] in g && d in g[o[i]] :: d in o[..i]
  }

  // ----- The search

  /** The marks agree with the drivers already listed and with the drivers on the stack,
      and the stack is a path of imports. */
  ghost predicate Consistent(g: Graph, marks: map<Name, Mark>, o: seq<Name>, stack: seq<Name>) {
    && (forall n :: n in marks && marks[n] == Visited <==> n in o)
    && (forall n :: n in marks && marks[n] == Visiting <==> n in stack)
    && (forall i | 0 <= i < |o| :: o[i] in g)
    && NoRepeats(o) && ImportsFirst(g, o) && Path(g, stack)
  }

  lemma {:induction false} StackClosesCycle(g: Graph, stack: seq<Name>, node: Name)
    requires Path(g, stack) && node in stack && node in g[stack[|stack| - 1]]
    ensures exists p :: Cycle(g, p) && p[0] == node
  {
    var k :| 0 <= k < |stack| && stack[k] == node;
    var p := stack[k..] + [node];
    forall i | 0 <= i < |p| - 1 ensures p[i + 1] in g[p[i]] {
      if i + 1 < |p| - 1 { assert stack[k + i + 1] in g[stack[k + i]]; }
    }
    assert Cycle(g, p);
  }

  lemma {:induction false} ListNode(g: Graph, marks: map<Name, Mark>, o: seq<Name>, stack: seq<Name>, node: Name)
    requires Consistent(g, marks, o, stack + [node]) && node in g && node !in stack
    requires forall d | d in g[node] :: d in o
    ensures Consistent(g, marks[node := Visited], o + [node], stack)
  {
    var o', m' := o + [node], marks[node := Visited];
    assert (stack + [node])[|stack|] == node;
    assert forall n :: n in o' <==> n in o || n == node;
    assert forall n :: n in stack + [node] <==> n in stack || n == node;
    assert ImportsFirst(g, o') by {
      forall i, d | 0 <= i < |o'| && o'[i] in g && d in g[o'[i]] ensures d in o'[..i] {
        if i < |o| { assert o'[..i] == o[..i]; } else { assert o'[..i] == o; }
      }
    }
    assert Path(g, stack) by {
      assert forall i | 0 <= i < |stack| :: (stack + [node])[i] == stack[i];
    }
  }

  lemma {:induction false} EnterNode(g: Graph, marks: map<Name, Mark>, o: seq<Name>, stack: seq<Name>, node: Name)
    requires Consistent(g, marks, o, stack) && node in g && node !in marks
    requires stack != [] ==> node in g[stack[|stack| - 1]]
    ensures Consistent(g, marks[node := Visiting], o, stack + [node])
  {
    assert forall n :: n in stack + [node] <==> n in stack || n == node;
    var s := stack + [node];
    forall i | 0 <= i < |s| - 1 ensures s[i + 1] in g[s[i]] {
      if i + 1 < |stack| { assert stack[i + 1] in g[stack[i]]; }
    }
  }

  method Dfs(node: Name, g: Graph, marks0: map<Name, Mark>, order0: seq<Name>, ghost stack: seq<Name>)
    returns (r: Outcome, marks: map<Name, Mark>, order: seq<Name>)
    requires Consistent(g, marks0, order0, stack)
    requires stack != [] ==> node in g[stack[|stack| - 1]]
    ensures r == Ok ==> Consistent(g, marks, order, stack) && node in order && order0 <= order
    ensures r == Ok ==> marks0.Keys <= marks.Keys
    ensures r.Circular? ==> exists p :: Cycle(g, p) && p[0] == r.node
    ensures r.UnknownDriver? ==> r.node == node && node !in g
    ensures r.UnknownImport? ==> r.node in g && r.dep in g[r.node] && r.dep !in g
    decreases g.Keys - marks0.Keys
  {
    marks, order := marks0, order0;
    if node in marks {
      if marks[node] == Visited { return Ok, marks, order; }
      StackClosesCycle(g, stack, node);
      return Circular(node), marks, order;
    }
    if node !in g {
      marks := marks[node := Visiting];
      return UnknownDriver(node), marks, order;
    }
    EnterNode(g, marks, order, stack, node);
    marks := marks[node := Visiting];
    ghost var inner := stack + [node];
    var deps := g[node];
    for i := 0 to |deps|
      invariant Consistent(g, marks, order, inner) && order0 <= order
      invariant marks0.Keys + {node} <= marks.Keys
      invariant forall j | 0 <= j < i :: deps[j] in order
    {
      if deps[i] !in g { return UnknownImport(node, deps[i]), marks, order; }
      assert inner[|inner| - 1] == node;
      ghost var before := order;
      r, marks, order := Dfs(deps[i], g, marks, order, inner);
      if r != Ok { return; }
      forall j | 0 <= j < i ensures deps[j] in order { assert deps[j] in before; }
    }
    ListNode(g, marks, order, stack, node);
    marks, order := marks[node := Visited], order + [node];
    r := Ok;
  }

  /** An order that lists imports first leaves no room for a cycle. */
  lemma {:induction false} OrderedMeansAcyclic(g: Graph, o: seq<Name>, p: seq<Name>)
    requires ImportsFirst(g, o) && (forall n | n in g :: n in o) && NoRepeats(o)
    ensures !Cycle(g, p)
  {
    if Cycle(g, p) {
      var first := Position(o, p[0]);
      Descends(g, o, p, |p| - 1, first);
      assert false;
    }
  }

  lemma {:induction false} Position(o: seq<Name>, n: Name) returns (i: nat)
    requires n in o
    ensures i < |o| && o[i] == n
  {
    i :| 0 <= i < |o| && o[i] == n;
  }

  /** Along a path of imports the position in the order strictly decreases. */
  lemma {:induction false} Descends(g: Graph, o: seq<Name>, p: seq<Name>, k: nat, first: nat)
    requires ImportsFirst(g, o) && NoRepeats(o) && Path(g, p) && 0 < k < |p| && first < |o| && o[first] == p[0]
    ensures exists i :: 0 <= i < first && o[i] == p[k]
    decreases k
  {
    if k == 1 {
      assert p[1] in g[p[0]];
      assert p[1] in o[..first];
      var i :| 0 <= i < first && o[..first][i] == p[1];
      assert o[i] == p[1];
    } else {
      Descends(g, o, p, k - 1, first);
      var i :| 0 <= i < first && o[i] == p[k - 1];
      assert p[k - 1 + 1] in g[p[k - 1]];
      assert p[k] in o[..i];
      var j :| 0 <= j < i && o[..i][j] == p[k];
      assert o[j] == p[k];
    }
  }

  /** The driver loop over the keys, in any order. It succeeds exactly when every import is a
      known driver and there is no cycle; then every driver is listed once, after all its
      imports. */
  method OrderDrivers(g: Graph, keys: seq<Name>) returns (r: Outcome, order: seq<Name>)
    requires forall n :: n in keys <==> n in g
    ensures r == Ok <==> ImportsAreKeys(g) && Acyclic(g)
    ensures r == Ok ==> NoRepeats(order) && (forall n :: n in order <==> n in g) && ImportsFirst(g, order)
    ensures r.Circular? ==> exists p :: Cycle(g, p) && p[0] == r.node
    ensures r.UnknownImport? ==> r.node in g && r.dep in g[r.node] && r.dep !in g
    ensures !r.UnknownDriver?
  {
    var marks: map<Name, Mark> := map[];
    order := [];
    for i := 0 to |keys|
      invariant Consistent(g, marks, order, [])
      invariant forall j | 0 <= j < i :: keys[j] in order
    {
      ghost var before := order;
      r, marks, order := Dfs(keys[i], g, marks, order, []);
      if r != Ok { return; }
      forall j | 0 <= j < i ensures keys[j] in order { assert keys[j] in before; }
    }
    r := Ok;
    forall n | n in g ensures n in order { assert n in keys; }
    forall p ensures !Cycle(g, p) { OrderedMeansAcyclic(g, order, p); }
    forall n, d | n in g && d in g[n] ensures d in g {
      var i := Position(order, n);
      assert d in order[..i];
    }
  }
}
