/** Path strings of the virtual file system (kernel/src/fs/vfs.rs, kernel/src/fs/mod.rs). */
module Paths {

  /** `str::split('/')`: always at least one piece. */
  function Split(s: string): (r: seq<string>)
    ensures |r| > 0
  {
    if s == "" then [""]
    else
      var r := Split(s[1..]);
      if s[0] == '/' then [""] + r else [[s[0]] + r[0]] + r[1..]
  }

  function NonEmpty(segs: seq<string>): seq<string> {
    if segs == [] then []
    else if segs[0] == "" then NonEmpty(segs[1..])
    else [segs[0]] + NonEmpty(segs[1..])
  }

  /** The components a walk visits: the non-empty pieces, dots included. */
  function Comps(path: string): seq<string> {
    NonEmpty(Split(path))
  }

  /** One piece of a path acting on the components collected so far. */
  function Push(parts: seq<string>, seg: string): seq<string> {
    if seg == "" || seg == "." then parts
    else if seg == ".." then (if parts == [] then [] else parts[..|parts| - 1])
    else parts + [seg]
  }

  function Fold(parts: seq<string>, segs: seq<string>): seq<string>
    decreases segs
  {
    if segs == [] then parts else Fold(Push(parts, segs[0]), segs[1..])
  }

  /** A slash before every component. */
  function Slashed(cs: seq<string>): string {
    if cs == [] then "" else "/" + cs[0] + Slashed(cs[1..])
  }

  function Render(cs: seq<string>): string {
    if cs == [] then "/" else Slashed(cs)
  }

  function Normalize(path: string): string {
    Render(Fold([], Split(path)))
  }

  function MakeAbsolute(cwd: string, path: string): string {
    if "/" <= path then Normalize(path) else Normalize(cwd + "/" + path)
  }

  /** Position of the last slash, or -1. */
  function LastSlash(s: string): (i: int)
    ensures -1 <= i < |s|
    ensures i >= 0 ==> s[i] == '/'
    ensures forall k | i < k < |s| :: s[k] != '/'
  {
    if s == "" then -1
    else if s[|s| - 1] == '/' then |s| - 1
    else LastSlash(s[..|s| - 1])
  }

  function SplitParent(path: string): (string, string) {
    if path == "/" then ("/", "")
    else
      var i := LastSlash(path);
      if i < 0 then ("/", path)
      else if i == 0 then (path[..1], path[1..])
      else (path[..i], path[i + 1..])
  }

  function JoinRel(parent: string, leaf: string): string {
    if parent == "/" then "/" + leaf else parent + "/" + leaf
  }

  /** Components joined by slashes, none in front. */
  function JoinSlash(cs: seq<string>): string {
    if cs == [] then "" else if |cs| == 1 then cs[0] else cs[0] + "/" + JoinSlash(cs[1..])
  }

  /** The path to follow after a symlink found in directory `dir`. */
  function JoinSymlinkTarget(dir: string, target: string, rest: string): string {
    var base := if "/" <= target then target else dir + "/" + target;
    Normalize(if rest == "" then base else base + "/" + rest)
  }

  predicate PlainName(n: string) {
    n != "" && '/' !in n
  }

  /** A component that normalisation keeps. */
  predicate ValidName(n: string) {
    PlainName(n) && n != "." && n != ".."
  }

  predicate Plain(cs: seq<string>) {
    forall i | 0 <= i < |cs| :: PlainName(cs[i])
  }

  predicate Canonical(cs: seq<string>) {
    forall i | 0 <= i < |cs| :: ValidName(cs[i])
  }

  ghost predicate Normal(path: string) {
    exists cs :: Canonical(cs) && path == Render(cs)
  }

  lemma {:induction false} SplitPieces(s: string)
    ensures forall i | 0 <= i < |Split(s)| :: '/' !in Split(s)[i]
  {
    if s != "" { SplitPieces(s[1..]); }
  }

  lemma {:induction false} FoldCanonical(parts: seq<string>, segs: seq<string>)
    requires Canonical(parts) && forall i | 0 <= i < |segs| :: '/' !in segs[i]
    ensures Canonical(Fold(parts, segs))
    decreases segs
  {
    if segs != [] { FoldCanonical(Push(parts, segs[0]), segs[1..]); }
  }

  /** Whatever the input, the result of normalisation is a normal path. */
  lemma {:induction false} NormalizeIsNormal(path: string)
    ensures Canonical(Fold([], Split(path))) && Normal(Normalize(path))
  {
    SplitPieces(path);
    FoldCanonical([], Split(path));
  }

  lemma {:induction false} SplitName(n: string, rest: string)
    requires '/' !in n
    ensures Split(n + "/" + rest) == [n] + Split(rest)
    ensures Split(n) == [n]
  {
    if n == "" {
      assert n + "/" + rest == "/" + rest;
    } else {
      SplitName(n[1..], rest);
      assert (n + "/" + rest)[1..] == n[1..] + "/" + rest;
      assert [n[0]] + n[1..] == n;
    }
  }

  /** The pieces of a text with one more character in front. */
  function Prepended(c: char, r: seq<string>): seq<string>
    requires r != []
  {
    if c == '/' then [""] + r else [[c] + r[0]] + r[1..]
  }

  lemma {:induction false} SplitCons(c: char, s: string)
    ensures Split([c] + s) == Prepended(c, Split(s))
  {
    assert ([c] + s)[1..] == s;
  }

  lemma {:induction false} PrependedAppend(c: char, r: seq<string>, t: seq<string>)
    requires r != []
    ensures Prepended(c, r + t) == Prepended(c, r) + t
  {
    assert (r + t)[1..] == r[1..] + t;
  }

  lemma {:induction false} SlashedStep(n: string, t: string, cs: seq<string>)
    requires '/' !in n && Split(['/'] + t) == [""] + cs
    ensures Split(['/'] + (n + "/" + t)) == [""] + ([n] + cs)
  {
    SplitCons('/', t);
    assert Split(t) == ([""] + Split(t))[1..] == cs;
    SplitName(n, t);
    SplitCons('/', n + "/" + t);
  }

  lemma {:induction false} SplitSlashed(cs: seq<string>)
    requires Plain(cs) && cs != []
    ensures Split(Slashed(cs)) == [""] + cs
  {
    if |cs| == 1 {
      SplitName(cs[0], "");
      SplitCons('/', cs[0]);
      assert Slashed(cs) == ['/'] + cs[0];
    } else {
      SplitSlashed(cs[1..]);
      var rest := Slashed(cs[1..])[1..];
      assert Slashed(cs[1..]) == ['/'] + rest;
      SlashedStep(cs[0], rest, cs[1..]);
      assert Slashed(cs) == ['/'] + (cs[0] + "/" + rest) && [cs[0]] + cs[1..] == cs;
    }
  }

  lemma {:induction false} NonEmptyId(cs: seq<string>)
    requires Plain(cs)
    ensures NonEmpty(cs) == cs
  {
    if cs != [] { NonEmptyId(cs[1..]); }
  }

  /** A rendered path splits back into its components. */
  lemma {:induction false} CompsRender(cs: seq<string>)
    requires Plain(cs)
    ensures Comps(Render(cs)) == cs
  {
    if cs == [] {
      assert Split("/") == ["", ""];
      assert NonEmpty(["", ""]) == [];
    } else {
      SplitSlashed(cs);
      assert ([""] + cs)[1..] == cs;
      NonEmptyId(cs);
    }
  }

  lemma {:induction false} RenderInjective(a: seq<string>, b: seq<string>)
    requires Plain(a) && Plain(b) && Render(a) == Render(b)
    ensures a == b
  {
    CompsRender(a);
    CompsRender(b);
  }

  lemma {:induction false} FoldKeeps(parts: seq<string>, cs: seq<string>)
    requires Canonical(cs)
    ensures Fold(parts, cs) == parts + cs
    decreases cs
  {
    if cs == [] {
      assert parts + cs == parts;
    } else {
      FoldKeeps(parts + [cs[0]], cs[1..]);
      assert parts + [cs[0]] + cs[1..] == parts + cs;
    }
  }

  /** Normal paths are fixed points, hence normalisation is idempotent. */
  lemma {:induction false} NormalizeFixesNormal(cs: seq<string>)
    requires Canonical(cs)
    ensures Normalize(Render(cs)) == Render(cs)
  {
    if cs == [] {
      assert Split("/") == ["", ""];
      assert Fold([], ["", ""]) == Fold([], [""]) == [];
    } else {
      SplitSlashed(cs);
      assert ([""] + cs)[1..] == cs;
      FoldKeeps([], cs);
      assert [] + cs == cs;
    }
  }

  lemma {:induction false} NormalizeIdempotent(path: string)
    ensures Normalize(Normalize(path)) == Normalize(path)
  {
    NormalizeIsNormal(path);
    NormalizeFixesNormal(Fold([], Split(path)));
  }

  // ----- What normalisation means

  /** `ds` without its last `k` components; there is nothing above the root. */
  function Up(ds: seq<string>, k: nat): seq<string> {
    if k >= |ds| then [] else ds[..|ds| - k]
  }

  /** The pieces read from the right, where each ".." cancels the nearest name to its left that
      is still standing: the names left over, and how many ".." found no name. */
  function Standing(segs: seq<string>, cancel: nat): (seq<string>, nat)
    decreases |segs|
  {
    if segs == [] then ([], cancel)
    else
      var front, last := segs[..|segs| - 1], segs[|segs| - 1];
      if last == "" || last == "." then Standing(front, cancel)
      else if last == ".." then Standing(front, cancel + 1)
      else if cancel > 0 then Standing(front, cancel - 1)
      else var (names, ups) := Standing(front, 0); (names + [last], ups)
  }

  /** Where the pieces lead from directory `ds`. */
  function Led(ds: seq<string>, segs: seq<string>): seq<string> {
    var (names, ups) := Standing(segs, 0);
    Up(ds, ups) + names
  }

  lemma {:induction false} FoldAppend(parts: seq<string>, a: seq<string>, b: seq<string>)
    ensures Fold(parts, a + b) == Fold(Fold(parts, a), b)
    decreases a
  {
    if a == [] {
      assert a + b == b;
    } else {
      assert (a + b)[1..] == a[1..] + b;
      FoldAppend(Push(parts, a[0]), a[1..], b);
    }
  }

  lemma {:induction false} FoldLast(parts: seq<string>, segs: seq<string>)
    requires segs != []
    ensures Fold(parts, segs) == Push(Fold(parts, segs[..|segs| - 1]), segs[|segs| - 1])
  {
    var front, last := segs[..|segs| - 1], segs[|segs| - 1];
    assert segs == front + [last] && [last][1..] == [];
    FoldAppend(parts, front, [last]);
  }

  /** What climbing takes back of the last piece. */
  lemma {:induction false} UpPush(f: seq<string>, last: string, cancel: nat)
    ensures Up(Push(f, last), cancel) ==
            if last == "" || last == "." then Up(f, cancel)
            else if last == ".." then Up(f, cancel + 1)
            else if cancel > 0 then Up(f, cancel - 1)
            else f + [last]
  {
  }

  /** The left-to-right loop gives what reading from the right gives. */
  lemma {:induction false} FoldLeads(parts: seq<string>, segs: seq<string>, cancel: nat)
    ensures var (names, ups) := Standing(segs, cancel);
            Up(Fold(parts, segs), cancel) == Up(parts, ups) + names
    decreases |segs|
  {
    if segs == [] {
      assert Up(parts, cancel) + [] == Up(parts, cancel);
    } else {
      var front, last := segs[..|segs| - 1], segs[|segs| - 1];
      FoldLast(parts, segs);
      UpPush(Fold(parts, front), last, cancel);
      if last == "" || last == "." {
        FoldLeads(parts, front, cancel);
      } else if last == ".." {
        FoldLeads(parts, front, cancel + 1);
      } else if cancel > 0 {
        FoldLeads(parts, front, cancel - 1);
      } else {
        FoldLeads(parts, front, 0);
        var (names, ups) := Standing(front, 0);
        assert Up(parts, ups) + (names + [last]) == Up(parts, ups) + names + [last];
        assert Up(Fold(parts, front), 0) == Fold(parts, front);
      }
    }
  }

  lemma {:induction false} FoldIsLed(parts: seq<string>, segs: seq<string>)
    ensures Fold(parts, segs) == Led(parts, segs)
  {
    FoldLeads(parts, segs, 0);
    assert Up(Fold(parts, segs), 0) == Fold(parts, segs);
  }

  /** Names alone are all left standing. */
  lemma {:induction false} NamesStand(cs: seq<string>)
    requires Canonical(cs)
    ensures Standing(cs, 0) == (cs, 0)
    decreases |cs|
  {
    if cs != [] {
      NamesStand(cs[..|cs| - 1]);
      assert cs == cs[..|cs| - 1] + [cs[|cs| - 1]];
    }
  }

  lemma {:induction false} SplitJoin(a: string, b: string)
    ensures Split(a + "/" + b) == Split(a) + Split(b)
  {
    if a == "" {
      assert a + "/" + b == "/" + b && ("/" + b)[1..] == b;
    } else {
      SplitJoin(a[1..], b);
      SplitCons(a[0], a[1..] + "/" + b);
      SplitCons(a[0], a[1..]);
      PrependedAppend(a[0], Split(a[1..]), Split(b));
      assert [a[0]] + (a[1..] + "/" + b) == a + "/" + b && [a[0]] + a[1..] == a;
    }
  }

  /** The pieces of a rendered path lead to it from anywhere above. */
  lemma {:induction false} RenderLeads(ds: seq<string>)
    requires Canonical(ds)
    ensures Fold([], Split(Render(ds))) == ds
  {
    NormalizeFixesNormal(ds);
    NormalizeIsNormal(Render(ds));
    RenderInjective(Fold([], Split(Render(ds))), ds);
  }

  /** `normalize_path`: the pieces lead on from the root. */
  lemma {:induction false} NormalizeLeads(path: string)
    ensures Normalize(path) == Render(Led([], Split(path)))
  {
    FoldIsLed([], Split(path));
  }

  /** A relative path leads on from the directory it is joined to. */
  lemma {:induction false} NormalizeJoinLeads(ds: seq<string>, path: string)
    requires Canonical(ds)
    ensures Normalize(Render(ds) + "/" + path) == Render(Led(ds, Split(path)))
  {
    SplitJoin(Render(ds), path);
    FoldAppend([], Split(Render(ds)), Split(path));
    RenderLeads(ds);
    FoldIsLed(ds, Split(path));
  }

  /** ".." goes to the parent, and the root is its own parent. */
  lemma {:induction false} DotDotIsParent(ds: seq<string>)
    requires Canonical(ds)
    ensures Normalize(Render(ds) + "/..") == Render(if ds == [] then [] else ds[..|ds| - 1])
  {
    SplitName("..", "");
    NormalizeJoinLeads(ds, "..");
    assert Render(ds) + "/" + ".." == Render(ds) + "/..";
    assert [".."][..0] == [] && Standing([".."], 0) == ([], 1);
    assert Up(ds, 1) + [] == Up(ds, 1);
  }

  /** `make_absolute`: a path with a leading slash starts at the root, any other at the current
      directory. */
  lemma {:induction false} AbsoluteLeads(cwd: seq<string>, path: string)
    requires Canonical(cwd)
    ensures MakeAbsolute(Render(cwd), path) == Render(Led(if "/" <= path then [] else cwd, Split(path)))
  {
    if "/" <= path { NormalizeLeads(path); } else { NormalizeJoinLeads(cwd, path); }
  }

  lemma {:induction false} SplitJoinSlash(rs: seq<string>)
    requires Plain(rs) && rs != []
    ensures Split(JoinSlash(rs)) == rs && JoinSlash(rs) != ""
  {
    if |rs| == 1 {
      SplitName(rs[0], "");
    } else {
      SplitJoinSlash(rs[1..]);
      SplitName(rs[0], JoinSlash(rs[1..]));
      assert [rs[0]] + rs[1..] == rs;
    }
  }

  /** `join_symlink_target`: an absolute target leads on from the root and a relative one from
      the directory of the link, each ".." climbing from there; what is left of the path
      follows. */
  lemma {:induction false} SymlinkLeads(ds: seq<string>, target: string, rs: seq<string>)
    requires Canonical(ds) && Canonical(rs)
    ensures JoinSymlinkTarget(Render(ds), target, JoinSlash(rs)) ==
            Render(Led(if "/" <= target then [] else ds, Split(target)) + rs)
  {
    var from := if "/" <= target then [] else ds;
    var base := if "/" <= target then target else Render(ds) + "/" + target;
    assert Fold([], Split(base)) == Led(from, Split(target)) by {
      if "/" <= target {
        FoldIsLed([], Split(target));
      } else {
        SplitJoin(Render(ds), target);
        FoldAppend([], Split(Render(ds)), Split(target));
        RenderLeads(ds);
        FoldIsLed(ds, Split(target));
      }
    }
    if rs == [] {
      assert Led(from, Split(target)) + rs == Led(from, Split(target));
    } else {
      SplitJoinSlash(rs);
      SplitJoin(base, JoinSlash(rs));
      FoldAppend([], Split(base), rs);
      FoldKeeps(Fold([], Split(base)), rs);
    }
  }

  /** With plain names in the target, no climbing is left. */
  lemma {:induction false} PlainTargetLeads(ds: seq<string>, ts: seq<string>, rs: seq<string>)
    requires Canonical(ds) && Canonical(ts) && Canonical(rs) && ts != []
    ensures JoinSymlinkTarget(Render(ds), JoinSlash(ts), JoinSlash(rs)) == Render(ds + ts + rs)
    ensures JoinSymlinkTarget(Render(ds), Render(ts), JoinSlash(rs)) == Render(ts + rs)
  {
    SplitJoinSlash(ts);
    NamesStand(ts);
    SymlinkLeads(ds, JoinSlash(ts), rs);
    SymlinkLeads(ds, Render(ts), rs);
    JoinSlashIsRelative(ts);
    SlashedIsLong(ts);
    SplitSlashed(ts);
    SlashStands(ts);
    assert [] + ts == ts && Up(ds, 0) == ds;
  }

  lemma {:induction false} JoinSlashIsRelative(ts: seq<string>)
    requires Plain(ts) && ts != []
    ensures !("/" <= JoinSlash(ts))
  {
    assert ts[0] != "" && ts[0][0] != '/' && JoinSlash(ts)[0] == ts[0][0];
  }

  lemma {:induction false} SlashStands(ts: seq<string>)
    requires Canonical(ts)
    ensures Standing([""] + ts, 0) == (ts, 0)
    decreases |ts|
  {
    if ts == [] {
      assert [""] + ts == [""] && [""][..0] == [];
    } else {
      var segs := [""] + ts;
      assert segs[..|segs| - 1] == [""] + ts[..|ts| - 1] && ts == ts[..|ts| - 1] + [ts[|ts| - 1]];
      SlashStands(ts[..|ts| - 1]);
    }
  }

  lemma {:induction false} SlashedAppend(a: seq<string>, b: seq<string>)
    ensures Slashed(a + b) == Slashed(a) + Slashed(b)
  {
    if a == [] {
      assert a + b == b;
    } else {
      SlashedAppend(a[1..], b);
      assert (a + b)[1..] == a[1..] + b;
    }
  }

  lemma {:induction false} SlashedIsLong(cs: seq<string>)
    requires Plain(cs) && cs != []
    ensures |Slashed(cs)| > 1 && Slashed(cs)[0] == '/'
  {
    assert cs[0] != "";
  }

  lemma {:induction false} LastSlashIs(s: string, i: int)
    requires 0 <= i < |s| && s[i] == '/' && forall k | i < k < |s| :: s[k] != '/'
    ensures LastSlash(s) == i
  {
  }

  /** `split_parent` takes off exactly the last component of a normal path. */
  lemma {:induction false} SplitParentRender(cs: seq<string>)
    requires Plain(cs) && cs != []
    ensures SplitParent(Render(cs)) == (Render(cs[..|cs| - 1]), cs[|cs| - 1])
  {
    var d, leaf := cs[..|cs| - 1], cs[|cs| - 1];
    assert cs == d + [leaf];
    SlashedAppend(d, [leaf]);
    assert Slashed([leaf]) == "/" + leaf;
    var s := Slashed(cs);
    assert s == Slashed(d) + "/" + leaf;
    LastSlashIs(s, |Slashed(d)|);
    assert s[..|Slashed(d)|] == Slashed(d) && s[|Slashed(d)| + 1..] == leaf;
    if d != [] {
      assert Slashed(d) != "";
    } else {
      assert s[..1] == "/";
    }
    assert s != "/";
  }

  lemma {:induction false} JoinRelRender(cs: seq<string>, leaf: string)
    requires Plain(cs)
    ensures JoinRel(Render(cs), leaf) == Render(cs + [leaf])
  {
    SlashedAppend(cs, [leaf]);
    assert Slashed([leaf]) == "/" + leaf;
    if cs != [] {
      SlashedIsNotRoot(cs);
      assert Slashed(cs + [leaf]) == Slashed(cs) + ("/" + leaf);
      assert Slashed(cs) + "/" + leaf == Slashed(cs) + ("/" + leaf);
    } else {
      assert cs + [leaf] == [leaf];
    }
  }

  lemma {:induction false} SlashedIsNotRoot(cs: seq<string>)
    requires Plain(cs) && cs != []
    ensures Slashed(cs) != "/"
  {
    assert PlainName(cs[0]);
    assert |Slashed(cs)| == 1 + |cs[0]| + |Slashed(cs[1..])|;
  }

  /** `join_rel` undoes `split_parent` on every normal path but the root. */
  lemma {:induction false} JoinUndoesSplit(path: string)
    requires Normal(path) && path != "/"
    ensures JoinRel(SplitParent(path).0, SplitParent(path).1) == path
    ensures Normal(SplitParent(path).0) && ValidName(SplitParent(path).1)
  {
    var cs :| Canonical(cs) && path == Render(cs);
    SplitParentRender(cs);
    JoinRelRender(cs[..|cs| - 1], cs[|cs| - 1]);
    assert cs[..|cs| - 1] + [cs[|cs| - 1]] == cs;
    assert Canonical(cs[..|cs| - 1]);
  }

  // ----- Prefixes of paths are prefixes of their components

  lemma {:induction false} SameFirst(x: string, y: string, u: string, v: string)
    requires '/' !in x && '/' !in y
    requires u == "" || u[0] == '/'
    requires v == "" || v[0] == '/'
    requires u != "" && x + u <= y + v
    ensures x == y && u <= v
  {
    if x == "" {
      assert (x + u)[0] == '/';
      assert x + u == u && y + v == v;
    } else {
      assert (x + u)[0] == x[0] && (y + v)[0] == x[0];
      assert y == "" ==> y + v == v;
      if y != "" {
        assert (x + u)[1..] == x[1..] + u && (y + v)[1..] == y[1..] + v;
        SameFirst(x[1..], y[1..], u, v);
      }
    }
  }

  lemma {:induction false} PrefixImpliesUnder(a: seq<string>, b: seq<string>)
    requires a <= b
    ensures Slashed(a) + "/" <= Slashed(b) + "/"
  {
    assert b == a + b[|a|..];
    SlashedAppend(a, b[|a|..]);
    var rest := Slashed(b[|a|..]);
    assert rest + "/" != "" && (rest + "/")[0] == '/';
    assert Slashed(b) + "/" == Slashed(a) + (rest + "/");
  }

  lemma {:induction false} UnderImpliesPrefix(a: seq<string>, b: seq<string>)
    requires Plain(a) && Plain(b) && Slashed(a) + "/" <= Slashed(b) + "/"
    ensures a <= b
  {
    if a != [] {
      assert |Slashed(a)| > 1;
      assert b != [];
      var u, v := Slashed(a[1..]) + "/", Slashed(b[1..]) + "/";
      assert (Slashed(a) + "/")[1..] == a[0] + u;
      assert (Slashed(b) + "/")[1..] == b[0] + v;
      SameFirst(a[0], b[0], u, v);
      UnderImpliesPrefix(a[1..], b[1..]);
      assert a == [a[0]] + a[1..] && b == [b[0]] + b[1..];
    }
  }

  /** A path lies at or under another exactly when its components extend the other's. */
  lemma {:induction false} UnderIffPrefix(a: seq<string>, b: seq<string>)
    requires Plain(a) && Plain(b)
    ensures Slashed(a) + "/" <= Slashed(b) + "/" <==> a <= b
  {
    if a <= b { PrefixImpliesUnder(a, b); }
    if Slashed(a) + "/" <= Slashed(b) + "/" { UnderImpliesPrefix(a, b); }
  }

  /** In-place form of `normalize_path`. */
  method NormalizePath(path: string) returns (out: string)
    ensures out == Normalize(path)
  {
    var segs := Split(path);
    var parts: seq<string> := [];
    for i := 0 to |segs|
      invariant Fold(parts, segs[i..]) == Fold([], segs)
    {
      assert segs[i..][0] == segs[i] && segs[i..][1..] == segs[i + 1..];
      if segs[i] == "" || segs[i] == "." {
      } else if segs[i] == ".." {
        if |parts| > 0 { parts := parts[..|parts| - 1]; }
      } else {
        parts := parts + [segs[i]];
      }
    }
    assert Fold(parts, segs[|segs|..]) == parts;
    out := RenderParts(parts);
  }

  /** Writes the components out, a slash before each. */
  method RenderParts(parts: seq<string>) returns (out: string)
    ensures out == Render(parts)
  {
    if |parts| == 0 { return "/"; }
    out := "";
    for i := 0 to |parts|
      invariant out + Slashed(parts[i..]) == Slashed(parts)
    {
      assert parts[i..][1..] == parts[i + 1..];
      assert out + Slashed(parts[i..]) == out + "/" + parts[i] + Slashed(parts[i + 1..]);
      out := out + "/" + parts[i];
    }
    assert Slashed(parts[|parts|..]) == "";
  }
}
