/**
 * The namespace tree as the sequence of its nodes in preorder.
 *
 * A folder is only ever the last of its siblings, so the tree is a spine: what follows a folder in preorder is
 * what hangs under it, and what follows a file is its next sibling.
 */
module NamespaceSpec {
  import opened Bytes

  const REP := 5
  const HOME: string := "home"

  datatype Data = Data(nno: int, pno: int, fname: string, dname: seq<string>, loc: string, dflag: int, dsync: seq<int>)
  {
    predicate IsFolder() { dflag == 1 }
  }

  type Tree = seq<Data>

  /** The record that addfile (0) and addfolder (1) make. */
  function NewData(fname: string, dname: string, loc: string, dflag: int): (d: Data)
    ensures |d.dname| == REP && |d.dsync| == REP
  {
    Data(0, 0, fname, [dname, "none", "none", "none", "none"], loc, dflag, [1, 0, 0, 0, 0])
  }

  /** The root of `ninitialize`, which leaves `dsync` as it finds it. */
  function Root(dsync: seq<int>): Data {
    Data(1, 0, HOME, ["Root", "none", "none", "none", "none"], "Root", 1, dsync)
  }

  datatype Result = Found(at: nat) | NotFound | Crash

  /** The `next` and `fold` pointers; `|d|` stands for null. */
  function Next(d: Tree, i: nat): nat
    requires i < |d|
  {
    if d[i].IsFolder() then |d| else i + 1
  }

  function Fold(d: Tree, i: nat): nat
    requires i < |d|
  {
    if d[i].IsFolder() then i + 1 else |d|
  }

  /** The first slash, or the length. */
  function Slash(path: string): (p: nat)
    ensures p <= |path| && (p < |path| ==> path[p] == '/') && forall i | 0 <= i < p :: path[i] != '/'
  {
    if path == "" then 0 else if path[0] == '/' then 0 else 1 + Slash(path[1..])
  }

  /** What `parserpath` extracts: the first component, but the whole path when that component is one letter. */
  function Component(path: string): string {
    var p := Slash(path);
    if p == 1 then path else path[..p]
  }

  /** The first of the siblings from `i` with the name. */
  function Walk(d: Tree, i: nat, name: string): (k: nat)
    requires i <= |d|
    ensures i <= k <= |d| && (k < |d| ==> d[k].fname == name)
    decreases |d| - i
  {
    if i == |d| || d[i].fname == name then i else if d[i].IsFolder() then |d| else Walk(d, i + 1, name)
  }

  /** The last component; a null start is dereferenced. */
  function LastStep(d: Tree, i: nat, name: string): (r: Result)
    requires d != [] && i <= |d|
    ensures r.Found? ==> r.at < |d|
  {
    if name == HOME then Found(0)
    else if i == |d| then Crash
    else
      var k := Walk(d, if d[i].fname == HOME then Fold(d, 0) else i, name);
      if k == |d| then NotFound else Found(k)
  }

  /** The names that the recursion of `searchloc` compares, one per level. */
  function Steps(path: string): (names: seq<string>)
    ensures names != []
    decreases |path|
  {
    var p := Slash(path);
    if p < |path| then [Component(path)] + Steps(path[p + 1..]) else [path]
  }

  lemma {:induction false} StepsUnfold(path: string)
    ensures var p := Slash(path);
            Steps(path) == if p < |path| then [Component(path)] + Steps(path[p + 1..]) else [path]
  {
  }

  /** `searchloc` from the siblings at `i` with the names from the `s`-th on. */
  function Descend(d: Tree, i: nat, names: seq<string>, s: nat): (r: Result)
    requires d != [] && i <= |d| && s < |names|
    ensures r.Found? ==> r.at < |d|
    decreases |names| - s
  {
    if s == |names| - 1 then LastStep(d, i, names[s])
    else
      var k := Walk(d, i, names[s]);
      if k == |d| then NotFound else Descend(d, Fold(d, k), names, s + 1)
  }

  function Search(d: Tree, path: string): (r: Result)
    requires d != []
    ensures r.Found? ==> r.at < |d|
  {
    if path == HOME then Found(0) else Descend(d, 0, Steps(path), 0)
  }

  /** The last of the siblings from `i`. */
  function LastSibling(d: Tree, i: nat): (k: nat)
    requires i < |d|
    ensures i <= k < |d| && (forall j | i <= j < k :: !d[j].IsFolder()) && (d[k].IsFolder() || k == |d| - 1)
    decreases |d| - i
  {
    if d[i].IsFolder() || i == |d| - 1 then i else LastSibling(d, i + 1)
  }

  /** The node that `searchlast` returns for node `k`: its last child, or itself when it has none. */
  function LastOf(d: Tree, k: nat): (m: nat)
    requires k < |d|
    ensures k <= m < |d|
  {
    if Fold(d, k) == |d| then k else LastSibling(d, Fold(d, k))
  }

  /** The tree after `addnode` has hung a node under or behind node `m`; what was there is no longer reachable. */
  function Added(d: Tree, m: nat, entry: Data, nodeno: int): Tree
    requires m < |d|
  {
    d[..m + 1] + [entry.(pno := d[m].nno, nno := nodeno + 1)]
  }

  /** The node that `searchlast` finds for a path. */
  function HangsAt(d: Tree, path: string): (m: Option<nat>)
    requires d != []
    ensures m.Some? ==> m.value < |d|
  {
    var r := Search(d, path);
    if r.Found? then Some(LastOf(d, r.at)) else None
  }

  /** `addnode`; nothing when the path leads nowhere, where it dereferences null. */
  function Hung(d: Tree, path: string, entry: Data, nodeno: int): (e: Option<Tree>)
    requires d != []
    ensures e.Some? ==> e.value != []
  {
    match HangsAt(d, path)
    case None => None
    case Some(m) => Some(Added(d, m, entry, nodeno))
  }

  /** `e` is `d` up to node `n` and one more node. */
  ghost predicate GrownAt(d: Tree, e: Tree, n: nat) {
    n < |d| && |e| == n + 2 && e[..n + 1] == d[..n + 1]
  }

  /** `n` is the last child of folder `k`; a file, or a folder with no child, is it itself. */
  ghost predicate LastUnder(d: Tree, k: nat, n: nat) {
    && k <= n < |d|
    && if d[k].dflag == 1 && k + 1 < |d|
       then k < n && (forall j | k < j < n :: d[j].dflag != 1) && (n == |d| - 1 || d[n].dflag == 1)
       else n == k
  }

  /** What is hung where, told by the fields. */
  lemma HungIs(d: Tree, path: string, entry: Data, nodeno: int) returns (n: nat)
    requires d != [] && Hung(d, path, entry, nodeno).Some?
    ensures var e := Hung(d, path, entry, nodeno).value;
            && Search(d, path).Found? && LastUnder(d, Search(d, path).at, n) && GrownAt(d, e, n)
            && e[n + 1] == Data(nodeno + 1, d[n].nno, entry.fname, entry.dname, entry.loc, entry.dflag, entry.dsync)
            && e[n] == d[n]
  {
    n := LastOf(d, Search(d, path).at);
  }

  function Without(d: Tree, k: nat): (e: Tree)
    requires k < |d|
    ensures |e| == |d| - 1 && forall j | 0 <= j < |e| :: e[j] == d[if j < k then j else j + 1]
  {
    d[..k] + d[k + 1..]
  }

  // ---------------------------------------------------------------- names

  /** Only the root is called home. */
  ghost predicate OneHome(d: Tree) {
    d != [] && forall i | 1 <= i < |d| :: d[i].fname != HOME
  }

  predicate EndsHome(names: seq<string>)
    requires names != []
  {
    names[|names| - 1] == HOME
  }

  /** The path does not come back to the root by its last component. */
  predicate GoodLoc(path: string) { path == HOME || !EndsHome(Steps(path)) }

  // ---------------------------------------------------------------- what a search depends on

  /** Two trees that agree up to node `k`, except in the numbers. */
  ghost predicate Agree(d: Tree, e: Tree, k: nat) {
    k < |d| && k < |e| && forall j | 0 <= j <= k :: Alike(d[j], e[j])
  }

  /** The same record up to the two numbers. */
  predicate Alike(a: Data, b: Data) {
    a == b.(nno := a.nno, pno := a.pno)
  }

  lemma {:induction false} WalkAgrees(d: Tree, e: Tree, i: nat, name: string)
    requires i <= |d| && Walk(d, i, name) < |d| && Agree(d, e, Walk(d, i, name))
    ensures Walk(e, i, name) == Walk(d, i, name)
    decreases |d| - i
  {
    assert Alike(d[i], e[i]);
    if d[i].fname != name {
      WalkAgrees(d, e, i + 1, name);
    }
  }

  /** A search finds nothing before its start. */
  lemma {:induction false} DescendFrom(d: Tree, i: nat, names: seq<string>, s: nat)
    requires OneHome(d) && i <= |d| && s < |names| && !EndsHome(names) && Descend(d, i, names, s).Found?
    ensures i <= Descend(d, i, names, s).at
    decreases |names| - s
  {
    if s < |names| - 1 {
      DescendFrom(d, Fold(d, Walk(d, i, names[s])), names, s + 1);
    }
  }

  lemma LastStepAgrees(d: Tree, e: Tree, i: nat, name: string)
    requires OneHome(d) && i <= |d| && name != HOME && LastStep(d, i, name).Found?
    requires Agree(d, e, LastStep(d, i, name).at)
    ensures i <= |e| && LastStep(e, i, name) == LastStep(d, i, name)
  {
    assert Alike(d[0], e[0]) && Alike(d[i], e[i]);
    WalkAgrees(d, e, if d[i].fname == HOME then Fold(d, 0) else i, name);
  }

  /** A search that succeeds looks at nothing behind the node it finds. */
  lemma {:induction false} DescendAgrees(d: Tree, e: Tree, i: nat, names: seq<string>, s: nat)
    requires OneHome(d) && i <= |d| && s < |names| && !EndsHome(names) && Descend(d, i, names, s).Found?
    requires Agree(d, e, Descend(d, i, names, s).at)
    ensures i <= |e| && Descend(e, i, names, s) == Descend(d, i, names, s)
    decreases |names| - s
  {
    if s < |names| - 1 {
      var k := Walk(d, i, names[s]);
      DescendFrom(d, Fold(d, k), names, s + 1);
      WalkAgrees(d, e, i, names[s]);
      assert Alike(d[k], e[k]);
      DescendAgrees(d, e, Fold(d, k), names, s + 1);
    } else {
      LastStepAgrees(d, e, i, names[s]);
    }
  }

  lemma SearchAgrees(d: Tree, e: Tree, path: string)
    requires OneHome(d) && GoodLoc(path) && Search(d, path).Found? && Agree(d, e, Search(d, path).at)
    ensures Search(e, path) == Search(d, path)
  {
    if path != HOME {
      DescendAgrees(d, e, 0, Steps(path), 0);
    }
  }

  lemma {:induction false} LastSiblingAgrees(d: Tree, e: Tree, i: nat)
    requires i < |d| && Agree(d, e, LastSibling(d, i)) && (|e| == |d| || |e| == LastSibling(d, i) + 1)
    ensures LastSibling(e, i) == LastSibling(d, i)
    decreases |d| - i
  {
    assert Alike(d[i], e[i]);
    if !d[i].IsFolder() && i < |d| - 1 {
      LastSiblingAgrees(d, e, i + 1);
    }
  }

  lemma {:induction false} LastOfAgrees(d: Tree, e: Tree, k: nat)
    requires k < |d| && Agree(d, e, LastOf(d, k)) && (|e| == |d| || |e| == LastOf(d, k) + 1)
    ensures LastOf(e, k) == LastOf(d, k)
  {
    assert Alike(d[k], e[k]);
    if Fold(d, k) < |d| {
      LastSiblingAgrees(d, e, Fold(d, k));
    }
  }

  // ---------------------------------------------------------------- numbers do not matter

  /** The same tree up to the numbers. */
  ghost predicate SameTree(d: Tree, e: Tree) {
    |e| == |d| && forall j | 0 <= j < |d| :: Alike(d[j], e[j])
  }

  lemma {:induction false} WalkSame(d: Tree, e: Tree, i: nat, name: string)
    requires SameTree(d, e) && i <= |d|
    ensures Walk(e, i, name) == Walk(d, i, name)
    decreases |d| - i
  {
    if i < |d| {
      assert Alike(d[i], e[i]);
      WalkSame(d, e, i + 1, name);
    }
  }

  lemma LastStepSame(d: Tree, e: Tree, i: nat, name: string)
    requires SameTree(d, e) && d != [] && i <= |d|
    ensures LastStep(e, i, name) == LastStep(d, i, name)
  {
    if name != HOME && i < |d| {
      assert Alike(d[0], e[0]) && Alike(d[i], e[i]);
      WalkSame(d, e, if d[i].fname == HOME then Fold(d, 0) else i, name);
    }
  }

  lemma {:induction false} DescendSame(d: Tree, e: Tree, i: nat, names: seq<string>, s: nat)
    requires SameTree(d, e) && d != [] && i <= |d| && s < |names|
    ensures Descend(e, i, names, s) == Descend(d, i, names, s)
    decreases |names| - s
  {
    if s == |names| - 1 {
      LastStepSame(d, e, i, names[s]);
    } else {
      var k := Walk(d, i, names[s]);
      WalkSame(d, e, i, names[s]);
      if k < |d| {
        assert Alike(d[k], e[k]);
        DescendSame(d, e, Fold(d, k), names, s + 1);
      }
    }
  }

  /** Whether and what a search finds does not depend on the numbers. */
  lemma SearchSame(d: Tree, e: Tree, path: string)
    requires SameTree(d, e) && d != []
    ensures Search(e, path) == Search(d, path)
    ensures Search(d, path).Found? ==> LastOf(e, Search(d, path).at) == LastOf(d, Search(d, path).at)
  {
    if path != HOME {
      DescendSame(d, e, 0, Steps(path), 0);
    }
    if Search(d, path).Found? {
      LastOfAgrees(d, e, Search(d, path).at);
    }
  }

  // ---------------------------------------------------------------- replay

  /** Node `i` would be hung behind its predecessor if it were added to the nodes before it. */
  ghost predicate PlacedAt(d: Tree, i: nat)
    requires 1 <= i < |d|
  {
    var r := Search(d[..i], d[i].loc);
    r.Found? && LastOf(d[..i], r.at) == i - 1
  }

  ghost predicate Replayable(d: Tree) {
    d != [] && forall i | 1 <= i < |d| :: PlacedAt(d, i)
  }

  /** Node `i` does not confuse the root with another node. */
  ghost predicate GoodAt(d: Tree, i: nat)
    requires i < |d|
  {
    d[i].fname != HOME && GoodLoc(d[i].loc)
  }

  ghost predicate WellNamed(d: Tree) {
    d != [] && forall i | 1 <= i < |d| :: GoodAt(d, i)
  }

  lemma WellNamedOneHome(d: Tree)
    requires WellNamed(d)
    ensures OneHome(d)
  {
    forall i | 1 <= i < |d| ensures d[i].fname != HOME {
      assert GoodAt(d, i);
    }
  }

  lemma WellNamedPrefix(d: Tree, i: nat)
    requires WellNamed(d) && 1 <= i <= |d|
    ensures WellNamed(d[..i]) && OneHome(d[..i])
  {
    forall j | 1 <= j < i ensures GoodAt(d[..i], j) {
      assert GoodAt(d, j);
    }
    WellNamedOneHome(d[..i]);
  }

  lemma WellNamedAdded(d: Tree, m: nat, entry: Data, nodeno: int)
    requires WellNamed(d) && m < |d| && GoodLoc(entry.loc) && entry.fname != HOME
    ensures WellNamed(Added(d, m, entry, nodeno))
  {
    var e := Added(d, m, entry, nodeno);
    forall j | 1 <= j < |e| ensures GoodAt(e, j) {
      if j <= m {
        assert GoodAt(d, j);
      }
    }
  }

  /** `addnode` keeps the tree such that a replay of its preorder rebuilds it. */
  lemma AddKeepsReplayable(d: Tree, entry: Data, nodeno: int)
    requires Replayable(d) && OneHome(d) && GoodLoc(entry.loc) && Search(d, entry.loc).Found?
    ensures Replayable(Added(d, LastOf(d, Search(d, entry.loc).at), entry, nodeno))
  {
    var m := LastOf(d, Search(d, entry.loc).at);
    var e := Added(d, m, entry, nodeno);
    forall i | 1 <= i < |e| ensures PlacedAt(e, i) {
      if i <= m {
        assert e[..i] == d[..i] && PlacedAt(d, i);
      } else {
        AddedPlaced(d, entry, nodeno);
      }
    }
  }

  lemma AddedPlaced(d: Tree, entry: Data, nodeno: int)
    requires OneHome(d) && GoodLoc(entry.loc) && Search(d, entry.loc).Found?
    ensures var k := Search(d, entry.loc).at;
            var m := LastOf(d, k);
            var e := Added(d, m, entry, nodeno);
            PlacedAt(e, m + 1) && e[Search(e[..m + 1], entry.loc).at] == d[k]
  {
    var k := Search(d, entry.loc).at;
    var m := LastOf(d, k);
    var e := Added(d, m, entry, nodeno);
    var f := e[..m + 1];
    assert Agree(d, f, m) && Agree(d, f, k);
    SearchAgrees(d, f, entry.loc);
    LastOfAgrees(d, f, k);
  }

  // ---------------------------------------------------------------- locations that come back to the root

  lemma {:induction false} HomeLeadsToRoot(d: Tree, i: nat, names: seq<string>, s: nat)
    requires d != [] && i <= |d| && s < |names| && EndsHome(names)
    ensures Descend(d, i, names, s).Found? ==> Descend(d, i, names, s).at == 0
    decreases |names| - s
  {
    if s < |names| - 1 && Walk(d, i, names[s]) < |d| {
      HomeLeadsToRoot(d, Fold(d, Walk(d, i, names[s])), names, s + 1);
    }
  }

  /** Replaying reaches the new node just when its location resolves among the nodes that stay before it. */
  lemma AddedReplayableIff(d: Tree, entry: Data, nodeno: int)
    requires Replayable(d) && Search(d, entry.loc).Found?
    ensures var m := LastOf(d, Search(d, entry.loc).at);
            var e, r := Added(d, m, entry, nodeno), Search(d[..m + 1], entry.loc);
            Replayable(e) <==> r.Found? && LastOf(d[..m + 1], r.at) == m
  {
    var m := LastOf(d, Search(d, entry.loc).at);
    var e := Added(d, m, entry, nodeno);
    assert e[..m + 1] == d[..m + 1];
    forall i | 1 <= i <= m ensures PlacedAt(e, i) {
      assert e[..i] == d[..i] && PlacedAt(d, i);
    }
    assert Replayable(e) <==> PlacedAt(e, m + 1);
  }

  /** A path that comes back to the root passes its children, and at most the first folder among them. */
  lemma HomewardInPrefix(d: Tree, names: seq<string>, m: nat)
    requires d != [] && d[0].IsFolder() && m == LastOf(d, 0) && |names| >= 2 && EndsHome(names)
    requires Descend(d, 0, names, 0).Found?
    ensures Descend(d[..m + 1], 0, names, 0).Found? <==> |names| <= 3
  {
    var f := d[..m + 1];
    if |names| > 2 {
      var v := Walk(d, 1, names[1]);
      if v > m {
        WalkPast(d, 1, names[1], m);
      }
      assert Agree(d, f, v);
      WalkAgrees(d, f, 1, names[1]);
      assert Descend(d, 0, names, 0) == Descend(d, 1, names, 1) == Descend(d, Fold(d, v), names, 2);
      assert Descend(f, 0, names, 0) == Descend(f, 1, names, 1) == Descend(f, Fold(f, v), names, 2);
      if |names| > 3 {
        assert Walk(d, Fold(d, v), names[2]) < |d|;
        assert d[v].IsFolder() && v == m;
        assert Walk(f, Fold(f, v), names[2]) == |f|;
      }
    }
  }

  lemma {:induction false} WalkPast(d: Tree, i: nat, name: string, m: nat)
    requires i <= m < |d| && (d[m].IsFolder() || m == |d| - 1) && m < Walk(d, i, name)
    ensures Walk(d, i, name) == |d|
    decreases |d| - i
  {
    if i < m && !d[i].IsFolder() {
      WalkPast(d, i + 1, name, m);
    }
  }

  /**
   * Exactly when `addnode` keeps the tree replayable: the location does not come back to the root by its last
   * component, or it does so at once or behind one child of the root.
   */
  lemma AddReplayableIff(d: Tree, entry: Data, nodeno: int)
    requires Replayable(d) && OneHome(d) && d[0].IsFolder() && Search(d, entry.loc).Found?
    ensures Replayable(Added(d, LastOf(d, Search(d, entry.loc).at), entry, nodeno))
            <==> GoodLoc(entry.loc) || |Steps(entry.loc)| <= 3
  {
    var names := Steps(entry.loc);
    if GoodLoc(entry.loc) {
      AddKeepsReplayable(d, entry, nodeno);
    } else {
      SearchNotHome(d, entry.loc);
      HomeLeadsToRoot(d, 0, names, 0);
      AddedReplayableIff(d, entry, nodeno);
      HomewardFound(d, entry.loc, LastOf(d, 0));
    }
  }

  lemma SearchNotHome(d: Tree, path: string)
    requires d != [] && path != HOME
    ensures Search(d, path) == Descend(d, 0, Steps(path), 0)
    ensures |Steps(path)| == 1 ==> Steps(path) == [path]
  {
    StepsUnfold(path);
  }

  /** A path that comes back to the root, searched among the nodes up to the last child of the root. */
  lemma HomewardFound(d: Tree, path: string, m: nat)
    requires d != [] && d[0].IsFolder() && m == LastOf(d, 0) && !GoodLoc(path) && Search(d, path).Found?
    ensures var r := Search(d[..m + 1], path);
            (r.Found? <==> |Steps(path)| <= 3) && (r.Found? ==> LastOf(d[..m + 1], r.at) == m)
  {
    var names, f := Steps(path), d[..m + 1];
    SearchNotHome(d, path);
    SearchNotHome(f, path);
    HomewardInPrefix(d, names, m);
    HomeLeadsToRoot(f, 0, names, 0);
    assert Agree(d, f, m);
    LastOfAgrees(d, f, 0);
  }

  /** Node `i` of a rebuilt tree: the head keeps its numbers, the others are counted on from `nodeno`. */
  function Renumber(d: Tree, i: nat, nodeno: int): (x: Data)
    requires i < |d|
    ensures Alike(d[i], x)
  {
    if i == 0 then d[0]
    else d[i].(nno := nodeno + i, pno := if i == 1 then d[0].nno else nodeno + i - 1)
  }

  /** The first `n` nodes of the rebuilt tree. */
  function RenumberedTo(d: Tree, n: nat, nodeno: int): (e: Tree)
    requires n <= |d|
    ensures |e| == n
  {
    seq(n, i requires 0 <= i < n => Renumber(d, i, nodeno))
  }

  function Renumbered(d: Tree, nodeno: int): Tree {
    RenumberedTo(d, |d|, nodeno)
  }

  /** The tree as it was, up to numbering, and the parent number of a node is the number of its predecessor. */
  lemma RenumberedIs(d: Tree, nodeno: int)
    ensures var e := Renumbered(d, nodeno);
            && |e| == |d| && (forall i | 0 <= i < |d| :: Alike(d[i], e[i]))
            && forall i | 1 <= i < |d| :: e[i].nno == nodeno + i && e[i].pno == e[i - 1].nno
  {
  }

  type Hanger = (Tree, Data, int) -> Option<Tree>

  /** The tree after `n` records: the first is the head, and each other one is hung where `hang` says. */
  function Replay(hang: Hanger, records: Tree, n: nat, nodeno: int): Option<Tree>
    requires 1 <= n <= |records|
    decreases n
  {
    if n == 1 then Some([records[0]]) else
    var d := Replay(hang, records, n - 1, nodeno);
    if d.None? then None else hang(d.value, records[n - 1], nodeno + n - 2)
  }

  /** The call of `addnode` in `recoverlist`. */
  function HungAt(d: Tree, x: Data, nodeno: int): (e: Option<Tree>)
    ensures e.Some? ==> e.value != []
  {
    if d == [] then None else Hung(d, x.loc, x, nodeno)
  }

  /** The tree of `recoverlist` after `n` records. */
  function RebuiltTo(records: Tree, n: nat, nodeno: int): Option<Tree>
    requires 1 <= n <= |records|
  {
    Replay(HungAt, records, n, nodeno)
  }

  lemma {:induction false} ReplayPrefix(hang: Hanger, records: Tree, more: Tree, n: nat, nodeno: int)
    requires 1 <= n <= |records| && records <= more
    ensures Replay(hang, more, n, nodeno) == Replay(hang, records, n, nodeno)
  {
    if n > 1 {
      ReplayPrefix(hang, records, more, n - 1, nodeno);
    }
  }

  lemma {:induction false} ReplayFails(hang: Hanger, records: Tree, n: nat, m: nat, nodeno: int)
    requires 1 <= n <= m <= |records| && Replay(hang, records, n, nodeno).None?
    ensures Replay(hang, records, m, nodeno).None?
    decreases m
  {
    if n < m {
      ReplayFails(hang, records, n, m - 1, nodeno);
    }
  }

  lemma ReplayNext(hang: Hanger, records: Tree, n: nat, nodeno: int, d: Tree)
    requires 1 <= n < |records| && Replay(hang, records, n, nodeno) == Some(d)
    ensures Replay(hang, records, n + 1, nodeno) == hang(d, records[n], nodeno + n - 1)
  {
  }

  /** When every record leads from one stage to the next. */
  lemma {:induction false} ReplayStages(hang: Hanger, records: Tree, n: nat, nodeno: int, stage: nat -> Tree)
    requires 1 <= n <= |records| && stage(1) == [records[0]]
    requires forall i {:trigger records[i]} | 1 <= i < |records| ::
               hang(stage(i), records[i], nodeno + i - 1) == Some(stage(i + 1))
    ensures Replay(hang, records, n, nodeno) == Some(stage(n))
  {
    if n > 1 {
      ReplayStages(hang, records, n - 1, nodeno, stage);
      ReplayNext(hang, records, n - 1, nodeno, stage(n - 1));
      assert hang(stage(n - 1), records[n - 1], nodeno + n - 2) == Some(stage(n));
    }
  }

  /** One more record. */
  lemma ReplayGrows(hang: Hanger, records: Tree, x: Data, nodeno: int, d: Tree)
    requires records != [] && Replay(hang, records, |records|, nodeno) == Some(d)
    ensures Replay(hang, records + [x], |records| + 1, nodeno) == hang(d, x, nodeno + |records| - 1)
  {
    ReplayPrefix(hang, records, records + [x], |records|, nodeno);
    ReplayNext(hang, records + [x], |records|, nodeno, d);
  }

  function Rebuilt(records: Tree, nodeno: int): Option<Tree> {
    if records == [] then None else RebuiltTo(records, |records|, nodeno)
  }

  /** One step of the replay of a replayable preorder appends the node. */
  lemma ReplayStep(d: Tree, i: nat, e: Tree, nodeno: int)
    requires 1 <= i < |d| && PlacedAt(d, i) && SameTree(d[..i], e)
    ensures Hung(e, d[i].loc, d[i], nodeno) == Some(e + [d[i].(nno := nodeno + 1, pno := e[i - 1].nno)])
  {
    SearchSame(d[..i], e, d[i].loc);
    assert e[..i] == e;
  }

  lemma RenumberedNext(d: Tree, i: nat, nodeno: int)
    requires 1 <= i < |d|
    ensures var g := RenumberedTo(d, i, nodeno);
            g + [d[i].(nno := nodeno + i - 1 + 1, pno := g[i - 1].nno)] == RenumberedTo(d, i + 1, nodeno)
  {
  }

  lemma RebuildsNext(d: Tree, i: nat, nodeno: int, no: int)
    requires Replayable(d) && 1 <= i < |d| && no == nodeno + i - 1
    ensures HungAt(RenumberedTo(d, i, nodeno), d[i], no) == Some(RenumberedTo(d, i + 1, nodeno))
  {
    assert PlacedAt(d, i);
    ReplayStep(d, i, RenumberedTo(d, i, nodeno), no);
    RenumberedNext(d, i, nodeno);
  }

  lemma RebuildsTo(d: Tree, n: nat, nodeno: int)
    requires Replayable(d) && 1 <= n <= |d|
    ensures RebuiltTo(d, n, nodeno) == Some(RenumberedTo(d, n, nodeno))
  {
    var stage := (i: nat) => if i <= |d| then RenumberedTo(d, i, nodeno) else [];
    assert stage(1) == [d[0]];
    forall i | 1 <= i < |d| ensures HungAt(stage(i), d[i], nodeno + i - 1) == Some(stage(i + 1)) {
      RebuildsNext(d, i, nodeno, nodeno + i - 1);
    }
    ReplayStages(HungAt, d, n, nodeno, stage);
  }

  /** Replaying the preorder of such a tree rebuilds it up to numbering. */
  lemma RebuildsTheTree(d: Tree, nodeno: int)
    requires Replayable(d)
    ensures Rebuilt(d, nodeno) == Some(Renumbered(d, nodeno))
  {
    RebuildsTo(d, |d|, nodeno);
  }

  lemma HungSize(d: Tree, x: Data, nodeno: int)
    requires HungAt(d, x, nodeno).Some?
    ensures |HungAt(d, x, nodeno).value| <= |d| + 1
  {
  }

  /** No record makes the tree more than one node longer. */
  lemma {:induction false} RebuiltSize(records: Tree, n: nat, nodeno: int)
    requires 1 <= n <= |records| && RebuiltTo(records, n, nodeno).Some?
    ensures |RebuiltTo(records, n, nodeno).value| <= n
  {
    if n > 1 {
      var d := RebuiltTo(records, n - 1, nodeno).value;
      RebuiltSize(records, n - 1, nodeno);
      ReplayNext(HungAt, records, n - 1, nodeno, d);
      HungSize(d, records[n - 1], nodeno + n - 2);
    }
  }

  /** A record that is hung behind the last node was placed there. */
  lemma FullStep(d: Tree, i: nat, e: Tree, nodeno: int)
    requires 1 <= i < |d| && SameTree(d[..i], e)
    requires HungAt(e, d[i], nodeno).Some? && |HungAt(e, d[i], nodeno).value| == i + 1
    ensures PlacedAt(d, i)
    ensures forall j | 0 <= j < i + 1 :: Alike(d[j], HungAt(e, d[i], nodeno).value[j])
  {
    SearchSame(d[..i], e, d[i].loc);
    assert forall j | 0 <= j < i :: Alike(d[..i][j], e[j]);
  }

  /** The first `n` records were hung one behind the other. */
  ghost predicate InFull(d: Tree, n: nat, e: Tree)
    requires n <= |d|
  {
    && |e| == n && (forall j | 0 <= j < n :: Alike(d[j], e[j]))
    && forall j | 1 <= j < n :: PlacedAt(d, j)
  }

  lemma FullNext(d: Tree, n: nat, e: Tree, g: Tree, nodeno: int)
    requires 1 <= n < |d| && InFull(d, n, e)
    requires HungAt(e, d[n], nodeno) == Some(g) && |g| == n + 1
    ensures InFull(d, n + 1, g)
  {
    FullStep(d, n, e, nodeno);
  }

  lemma {:induction false} RebuiltInFull(d: Tree, n: nat, nodeno: int)
    requires 1 <= n <= |d|
    requires RebuiltTo(d, n, nodeno).Some? && |RebuiltTo(d, n, nodeno).value| == n
    ensures InFull(d, n, RebuiltTo(d, n, nodeno).value)
  {
    if n > 1 {
      var m := n - 1;
      var e, g := RebuiltTo(d, m, nodeno).value, RebuiltTo(d, n, nodeno).value;
      RebuiltSize(d, m, nodeno);
      ReplayNext(HungAt, d, m, nodeno, e);
      HungSize(e, d[m], nodeno + m - 1);
      RebuiltInFull(d, m, nodeno);
      FullNext(d, m, e, g, nodeno + m - 1);
    }
  }

  /** And only such a tree is rebuilt without losing nodes. */
  lemma RebuiltInFullIff(d: Tree, nodeno: int)
    requires d != []
    ensures (Rebuilt(d, nodeno).Some? && |Rebuilt(d, nodeno).value| == |d|) <==> Replayable(d)
  {
    if Replayable(d) {
      RebuildsTheTree(d, nodeno);
    } else if Rebuilt(d, nodeno).Some? && |Rebuilt(d, nodeno).value| == |d| {
      RebuiltInFull(d, |d|, nodeno);
    }
  }

  // ---------------------------------------------------------------- one more node, and a rebuild

  /** What the last record meets: the nodes up to the one it was hung behind, renumbered. */
  lemma RebuiltButLast(d: Tree, nodeno: int)
    requires |d| >= 2 && Replayable(d[..|d| - 1])
    ensures Rebuilt(d, nodeno) == HungAt(RenumberedTo(d, |d| - 1, nodeno), d[|d| - 1], nodeno + |d| - 2)
  {
    var n := |d| - 1;
    var f := d[..n];
    RebuildsTo(f, n, nodeno);
    ReplayPrefix(HungAt, f, d, n, nodeno);
    assert RenumberedTo(f, n, nodeno) == RenumberedTo(d, n, nodeno);
    ReplayNext(HungAt, d, n, nodeno, RenumberedTo(d, n, nodeno));
  }

  lemma PrefixReplayable(d: Tree, n: nat)
    requires Replayable(d) && 1 <= n <= |d|
    ensures Replayable(d[..n])
  {
    forall i | 1 <= i < n ensures PlacedAt(d[..n], i) {
      assert d[..n][..i] == d[..i] && PlacedAt(d, i);
    }
  }

  /**
   * The rebuild of a tree to which `addnode` has added a node, whatever its location. It depends on how that
   * location resolves among the nodes that the addition has left.
   */
  lemma AddedRebuilt(d: Tree, entry: Data, no: int, nodeno: int)
    requires Replayable(d) && Search(d, entry.loc).Found?
    ensures var m := LastOf(d, Search(d, entry.loc).at);
            var e, r := Added(d, m, entry, no), Search(d[..m + 1], entry.loc);
            if !r.Found? then Rebuilt(e, nodeno) == None
            else if LastOf(d[..m + 1], r.at) == m then Rebuilt(e, nodeno) == Some(Renumbered(e, nodeno))
            else Rebuilt(e, nodeno).Some? && |Rebuilt(e, nodeno).value| < |e|
  {
    var m := LastOf(d, Search(d, entry.loc).at);
    var e, f := Added(d, m, entry, no), d[..m + 1];
    var r, g := Search(f, entry.loc), RenumberedTo(e, m + 1, nodeno);
    assert e[..m + 1] == f;
    PrefixReplayable(d, m + 1);
    RebuiltButLast(e, nodeno);
    assert SameTree(f, g);
    SearchSame(f, g, entry.loc);
    if r.Found? && LastOf(f, r.at) == m {
      AddedReplayableIff(d, entry, no);
      RebuildsTheTree(e, nodeno);
    }
  }

  /** For a tree with one home: the rebuild gives the tree back exactly for these locations, and else ends on null. */
  lemma AddRebuiltIff(d: Tree, entry: Data, no: int, nodeno: int)
    requires Replayable(d) && OneHome(d) && d[0].IsFolder() && Search(d, entry.loc).Found?
    ensures var e := Added(d, LastOf(d, Search(d, entry.loc).at), entry, no);
            Rebuilt(e, nodeno)
            == if GoodLoc(entry.loc) || |Steps(entry.loc)| <= 3 then Some(Renumbered(e, nodeno)) else None
  {
    var m := LastOf(d, Search(d, entry.loc).at);
    AddedRebuilt(d, entry, no, nodeno);
    AddReplayableIff(d, entry, no);
    AddedReplayableIff(d, entry, no);
    if !GoodLoc(entry.loc) {
      HomeLeadsToRoot(d, 0, Steps(entry.loc), 0);
      HomewardFound(d, entry.loc, m);
    }
  }

  /** Such a tree stays one when the new node is not called home, so the same holds of the next addition. */
  lemma OneHomeAdded(d: Tree, m: nat, entry: Data, no: int)
    requires OneHome(d) && m < |d| && entry.fname != HOME
    ensures OneHome(Added(d, m, entry, no)) && Added(d, m, entry, no)[0] == d[0]
  {
  }

  // ---------------------------------------------------------------- removal

  /** The location of node `i` is that of a folder. */
  ghost predicate InFolderAt(d: Tree, i: nat)
    requires 1 <= i < |d|
  {
    PlacedAt(d, i) && d[Search(d[..i], d[i].loc).at].IsFolder()
  }

  ghost predicate InFolders(d: Tree) {
    d != [] && forall i | 1 <= i < |d| :: InFolderAt(d, i)
  }

  lemma InFoldersReplayable(d: Tree)
    requires InFolders(d)
    ensures Replayable(d)
  {
    forall i | 1 <= i < |d| ensures PlacedAt(d, i) {
      assert InFolderAt(d, i);
    }
  }

  /** Where an index goes when node `k` is removed. */
  function Shift(i: nat, k: nat): nat {
    if i <= k then i else i - 1
  }

  /** `e` is `d` without the file `k`. */
  ghost predicate Removed(d: Tree, k: nat, e: Tree) {
    && k < |d| && !d[k].IsFolder() && |e| == |d| - 1
    && forall j | 0 <= j < |d| && j != k :: e[Shift(j, k)] == d[j]
  }

  lemma WithoutRemoved(d: Tree, k: nat)
    requires k < |d| && !d[k].IsFolder()
    ensures Removed(d, k, Without(d, k))
  {
    var e := Without(d, k);
    forall j | 0 <= j < |d| && j != k ensures e[Shift(j, k)] == d[j] {
      var i := Shift(j, k);
      assert e[i] == d[if i < k then i else i + 1];
    }
  }

  lemma {:induction false} WalkWithout(d: Tree, k: nat, e: Tree, i: nat, name: string)
    requires Removed(d, k, e) && i <= |d| && Walk(d, i, name) != k && Walk(d, i, name) < |d|
    ensures Walk(e, Shift(i, k), name) == Shift(Walk(d, i, name), k)
    decreases |d| - i
  {
    if d[i].fname != name {
      WalkWithout(d, k, e, i + 1, name);
    }
    assert i != k ==> e[Shift(i, k)] == d[i];
  }

  lemma LastStepWithout(d: Tree, k: nat, e: Tree, i: nat, name: string)
    requires OneHome(d) && Removed(d, k, e) && 0 < k && i <= |d| && name != HOME
    requires LastStep(d, i, name).Found? && LastStep(d, i, name).at != k
    ensures LastStep(e, Shift(i, k), name) == Found(Shift(LastStep(d, i, name).at, k))
  {
    assert e[Shift(0, k)] == d[0];
    if i == k {
      assert e[Shift(i + 1, k)] == d[i + 1];
    } else {
      assert e[Shift(i, k)] == d[i];
    }
    WalkWithout(d, k, e, if d[i].fname == HOME then Fold(d, 0) else i, name);
  }

  /** A search that finds another node still finds it after a file is removed. */
  lemma {:induction false} DescendWithout(d: Tree, k: nat, e: Tree, i: nat, names: seq<string>, s: nat)
    requires OneHome(d) && Removed(d, k, e) && 0 < k && i <= |d| && s < |names| && !EndsHome(names)
    requires Descend(d, i, names, s).Found? && Descend(d, i, names, s).at != k
    ensures Descend(e, Shift(i, k), names, s) == Found(Shift(Descend(d, i, names, s).at, k))
    decreases |names| - s
  {
    if s < |names| - 1 {
      var j := Walk(d, i, names[s]);
      DescendFrom(d, Fold(d, j), names, s + 1);
      assert j != k && e[Shift(j, k)] == d[j];
      WalkWithout(d, k, e, i, names[s]);
      DescendWithout(d, k, e, Fold(d, j), names, s + 1);
    } else {
      LastStepWithout(d, k, e, i, names[s]);
    }
  }

  lemma LastSiblingIs(d: Tree, i: nat, k: nat)
    requires i <= k < |d| && (forall j | i <= j < k :: !d[j].IsFolder()) && (d[k].IsFolder() || k == |d| - 1)
    ensures LastSibling(d, i) == k
  {
  }

  lemma LastOfWithout(d: Tree, k: nat, t: nat)
    requires k < |d| && t < |d| && !d[k].IsFolder() && d[t].IsFolder() && LastOf(d, t) == |d| - 1
    ensures var e := Without(d, k);
            e[Shift(t, k)] == d[t] && LastOf(e, Shift(t, k)) == |e| - 1
  {
    var e, s := Without(d, k), Shift(t, k);
    assert e[s] == d[t];
    if s < |e| - 1 {
      forall j | s + 1 <= j < |e| - 1 ensures !e[j].IsFolder() {
        assert e[j] == d[if j < k then j else j + 1];
      }
      LastSiblingIs(e, s + 1, |e| - 1);
    }
  }

  lemma PlacedWithout(d: Tree, k: nat, i: nat)
    requires WellNamed(d) && 0 < k < i < |d| && !d[k].IsFolder() && InFolderAt(d, i)
    ensures InFolderAt(Without(d, k), i - 1)
  {
    var f, e, loc := d[..i], Without(d, k), d[i].loc;
    WellNamedPrefix(d, i);
    assert e[..i - 1] == Without(f, k) && GoodAt(d, i) && e[i - 1] == d[i];
    assert f[k] == d[k];
    SearchWithout(f, k, loc);
    LastOfWithout(f, k, Search(f, loc).at);
  }

  lemma SearchWithout(d: Tree, k: nat, path: string)
    requires OneHome(d) && 0 < k < |d| && !d[k].IsFolder() && GoodLoc(path)
    requires Search(d, path).Found? && Search(d, path).at != k
    ensures Without(d, k) != [] && Search(Without(d, k), path) == Found(Shift(Search(d, path).at, k))
  {
    if path != HOME {
      WithoutRemoved(d, k);
      DescendWithout(d, k, Without(d, k), 0, Steps(path), 0);
    }
  }

  /** `removefile` keeps the tree replayable when every node was added to a folder. */
  lemma RemoveKeepsInFolders(d: Tree, k: nat)
    requires WellNamed(d) && InFolders(d) && 0 < k < |d| && !d[k].IsFolder()
    ensures WellNamed(Without(d, k)) && InFolders(Without(d, k))
  {
    var e := Without(d, k);
    forall j | 1 <= j < |e| ensures GoodAt(e, j) {
      assert GoodAt(d, if j < k then j else j + 1);
    }
    forall j | 1 <= j < |e| ensures InFolderAt(e, j) {
      if j < k {
        assert e[..j] == d[..j] && InFolderAt(d, j);
      } else {
        PlacedWithout(d, k, j + 1);
      }
    }
  }

  /** So does `addnode` when it adds to a folder. */
  lemma AddKeepsInFolders(d: Tree, entry: Data, nodeno: int)
    requires WellNamed(d) && InFolders(d) && GoodLoc(entry.loc) && entry.fname != HOME
    requires Search(d, entry.loc).Found? && d[Search(d, entry.loc).at].IsFolder()
    ensures var e := Added(d, LastOf(d, Search(d, entry.loc).at), entry, nodeno);
            WellNamed(e) && InFolders(e)
  {
    var m := LastOf(d, Search(d, entry.loc).at);
    var e := Added(d, m, entry, nodeno);
    WellNamedAdded(d, m, entry, nodeno);
    WellNamedOneHome(d);
    AddedPlaced(d, entry, nodeno);
    forall i | 1 <= i < |e| ensures InFolderAt(e, i) {
      if i <= m {
        assert e[..i] == d[..i] && InFolderAt(d, i);
      }
    }
  }
}
