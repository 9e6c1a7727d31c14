/** What `search` finds after a run: every node under its own path, and a new file under the path of its folder. */
module NamespaceSearch {
  import opened Bytes
  import opened NamespaceSpec
  import opened NamespacePaths
  import opened NamespaceRuns
  import opened Namespace
  import opened Sequences

  // ---------------------------------------------------------------- ways

  /** A way depends only on the nodes up to its end. */
  lemma {:induction false} WaySame(d: Tree, e: Tree, i: nat, k: nat)
    requires i <= k < |d| && k < |e| && forall j | 0 <= j <= k :: d[j] == e[j]
    ensures Way(d, i, k) == Way(e, i, k)
    decreases k - i
  {
    if i < k {
      WaySame(d, e, i + 1, k);
    }
  }

  /** The way to a child goes through its folder. */
  lemma {:induction false} WayThrough(d: Tree, i: nat, k: nat, n: nat)
    requires i <= k < n < |d| && d[k].IsFolder() && forall j | k < j < n :: !d[j].IsFolder()
    ensures Way(d, i, n) == Way(d, i, k) + [d[n].fname]
    decreases k - i
  {
    if i < k {
      WayThrough(d, i + 1, k, n);
    } else {
      WayFromTo(d, k + 1, n, n);
    }
  }

  lemma {:induction false} JoinedMore(names: seq<string>, name: string)
    requires names != []
    ensures Joined(names + [name]) == Joined(names) + "/" + name
  {
    var all := names + [name];
    if |names| == 1 {
      assert all[1..] == [name];
    } else {
      assert all[1..] == names[1..] + [name];
      JoinedMore(names[1..], name);
      Spelled(names[0], Joined(names[1..]), name);
    }
  }

  lemma Spelled(a: string, b: string, c: string)
    ensures a + "/" + (b + "/" + c) == a + "/" + b + "/" + c
  {
  }

  // ---------------------------------------------------------------- trees in which search finds everything

  /** One node is called home, the root; siblings differ, and no folder has a name of one letter. */
  ghost predicate Tidy(d: Tree) {
    Rooted(d) && DistinctSiblings(d) && LongFolders(d)
  }

  /** No node with the name is a sibling of what is hung on node `m`. */
  ghost predicate NameFree(d: Tree, m: nat, name: string)
    requires m < |d|
  {
    forall i | 0 <= i <= m && d[i].fname == name :: exists f :: i <= f <= m && d[f].IsFolder()
  }

  lemma AddedTidy(d: Tree, m: nat, entry: Data, no: int)
    requires Tidy(d) && m < |d| && Slashless(entry.fname) && entry.fname != HOME
    requires (entry.IsFolder() ==> |entry.fname| != 1) && NameFree(d, m, entry.fname)
    ensures Tidy(Added(d, m, entry, no))
  {
    var e := Added(d, m, entry, no);
    assert forall j | 0 <= j <= m :: e[j] == d[j];
    forall i, j | 0 <= i < j < |e| && e[i].fname == e[j].fname ensures FolderBetween(e, i, j) {
      if j <= m {
        assert FolderBetween(d, i, j);
      }
      var f :| i <= f < j && d[f].IsFolder();
      assert e[f].IsFolder();
    }
  }

  lemma WithoutTidy(d: Tree, k: nat)
    requires Tidy(d) && 0 < k < |d| && !d[k].IsFolder()
    ensures Tidy(Without(d, k))
  {
    var e := Without(d, k);
    forall i, j | 0 <= i < j < |e| && e[i].fname == e[j].fname ensures FolderBetween(e, i, j) {
      BetweenStays(d, k, i, j);
    }
  }

  lemma BetweenStays(d: Tree, k: nat, i: nat, j: nat)
    requires DistinctSiblings(d) && 0 < k < |d| && !d[k].IsFolder() && i < j < |d| - 1
    requires Without(d, k)[i].fname == Without(d, k)[j].fname
    ensures FolderBetween(Without(d, k), i, j)
  {
    var x, y := if i < k then i else i + 1, if j < k then j else j + 1;
    assert FolderBetween(d, x, y);
    var f :| x <= f < y && d[f].IsFolder();
    assert Without(d, k)[if f < k then f else f - 1] == d[f];
  }

  /** An addition brings a name that is free where it is hung; a folder's is not a single letter. */
  ghost predicate Named(s: State, op: Op)
    requires s.d != []
  {
    op.Add? ==>
      && Slashless(op.fname) && op.fname != HOME && (op.dflag == 1 ==> |op.fname| != 1)
      && (var r := Search(s.d, op.loc); r.Found? ==> NameFree(s.d, LastOf(s.d, r.at), op.fname))
  }

  /** The state after a run of such operations, at any locations, none of which dereferenced null. */
  ghost predicate NamedRun(start: State, ops: seq<Op>, s: State)
    decreases |ops|
  {
    if ops == [] then s == start else exists before: State :: NamedStep(start, ops, before, s)
  }

  ghost predicate NamedStep(start: State, ops: seq<Op>, before: State, s: State)
    requires ops != []
    decreases |ops|, 0
  {
    && NamedRun(start, ops[..|ops| - 1], before) && before.d != []
    && Named(before, ops[|ops| - 1]) && Apply(before, ops[|ops| - 1]) == Some(s)
  }

  lemma {:induction false} RunKeepsTidy(start: State, ops: seq<Op>, s: State)
    requires Tidy(start.d) && NamedRun(start, ops, s)
    ensures Tidy(s.d)
    decreases |ops|
  {
    if ops != [] {
      var before: State :| NamedStep(start, ops, before, s);
      RunKeepsTidy(start, ops[..|ops| - 1], before);
      match ops[|ops| - 1]
      case Add(fname, dname, loc, dflag) =>
        AddedTidy(before.d, LastOf(before.d, Search(before.d, loc).at), NewData(fname, dname, loc, dflag), before.nodeno);
      case Remove(path) => WithoutTidy(before.d, Search(before.d, path).at);
    }
  }

  lemma StartTidy(dsync: seq<int>)
    ensures Tidy(Start(dsync).d) && Start(dsync).d[0].fname == "home" && PathTo(Start(dsync).d, 0) == "home"
  {
  }

  lemma {:induction false} RunIsTidy(dsync: seq<int>, ops: seq<Op>, s: State)
    requires NamedRun(Start(dsync), ops, s)
    ensures Tidy(s.d)
  {
    StartTidy(dsync);
    RunKeepsTidy(Start(dsync), ops, s);
  }

  /** After every such run every node is found under its own path. */
  lemma {:induction false} EveryRunFindsAll(dsync: seq<int>, ops: seq<Op>, s: State, k: nat)
    requires NamedRun(Start(dsync), ops, s) && k < |s.d|
    ensures Search(s.d, PathTo(s.d, k)) == Found(k)
  {
    RunIsTidy(dsync, ops, s);
    EveryNodeIsFound(s.d, k);
  }

  // ---------------------------------------------------------------- below a node

  ghost predicate ChildOf(d: Tree, k: nat, j: nat) {
    k < j < |d| && d[k].IsFolder() && forall f | k < f < j :: !d[f].IsFolder()
  }

  /** The names on the way to a node and one more lead to what hangs in the node. */
  lemma {:induction false} WayThen(d: Tree, i: nat, k: nat, names: seq<string>, s: nat, name: string)
    requires DistinctSiblings(d) && i <= k < |d| && s < |names| && names[s..] == Way(d, i, k) + [name]
    ensures Descend(d, i, names, s) == LastStep(d, Fold(d, k), name)
    decreases k - i
  {
    var f := Stop(d, i, k);
    WayFrom(d, i, k);
    WalkTo(d, i, f);
    if f < k {
      Extended(d[f].fname, Way(d, f + 1, k), name);
      HeadAndTail(names, s, d[f].fname, Way(d, f + 1, k) + [name]);
      WayThen(d, f + 1, k, names, s + 1, name);
    } else {
      HeadAndTail(names, s, d[k].fname, [name]);
      assert names[s + 1] == names[s + 1..][0];
    }
  }

  lemma {:induction false} WalkFinds(d: Tree, i: nat, name: string)
    requires i <= |d|
    ensures var w := Walk(d, i, name);
            && (forall f | i <= f < w && w < |d| :: !d[f].IsFolder())
            && forall j | i <= j < |d| && d[j].fname == name && (forall f | i <= f < j :: !d[f].IsFolder()) :: w <= j
    decreases |d| - i
  {
    if i < |d| && d[i].fname != name {
      WalkFinds(d, i + 1, name);
    }
  }

  /** The last step of such a search. */
  lemma LastBelow(d: Tree, k: nat, name: string)
    requires OneHome(d) && DistinctSiblings(d) && k < |d| && name != HOME
    ensures var r := LastStep(d, Fold(d, k), name);
            && (r == Crash <==> d[k].dflag != 1 || k + 1 == |d|)
            && (forall j: nat | ChildOf(d, k, j) && d[j].fname == name :: r == Found(j))
            && (r.Found? ==> ChildOf(d, k, r.at) && d[r.at].fname == name)
  {
    if Fold(d, k) < |d| {
      WalkFinds(d, k + 1, name);
      forall j: nat | ChildOf(d, k, j) && d[j].fname == name ensures Walk(d, k + 1, name) == j {
        WalkTo(d, k + 1, j);
      }
    }
  }

  lemma StepsBelow(d: Tree, k: nat, name: string)
    requires Tidy(d) && k < |d| && |d[k].fname| != 1 && Slashless(name)
    ensures Search(d, PathTo(d, k) + "/" + name) == LastStep(d, Fold(d, k), name)
  {
    var names := Way(d, 0, k) + [name];
    JoinedMore(Way(d, 0, k), name);
    BelowNames(d, k, name);
    StepsOfJoined(names);
    assert names[0..] == names;
    WayThen(d, 0, k, names, 0, name);
  }

  /**
   * A search below a node dereferences null exactly when the node is a file or a folder with nothing in it;
   * otherwise it finds the child with the name, or nothing when there is none.
   */
  lemma SearchBelow(d: Tree, k: nat, name: string)
    requires Tidy(d) && k < |d| && |d[k].fname| != 1 && Slashless(name) && name != HOME
    ensures var r := Search(d, PathTo(d, k) + "/" + name);
            && (r == Crash <==> d[k].dflag != 1 || k + 1 == |d|)
            && (forall j: nat | ChildOf(d, k, j) && d[j].fname == name :: r == Found(j))
            && (r.Found? ==> ChildOf(d, k, r.at) && d[r.at].fname == name)
  {
    StepsBelow(d, k, name);
    LastBelow(d, k, name);
  }

  lemma BelowNames(d: Tree, k: nat, name: string)
    requires Tidy(d) && k < |d| && |d[k].fname| != 1 && Slashless(name)
    ensures AllSlashless(Way(d, 0, k) + [name]) && NoLetterInside(Way(d, 0, k) + [name])
    ensures PathTo(d, k) + "/" + name != HOME
  {
    var way := Way(d, 0, k);
    var names := way + [name];
    WayNames(d, 0, k);
    forall j | 0 <= j < |names| - 1 ensures Slashless(names[j]) && |names[j]| != 1 {
      assert names[j] == way[j];
    }
    assert (PathTo(d, k) + "/" + name)[|PathTo(d, k)|] == '/';
    assert forall i | 0 <= i < |HOME| :: HOME[i] != '/';
  }

  lemma {:induction false} LastSlashless(path: string)
    ensures Slashless(Steps(path)[|Steps(path)| - 1])
    decreases |path|
  {
    StepsUnfold(path);
    if Slash(path) < |path| {
      LastSlashless(path[Slash(path) + 1..]);
    }
  }

  /** The way from the siblings at `i` to a node at or below the one that a walk finds. */
  lemma WayPast(d: Tree, i: nat, name: string, k: nat)
    requires i <= k < |d| && Walk(d, i, name) < |d| && Walk(d, i, name) <= k
    requires Walk(d, i, name) < k ==> d[Walk(d, i, name)].IsFolder()
    ensures var w := Walk(d, i, name);
            Way(d, i, k) == if w == k then [d[k].fname] else [d[w].fname] + Way(d, w + 1, k)
  {
    WalkStops(d, i, name, k);
    WayFrom(d, i, k);
  }

  /** A search that dereferences null has come to a node with nothing in it, and has one more name to go. */
  lemma {:induction false} CrashWay(d: Tree, i: nat, names: seq<string>, s: nat) returns (k: nat)
    requires d != [] && i < |d| && s < |names| && Descend(d, i, names, s) == Crash
    ensures i <= k < |d| && Fold(d, k) == |d| && names[|names| - 1] != HOME
    ensures names[s..] == Way(d, i, k) + [names[|names| - 1]]
    decreases |names| - s
  {
    var w, last := Walk(d, i, names[s]), names[|names| - 1];
    DropOne(names, s);
    if Fold(d, w) < |d| {
      k := CrashWay(d, w + 1, names, s + 1);
      WayPast(d, i, names[s], k);
      Extended(names[s], Way(d, w + 1, k), last);
    } else {
      k := w;
      WayPast(d, i, names[s], k);
      assert names[s + 1..] == [last];
    }
  }

  lemma Extended(name: string, names: seq<string>, last: string)
    ensures [name] + (names + [last]) == [name] + names + [last]
  {
  }

  /** The path leads below node `k`, which is a file or a folder with nothing in it. */
  ghost predicate LeadsBelow(d: Tree, k: nat, name: string, path: string) {
    && k < |d| && (d[k].dflag != 1 || k + 1 == |d|) && |d[k].fname| != 1
    && name != HOME && Slashless(name) && path == PathTo(d, k) + "/" + name
  }

  lemma CrashLeads(d: Tree, path: string) returns (k: nat, name: string)
    requires Tidy(d) && Search(d, path) == Crash
    ensures LeadsBelow(d, k, name, path)
  {
    var names := Steps(path);
    k := CrashWay(d, 0, names, 0);
    name := names[|names| - 1];
    var way := Way(d, 0, k);
    assert names[0..] == names && names == way + [name];
    WayNames(d, 0, k);
    LastSlashless(path);
    assert forall j | 0 <= j < |way| :: names[j] == way[j];
    JoinedOfSteps(path);
    JoinedMore(way, name);
    assert names[|way| - 1] == d[k].fname;
  }

  /**
   * `search` dereferences null exactly for the paths that go one name below a file or an empty folder. With
   * `SearchFinds` this says for every path whether a node is found, which one, none, or null is dereferenced.
   */
  lemma SearchCrashesIff(d: Tree, path: string)
    requires Tidy(d)
    ensures Search(d, path) == Crash <==> exists k: nat, name :: LeadsBelow(d, k, name, path)
  {
    if Search(d, path) == Crash {
      var k, name := CrashLeads(d, path);
    }
    if k: nat, name :| LeadsBelow(d, k, name, path) {
      SearchBelow(d, k, name);
    }
  }

  // ---------------------------------------------------------------- adding to a folder

  /** Node `k` is a folder and none of its children has the name. */
  ghost predicate Lacks(d: Tree, k: nat, name: string) {
    && k < |d| && d[k].IsFolder()
    && forall j | k < j < |d| && d[j].fname == name :: exists f :: k < f < j && d[f].IsFolder()
  }

  /** No child of node `k` is a folder: nothing behind it is. */
  ghost predicate OnlyFiles(d: Tree, k: nat) {
    forall j | k < j < |d| :: !d[j].IsFolder()
  }

  lemma {:induction false} LastBehind(d: Tree, i: nat)
    requires i < |d|
    ensures var m := LastSibling(d, i);
            (forall j | i <= j < |d| :: !d[j].IsFolder()) ==> m == |d| - 1
  {
  }

  /** An entry added to a folder goes to the end of the tree, or under the first folder that hangs in it. */
  lemma PlaceInFolder(d: Tree, k: nat)
    requires k < |d| && d[k].IsFolder()
    ensures var m := LastOf(d, k);
            && (forall j | k < j < m :: !d[j].IsFolder())
            && (if OnlyFiles(d, k) then m == |d| - 1 else k < m && d[m].IsFolder())
  {
    if k + 1 < |d| {
      LastBehind(d, k + 1);
    }
  }

  lemma NewPath(d: Tree, k: nat, e: Tree, n: nat)
    requires k < n < |e| && k < |d| && (forall j | 0 <= j <= k :: d[j] == e[j])
    requires d[k].IsFolder() && forall j | k < j < n :: !e[j].IsFolder()
    ensures Way(e, 0, n) == Way(d, 0, k) + [e[n].fname]
    ensures PathTo(e, n) == PathTo(d, k) + "/" + e[n].fname
  {
    WaySame(d, e, 0, k);
    WayThrough(e, 0, k, n);
    JoinedMore(Way(d, 0, k), e[n].fname);
  }

  lemma FreeInFolder(d: Tree, k: nat, name: string)
    requires Lacks(d, k, name)
    ensures NameFree(d, LastOf(d, k), name)
  {
    var m := LastOf(d, k);
    PlaceInFolder(d, k);
    forall i | 0 <= i <= m && d[i].fname == name ensures exists f :: i <= f <= m && d[f].IsFolder() {
      if d[m].IsFolder() {
        assert i <= m <= m;
      } else if i <= k {
        assert i <= k <= m && d[k].IsFolder();
      }
    }
  }

  /** A file added at the path of a folder. */
  lemma FileAdded(d: Tree, k: nat, name: string, dname: string, no: int) returns (e: Tree)
    requires Tidy(d) && Lacks(d, k, name) && Slashless(name) && name != HOME
    ensures Hung(d, PathTo(d, k), NewData(name, dname, PathTo(d, k), 0), no) == Some(e)
    ensures Tidy(e) && e == Added(d, LastOf(d, k), NewData(name, dname, PathTo(d, k), 0), no)
  {
    EveryNodeIsFound(d, k);
    FreeInFolder(d, k, name);
    e := Added(d, LastOf(d, k), NewData(name, dname, PathTo(d, k), 0), no);
    AddedTidy(d, LastOf(d, k), NewData(name, dname, PathTo(d, k), 0), no);
  }

  lemma FoundUnder(d: Tree, k: nat, e: Tree, n: nat)
    requires Tidy(e) && k < |d| && k < n < |e| && e[..k + 1] == d[..k + 1] && d[k].IsFolder()
    requires forall j | k < j < n :: !e[j].IsFolder()
    ensures Search(e, PathTo(d, k) + "/" + e[n].fname) == Found(n)
  {
    assert forall j | 0 <= j <= k :: e[j] == e[..k + 1][j] && d[j] == d[..k + 1][j];
    NewPath(d, k, e, n);
    EveryNodeIsFound(e, n);
  }

  /**
   * A file added at the path of a folder is found under that path exactly when no child of the folder is
   * itself a folder: behind a folder `addnode` hangs it into that one.
   */
  lemma FileFoundIff(d: Tree, k: nat, name: string, dname: string, no: int)
    requires Tidy(d) && Lacks(d, k, name) && Slashless(name) && name != HOME
    ensures var path := PathTo(d, k);
            var e := Hung(d, path, NewData(name, dname, path, 0), no);
            e.Some? && (Search(e.value, path + "/" + name) == Found(|e.value| - 1) <==> OnlyFiles(d, k))
  {
    var e := FileAdded(d, k, name, dname, no);
    PlaceInFolder(d, k);
    if OnlyFiles(d, k) {
      FoundUnder(d, k, e, |d|);
    } else {
      UnderOther(d, e, k, LastOf(d, k), name);
    }
  }

  lemma UnderOther(d: Tree, e: Tree, k: nat, m: nat, name: string)
    requires Tidy(e) && k < m < |d| && |e| == m + 2 && e[..m + 1] == d[..m + 1] && e[m + 1].fname == name
    requires d[k].IsFolder() && d[m].IsFolder() && forall j | k < j < m :: !d[j].IsFolder()
    ensures Search(e, PathTo(d, k) + "/" + name) != Found(m + 1)
  {
    forall j | 0 <= j <= m ensures e[j] == d[j] {
      assert e[j] == e[..m + 1][j] && d[j] == d[..m + 1][j];
    }
    NewPath(d, k, d, m);
    NewPath(d, m, e, m + 1);
    NotUnder(d, e, k, m, name);
  }

  lemma NotUnder(d: Tree, e: Tree, k: nat, m: nat, name: string)
    requires Tidy(e) && k < |d| && m + 1 < |e| && e[m + 1].fname == name
    requires Way(e, 0, m + 1) == Way(d, 0, k) + [e[m].fname] + [name]
    ensures Search(e, PathTo(d, k) + "/" + name) != Found(m + 1)
  {
    var way, names := Way(e, 0, m + 1), Way(d, 0, k) + [name];
    JoinedMore(Way(d, 0, k), name);
    WayNames(e, 0, m + 1);
    assert forall j | 0 <= j < |names| - 1 :: names[j] == way[j];
    assert names[|names| - 1] == way[|way| - 1];
    StepsOfJoined(names);
    StepsOfJoined(way);
    SearchFinds(e, Joined(names), m + 1);
    assert Joined(names)[|PathTo(d, k)|] == '/';
    assert Slashless(e[m + 1].fname);
  }

  /** The record of a file, its numbers aside. */
  ghost predicate IsFile(x: Data, name: string, dname: string, loc: string) {
    && x.fname == name && x.loc == loc && x.dflag == 0
    && x.dname == [dname, "none", "none", "none", "none"] && x.dsync == [1, 0, 0, 0, 0]
  }

  /** Behind folder `k` stand only files, and none of them has the name. */
  ghost predicate FilesLack(d: Tree, k: nat, name: string) {
    k < |d| && d[k].IsFolder() && forall j | k < j < |d| :: !d[j].IsFolder() && d[j].fname != name
  }

  /** A file added to a folder without folders is the last node of the tree. */
  lemma FileLast(d: Tree, k: nat, name: string, dname: string, no: int) returns (e: Tree)
    requires Tidy(d) && FilesLack(d, k, name) && Slashless(name) && name != HOME
    ensures Hung(d, PathTo(d, k), NewData(name, dname, PathTo(d, k), 0), no) == Some(e) && Tidy(e)
    ensures |e| == |d| + 1 && e[..|d|] == d && IsFile(e[|d|], name, dname, PathTo(d, k))
    ensures PathTo(e, k) == PathTo(d, k)
    ensures forall other | FilesLack(d, k, other) && other != name :: FilesLack(e, k, other)
  {
    PlaceInFolder(d, k);
    e := FileAdded(d, k, name, dname, no);
    assert forall j | 0 <= j < |d| :: e[j] == d[j];
    WaySame(d, e, 0, k);
  }

  /** The last two nodes of `e` are two files at `path`, siblings, and a search below the path finds them. */
  ghost predicate TwoMore(d: Tree, e: Tree, path: string, a: string, b: string, dname: string) {
    && |e| == |d| + 2 && e[..|d|] == d
    && IsFile(e[|d|], a, dname, path) && IsFile(e[|d| + 1], b, dname, path)
    && Next(e, |d|) == |d| + 1
    && Search(e, path + "/" + a) == Found(|d|) && Search(e, path + "/" + b) == Found(|d| + 1)
  }

  /** Two files with different names added to a folder without folders. */
  lemma TwoFiles(d: Tree, k: nat, a: string, b: string, dname: string, no: int) returns (one: Tree, two: Tree)
    requires Tidy(d) && FilesLack(d, k, a) && FilesLack(d, k, b) && a != b
    requires Slashless(a) && Slashless(b) && a != HOME && b != HOME
    ensures Hung(d, PathTo(d, k), NewData(a, dname, PathTo(d, k), 0), no) == Some(one)
    ensures Hung(one, PathTo(d, k), NewData(b, dname, PathTo(d, k), 0), no + 1) == Some(two)
    ensures TwoMore(d, two, PathTo(d, k), a, b, dname)
  {
    one := FileLast(d, k, a, dname, no);
    two := FileLast(one, k, b, dname, no + 1);
    BothFound(d, k, one, two, a, b, dname);
  }

  lemma BothFound(d: Tree, k: nat, one: Tree, two: Tree, a: string, b: string, dname: string)
    requires Tidy(two) && FilesLack(d, k, a) && |one| == |d| + 1 && |two| == |d| + 2
    requires one[..|d|] == d && two[..|d| + 1] == one
    requires IsFile(one[|d|], a, dname, PathTo(d, k)) && IsFile(two[|d| + 1], b, dname, PathTo(d, k))
    ensures TwoMore(d, two, PathTo(d, k), a, b, dname)
  {
    assert two[|d|] == two[..|d| + 1][|d|];
    assert two[..|d|] == two[..|d| + 1][..|d|] == d;
    forall j | 0 <= j < |d| ensures two[j] == d[j] {
      assert two[j] == two[..|d|][j];
    }
    assert two[..k + 1] == d[..k + 1];
    FoundUnder(d, k, two, |d|);
    FoundUnder(d, k, two, |d| + 1);
  }

  /** So it is after every run from the start. */
  lemma {:induction false} RunTwoFiles(dsync: seq<int>, ops: seq<Op>, s: State, k: nat, a: string, b: string, dname: string)
    returns (one: State, two: State)
    requires NamedRun(Start(dsync), ops, s) && FilesLack(s.d, k, a) && FilesLack(s.d, k, b) && a != b
    requires Slashless(a) && Slashless(b) && a != HOME && b != HOME
    ensures Apply(s, Add(a, dname, PathTo(s.d, k), 0)) == Some(one)
    ensures Apply(one, Add(b, dname, PathTo(s.d, k), 0)) == Some(two)
    ensures TwoMore(s.d, two.d, PathTo(s.d, k), a, b, dname)
  {
    RunIsTidy(dsync, ops, s);
    one, two := TwoAdditions(s, k, a, b, dname);
  }

  lemma TwoAdditions(s: State, k: nat, a: string, b: string, dname: string) returns (one: State, two: State)
    requires Tidy(s.d) && FilesLack(s.d, k, a) && FilesLack(s.d, k, b) && a != b
    requires Slashless(a) && Slashless(b) && a != HOME && b != HOME
    ensures Apply(s, Add(a, dname, PathTo(s.d, k), 0)) == Some(one)
    ensures Apply(one, Add(b, dname, PathTo(s.d, k), 0)) == Some(two)
    ensures TwoMore(s.d, two.d, PathTo(s.d, k), a, b, dname)
  {
    var d, e := TwoFiles(s.d, k, a, b, dname, s.nodeno);
    one, two := State(d, s.nodeno + 1), State(e, s.nodeno + 2);
    ApplyAdds(s, a, dname, PathTo(s.d, k), d);
    ApplyAdds(one, b, dname, PathTo(s.d, k), e);
  }

  lemma ApplyAdds(s: State, name: string, dname: string, path: string, e: Tree)
    requires s.d != [] && Hung(s.d, path, NewData(name, dname, path, 0), s.nodeno) == Some(e)
    ensures e != [] && Apply(s, Add(name, dname, path, 0)) == Some(State(e, s.nodeno + 1))
  {
  }

  lemma TwoFromStart(dsync: seq<int>, a: string, b: string, dname: string) returns (one: Tree, two: Tree)
    requires a != b && Slashless(a) && Slashless(b) && a != "home" && b != "home"
    ensures Hung(Start(dsync).d, "home", NewData(a, dname, "home", 0), 1) == Some(one)
    ensures Hung(one, "home", NewData(b, dname, "home", 0), 2) == Some(two)
    ensures |two| == 3 && IsFile(two[1], a, dname, "home") && IsFile(two[2], b, dname, "home")
    ensures Search(two, "home" + "/" + b) == Found(2)
  {
    StartTidy(dsync);
    one, two := TwoFiles(Start(dsync).d, 0, a, b, dname, 1);
  }

  /** On the linked nodes, as `dummymain` does it: two files in the root, and a search for the second. */
  method TwoInHome(space: Space, a: string, b: string, dname: string, ghost dsync: seq<int>) returns (found: Node?)
    requires space.Valid() && StateOf(space) == Start(dsync)
    requires a != b && Slashless(a) && Slashless(b) && a != "home" && b != "home"
    modifies space, space.repr
    ensures space.Valid() && found != null && IsFile(found.data, b, dname, "home")
    ensures found.prev != null && found.prev.next == found && found.prev.data.fname == a
  {
    ghost var one, two := TwoFromStart(dsync, a, b, dname);
    AddFile(space, a, dname, "home", one);
    AddFile(space, b, dname, "home", two);
    found := FindNode(space, "home" + "/" + b, 2);
  }

  method AddFile(space: Space, name: string, dname: string, loc: string, ghost e: Tree)
    requires space.Valid()
    requires Hung(space.Contents(), loc, NewData(name, dname, loc, 0), space.nodeno) == Some(e)
    modifies space, space.repr
    ensures space.Valid() && fresh(space.repr - old(space.repr))
    ensures space.Contents() == e && space.nodeno == old(space.nodeno) + 1
  {
    var ok := space.AddEntry(name, dname, loc, 0);
  }

  method FindNode(space: Space, path: string, ghost n: nat) returns (found: Node?)
    requires space.Valid() && 0 < n < |space.Contents()| && Search(space.Contents(), path) == Found(n)
    ensures found != null && found.data == space.Contents()[n]
    ensures found.prev != null && found.prev.data == space.Contents()[n - 1]
    ensures !found.prev.data.IsFolder() ==> found.prev.next == found
  {
    var ok;
    ok, found := space.SearchPath(path);
    space.FolderIsLast(n);
  }
}
