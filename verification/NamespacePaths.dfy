/** Paths: which node a slash-separated path leads to. */
module NamespacePaths {
  import opened Bytes
  import opened NamespaceSpec
  import opened Sequences

  function Joined(names: seq<string>): string
    requires names != []
  {
    if |names| == 1 then names[0] else names[0] + "/" + Joined(names[1..])
  }

  predicate Slashless(name: string) {
    forall i | 0 <= i < |name| :: name[i] != '/'
  }

  ghost predicate AllSlashless(names: seq<string>) {
    forall j | 0 <= j < |names| :: Slashless(names[j])
  }

  /** Every component that has others after it is not one letter. */
  ghost predicate NoLetterInside(names: seq<string>) {
    forall j | 0 <= j < |names| - 1 :: |names[j]| != 1
  }

  lemma SlashAt(name: string, rest: string)
    requires Slashless(name)
    ensures Slash(name + "/" + rest) == |name|
    ensures (name + "/" + rest)[..|name|] == name && (name + "/" + rest)[|name| + 1..] == rest
  {
    var path := name + "/" + rest;
    assert path[|name|] == '/';
    assert forall i | 0 <= i < |name| :: path[i] == name[i];
  }

  /** Names come back from the path they are joined into, unless one of them but the last is a single letter. */
  lemma {:induction false} StepsOfJoined(names: seq<string>)
    requires names != [] && AllSlashless(names) && NoLetterInside(names)
    ensures Steps(Joined(names)) == names
  {
    if |names| == 1 {
      assert Slashless(names[0]);
      assert Slash(names[0]) == |names[0]|;
    } else {
      var rest := names[1..];
      assert [names[0]] + rest == names;
      Apart(names[0], rest);
      assert forall j | 0 <= j < |rest| :: rest[j] == names[j + 1];
      SlashAt(names[0], Joined(rest));
      StepsOfJoined(rest);
      StepsUnfold(Joined(names));
    }
  }

  /** A path whose steps have no slash is its steps joined, and no step but the last is a single letter. */
  lemma {:induction false} JoinedOfSteps(path: string)
    requires AllSlashless(Steps(path))
    ensures Joined(Steps(path)) == path && NoLetterInside(Steps(path))
    decreases |path|
  {
    StepsUnfold(path);
    if Slash(path) < |path| {
      var name, rest := Component(path), path[Slash(path) + 1..];
      Apart(name, Steps(rest));
      ComponentApart(path);
      JoinedOfSteps(rest);
      Together(name, Steps(rest));
    }
  }

  lemma Apart(name: string, names: seq<string>)
    requires AllSlashless([name] + names)
    ensures Slashless(name) && AllSlashless(names)
  {
    assert ([name] + names)[0] == name;
    forall j | 0 <= j < |names| ensures Slashless(names[j]) {
      assert ([name] + names)[j + 1] == names[j];
    }
  }

  lemma Together(name: string, names: seq<string>)
    requires names != [] && |name| != 1 && NoLetterInside(names)
    ensures Joined([name] + names) == name + "/" + Joined(names) && NoLetterInside([name] + names)
  {
    assert ([name] + names)[1..] == names;
  }

  /** A first component without a slash is not a single letter, since that would be the whole path. */
  lemma ComponentApart(path: string)
    requires Slash(path) < |path| && Slashless(Component(path))
    ensures |Component(path)| != 1 && path == Component(path) + "/" + path[Slash(path) + 1..]
  {
    HasSlash(path);
  }

  lemma HasSlash(path: string)
    requires Slash(path) < |path|
    ensures !Slashless(path)
  {
    assert path[Slash(path)] == '/';
  }

  // ---------------------------------------------------------------- the way to a node

  /** The names on the way from the siblings at `i` down to node `k`: every folder in between is on it. */
  function Way(d: Tree, i: nat, k: nat): (names: seq<string>)
    requires i <= k < |d|
    ensures names != [] && names[|names| - 1] == d[k].fname
    decreases k - i
  {
    if i == k then [d[k].fname]
    else if d[i].IsFolder() then [d[i].fname] + Way(d, i + 1, k)
    else Way(d, i + 1, k)
  }

  /** The path of node `k`, from the root. */
  function PathTo(d: Tree, k: nat): string
    requires k < |d|
  {
    Joined(Way(d, 0, k))
  }

  /** Siblings have different names: node `j` is a later sibling of `i` when no folder lies from `i` up to it. */
  ghost predicate DistinctSiblings(d: Tree) {
    forall i, j | 0 <= i < j < |d| && d[i].fname == d[j].fname :: FolderBetween(d, i, j)
  }

  ghost predicate FolderBetween(d: Tree, i: nat, j: nat)
    requires i < j < |d|
  {
    exists f :: i <= f < j && d[f].IsFolder()
  }

  lemma {:induction false} WalkTo(d: Tree, i: nat, k: nat)
    requires DistinctSiblings(d) && i <= k < |d| && forall f | i <= f < k :: !d[f].IsFolder()
    ensures Walk(d, i, d[k].fname) == k
    decreases k - i
  {
    if i < k {
      assert d[i].fname == d[k].fname ==> FolderBetween(d, i, k);
      WalkTo(d, i + 1, k);
    }
  }

  /** The first folder in the way, or the node itself. */
  function Stop(d: Tree, i: nat, k: nat): (f: nat)
    requires i <= k < |d|
    ensures i <= f <= k && (forall j | i <= j < f :: !d[j].IsFolder()) && (f < k ==> d[f].IsFolder())
    decreases k - i
  {
    if i == k || d[i].IsFolder() then i else Stop(d, i + 1, k)
  }

  lemma {:induction false} WayFromTo(d: Tree, i: nat, f: nat, k: nat)
    requires i <= f <= k < |d| && (forall j | i <= j < f :: !d[j].IsFolder()) && (f < k ==> d[f].IsFolder())
    ensures Way(d, i, k) == if f == k then [d[k].fname] else [d[f].fname] + Way(d, f + 1, k)
    decreases f - i
  {
    if i < f {
      WayFromTo(d, i + 1, f, k);
    }
  }

  lemma WayFrom(d: Tree, i: nat, k: nat)
    requires i <= k < |d|
    ensures var f := Stop(d, i, k);
            Way(d, i, k) == if f == k then [d[k].fname] else [d[f].fname] + Way(d, f + 1, k)
  {
    WayFromTo(d, i, Stop(d, i, k), k);
  }

  /** Following the names on the way to a node leads to it. */
  lemma {:induction false} WayLeads(d: Tree, i: nat, k: nat, names: seq<string>, s: nat)
    requires OneHome(d) && DistinctSiblings(d) && 1 <= i <= k < |d|
    requires s < |names| && names[s..] == Way(d, i, k)
    ensures Descend(d, i, names, s) == Found(k)
    decreases k - i
  {
    var f := Stop(d, i, k);
    WayFrom(d, i, k);
    WalkTo(d, i, f);
    assert names[s] == names[s..][0] == d[f].fname;
    if f < k {
      assert names[s + 1..] == names[s..][1..] == Way(d, f + 1, k);
      WayLeads(d, f + 1, k, names, s + 1);
    }
  }

  lemma WalkStops(d: Tree, i: nat, name: string, k: nat)
    requires i <= |d| && Walk(d, i, name) < |d| && Walk(d, i, name) <= k < |d|
    requires Walk(d, i, name) < k ==> d[Walk(d, i, name)].IsFolder()
    ensures Stop(d, i, k) == Walk(d, i, name)
    decreases |d| - i
  {
    if d[i].fname != name {
      WalkStops(d, i + 1, name, k);
    }
  }

  /** And no other names lead there. */
  lemma {:induction false} OnlyWayLeads(d: Tree, i: nat, names: seq<string>, s: nat)
    requires OneHome(d) && 1 <= i <= |d| && s < |names| && !EndsHome(names) && Descend(d, i, names, s).Found?
    ensures var k := Descend(d, i, names, s).at;
            i <= k && names[s..] == Way(d, i, k)
    decreases |names| - s
  {
    var k, w := Descend(d, i, names, s).at, Walk(d, i, names[s]);
    DescendFrom(d, i, names, s);
    DropOne(names, s);
    if s < |names| - 1 {
      DescendStep(d, i, names, s);
      DescendFrom(d, w + 1, names, s + 1);
      OnlyWayLeads(d, w + 1, names, s + 1);
    } else {
      assert d[i].fname != HOME && w == k && names[s + 1..] == [];
    }
    WalkStops(d, i, names[s], k);
    WayFrom(d, i, k);
  }

  /** A search that goes on goes on under the folder with the name. */
  lemma DescendStep(d: Tree, i: nat, names: seq<string>, s: nat)
    requires OneHome(d) && i <= |d| && s < |names| - 1 && !EndsHome(names) && Descend(d, i, names, s).Found?
    ensures var w := Walk(d, i, names[s]);
            w < |d| && d[w].IsFolder() && Descend(d, w + 1, names, s + 1) == Descend(d, i, names, s)
  {
    DescendFrom(d, Fold(d, Walk(d, i, names[s])), names, s + 1);
  }

  // ---------------------------------------------------------------- search

  /** The root is a folder called home, no name has a slash, and no other node is called home. */
  ghost predicate Rooted(d: Tree) {
    && OneHome(d) && d[0].fname == HOME && d[0].IsFolder()
    && forall i | 0 <= i < |d| :: Slashless(d[i].fname)
  }

  ghost predicate LongFolders(d: Tree) {
    forall i | 0 <= i < |d| && d[i].IsFolder() :: |d[i].fname| != 1
  }

  lemma {:induction false} WayNames(d: Tree, i: nat, k: nat)
    requires Rooted(d) && i <= k < |d|
    ensures AllSlashless(Way(d, i, k)) && (LongFolders(d) ==> NoLetterInside(Way(d, i, k)))
    decreases k - i
  {
    if i < k {
      WayNames(d, i + 1, k);
      assert Slashless(d[i].fname);
      if d[i].IsFolder() {
        Prepended(d[i].fname, Way(d, i + 1, k));
      }
    } else {
      assert Slashless(d[k].fname);
    }
  }

  lemma Prepended(name: string, names: seq<string>)
    requires Slashless(name) && AllSlashless(names) && names != []
    ensures AllSlashless([name] + names)
    ensures |name| != 1 && NoLetterInside(names) ==> NoLetterInside([name] + names)
  {
    var all := [name] + names;
    assert forall j | 0 < j < |all| :: all[j] == names[j - 1];
  }

  lemma StepsFromRoot(d: Tree, names: seq<string>, k: nat)
    requires Rooted(d) && 1 <= k < |d| && |names| >= 2 && !EndsHome(names)
    ensures Descend(d, 0, names, 0) == Found(k) <==> names[0] == HOME && Descend(d, 1, names, 1) == Found(k)
  {
  }

  lemma StepsAtRoot(d: Tree, name: string, k: nat)
    requires Rooted(d) && 1 <= k < |d| && name != HOME
    ensures Descend(d, 0, [name], 0) == Found(k) <==> Descend(d, 1, [name], 0) == Found(k)
  {
  }

  lemma DescendIsWay(d: Tree, names: seq<string>, s: nat, k: nat)
    requires Rooted(d) && DistinctSiblings(d) && 1 <= k < |d| && s < |names| && !EndsHome(names)
    ensures Descend(d, 1, names, s) == Found(k) <==> names[s..] == Way(d, 1, k)
  {
    if names[s..] == Way(d, 1, k) {
      WayLeads(d, 1, k, names, s);
    } else if Descend(d, 1, names, s) == Found(k) {
      OnlyWayLeads(d, 1, names, s);
    }
  }

  lemma StepsLead(d: Tree, names: seq<string>, k: nat)
    requires Rooted(d) && DistinctSiblings(d) && 1 <= k < |d| && names != [] && !EndsHome(names)
    ensures Descend(d, 0, names, 0) == Found(k) <==> names == Way(d, 0, k) || names == Way(d, 1, k) == [d[k].fname]
  {
    assert Way(d, 0, k) == [HOME] + Way(d, 1, k);
    if |names| == 1 {
      StepsAtRoot(d, names[0], k);
      assert names == [names[0]] && names[0..] == names;
      DescendIsWay(d, names, 0, k);
    } else {
      StepsFromRoot(d, names, k);
      DescendIsWay(d, names, 1, k);
      assert names == [names[0]] + names[1..];
    }
  }

  lemma WayFromRoot(d: Tree, k: nat)
    requires Rooted(d) && 1 <= k < |d|
    ensures Way(d, 0, k) == [HOME] + Way(d, 1, k)
    ensures AllSlashless(Way(d, 0, k)) && AllSlashless(Way(d, 1, k))
    ensures !EndsHome(Way(d, 0, k)) && !EndsHome(Way(d, 1, k))
  {
    WayNames(d, 0, k);
    WayNames(d, 1, k);
  }

  /** Names that lead to a node, joined. */
  lemma JoinedFinds(d: Tree, names: seq<string>, k: nat)
    requires Rooted(d) && DistinctSiblings(d) && 1 <= k < |d|
    requires names == Way(d, 0, k) || names == Way(d, 1, k) == [d[k].fname]
    requires NoLetterInside(names)
    ensures Search(d, Joined(names)) == Found(k)
  {
    WayFromRoot(d, k);
    StepsOfJoined(names);
    StepsLead(d, names, k);
    assert Steps(HOME) == [HOME];
  }

  /** Only such names lead there. */
  lemma FoundIsJoined(d: Tree, path: string, k: nat)
    requires Rooted(d) && DistinctSiblings(d) && 1 <= k < |d| && Search(d, path) == Found(k)
    ensures var names := Steps(path);
            && path == Joined(names) && NoLetterInside(names)
            && (names == Way(d, 0, k) || names == Way(d, 1, k) == [d[k].fname])
  {
    var names := Steps(path);
    if EndsHome(names) {
      HomeLeadsToRoot(d, 0, names, 0);
    }
    StepsLead(d, names, k);
    WayFromRoot(d, k);
    JoinedOfSteps(path);
  }

  /**
   * Which paths `search` resolves to which node, the root aside: the node's own path, and for a child of the
   * root also its bare name; but a path through a folder with a name of one letter leads nowhere.
   */
  lemma SearchFinds(d: Tree, path: string, k: nat)
    requires Rooted(d) && DistinctSiblings(d) && 1 <= k < |d|
    ensures Search(d, path) == Found(k) <==>
            || (path == PathTo(d, k) && NoLetterInside(Way(d, 0, k)))
            || (path == d[k].fname && Way(d, 1, k) == [d[k].fname])
  {
    if Search(d, path) == Found(k) {
      FoundIsJoined(d, path, k);
    }
    if path == PathTo(d, k) && NoLetterInside(Way(d, 0, k)) {
      JoinedFinds(d, Way(d, 0, k), k);
    }
    if path == d[k].fname && Way(d, 1, k) == [d[k].fname] {
      JoinedFinds(d, Way(d, 1, k), k);
    }
  }

  /** So every node is found under its own path when no folder name is a single letter. */
  lemma EveryNodeIsFound(d: Tree, k: nat)
    requires Rooted(d) && DistinctSiblings(d) && LongFolders(d) && k < |d|
    ensures Search(d, PathTo(d, k)) == Found(k)
  {
    if k > 0 {
      WayNames(d, 0, k);
      JoinedFinds(d, Way(d, 0, k), k);
    }
  }

  // ---------------------------------------------------------------- a location that comes back to the root

  predicate PlainName(name: string) {
    Slashless(name) && |name| != 1 && name != HOME
  }

  /** A root, the folder `a` in it, and the folder `b` in that. */
  function TwoFolders(a: string, b: string): (d: Tree)
    ensures |d| == 3
  {
    [Root([1, 0, 0, 0, 0]), NewData(a, "node", HOME, 1), NewData(b, "node", Joined([HOME, a]), 1)]
  }

  lemma StepsOfNames(a: string, b: string)
    requires PlainName(a) && PlainName(b)
    ensures Steps(Joined([HOME, a])) == [HOME, a] && GoodLoc(Joined([HOME, a]))
    ensures Steps(Joined([HOME, a, b, HOME])) == [HOME, a, b, HOME] && !GoodLoc(Joined([HOME, a, b, HOME]))
  {
    assert Slashless(HOME);
    StepsOfJoined([HOME, a]);
    StepsOfJoined([HOME, a, b, HOME]);
    assert Steps(HOME) == [HOME];
  }

  lemma SecondPlaced(d: Tree, a: string, b: string)
    requires PlainName(a) && PlainName(b) && d == TwoFolders(a, b)
    ensures PlacedAt(d, 2)
  {
    var e, path, names := d[..2], d[2].loc, [HOME, a];
    StepsOfNames(a, b);
    assert path != HOME by {
      assert Steps(HOME) == [HOME];
    }
    SearchNotHome(e, path);
    assert Descend(e, 0, names, 0) == Descend(e, 1, names, 1) == Found(1);
    assert LastOf(e, 1) == 1;
  }

  lemma TwoFoldersReplayable(d: Tree, a: string, b: string)
    requires PlainName(a) && PlainName(b) && d == TwoFolders(a, b)
    ensures Replayable(d) && OneHome(d) && d[0].IsFolder() && d[1].IsFolder()
  {
    FirstPlaced(d);
    SecondPlaced(d, a, b);
  }

  lemma FirstPlaced(d: Tree)
    requires |d| >= 2 && d[1].loc == HOME
    ensures PlacedAt(d, 1)
  {
    assert Search(d[..1], HOME) == Found(0);
  }

  lemma HomeAgainFound(d: Tree, a: string, b: string)
    requires PlainName(a) && PlainName(b) && d == TwoFolders(a, b)
    ensures Search(d, Joined([HOME, a, b, HOME])) == Found(0)
  {
    var path, names := Joined([HOME, a, b, HOME]), [HOME, a, b, HOME];
    StepsOfNames(a, b);
    SearchNotHome(d, path);
    assert Descend(d, 0, names, 0) == Descend(d, 1, names, 1) == Descend(d, 2, names, 2) == Descend(d, 3, names, 3);
  }

  /**
   * An entry added at a location like `home/a1/b2/home` takes the place of what hung under the first folder.
   * A rebuild of the tree then ends on a null pointer.
   */
  lemma HomeAgainStopsRebuild(a: string, b: string, entry: Data, no: int, nodeno: int)
    requires PlainName(a) && PlainName(b) && entry.loc == Joined([HOME, a, b, HOME])
    ensures var d := TwoFolders(a, b);
            var e := Added(d, 1, entry, no);
            && Rebuilt(d, nodeno) == Some(Renumbered(d, nodeno))
            && Hung(d, entry.loc, entry, no) == Some(e) && e[..2] == d[..2] && |e| == 3
            && Rebuilt(e, nodeno) == None
  {
    var d := TwoFolders(a, b);
    StepsOfNames(a, b);
    TwoFoldersReplayable(d, a, b);
    HomeAgainFound(d, a, b);
    AddedUnderRoot(d, entry, no, nodeno);
  }

  lemma AddedUnderRoot(d: Tree, entry: Data, no: int, nodeno: int)
    requires Replayable(d) && OneHome(d) && |d| >= 2 && d[0].IsFolder() && d[1].IsFolder()
    requires Search(d, entry.loc) == Found(0) && !GoodLoc(entry.loc) && |Steps(entry.loc)| > 3
    ensures Rebuilt(d, nodeno) == Some(Renumbered(d, nodeno))
    ensures Hung(d, entry.loc, entry, no) == Some(Added(d, 1, entry, no))
    ensures Rebuilt(Added(d, 1, entry, no), nodeno) == None
    ensures Added(d, 1, entry, no)[..2] == d[..2] && |Added(d, 1, entry, no)| == 3
  {
    assert LastOf(d, 0) == LastSibling(d, 1) == 1;
    RebuildsTheTree(d, nodeno);
    AddRebuiltIff(d, entry, no, nodeno);
  }
}
