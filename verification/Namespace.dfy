/** The namespace tree of dd.c: nodes relinked in place, searched by path, dumped and rebuilt. */
module Namespace {
  import opened Bytes
  import opened Decimal
  import opened NamespaceSpec
  import opened NamespaceText
  import opened Sequences
  import opened Splitting

  // ---------------------------------------------------------------- string helpers

  /** One behind the first occurrence, or -1. */
  method FindFch(s: string, c: char) returns (i: int)
    ensures if c in s then 0 < i <= |s| && s[i - 1] == c && c !in s[..i - 1] else i == -1
  {
    i := 0;
    while i < |s|
      invariant 0 <= i <= |s| && c !in s[..i]
    {
      if s[i] == c {
        return i + 1;
      }
      assert s[..i + 1] == s[..i] + [s[i]];
      i := i + 1;
    }
    assert s[..i] == s;
    return -1;
  }

  /** Copies `ilen + 1` characters, and everything from `start` on when `ilen` is zero. */
  method CStrCpy(s: string, start: nat, ilen: int) returns (t: string)
    requires start <= |s| && (ilen != 0 ==> start + ilen < |s|)
    ensures t == if ilen == 0 then s[start..] else if ilen < 0 then "" else s[start..start + ilen + 1]
  {
    t := "";
    var i := 0;
    if ilen != 0 {
      while i <= ilen
        invariant 0 <= i && (ilen >= 0 ==> i <= ilen + 1) && (ilen < 0 ==> i == 0)
        invariant start + i <= |s| && t == s[start..start + i]
      {
        t := t + [s[start + i]];
        i := i + 1;
      }
    } else {
      while start + i < |s|
        invariant 0 <= i && start + i <= |s| && t == s[start..start + i]
      {
        t := t + [s[start + i]];
        i := i + 1;
      }
    }
  }

  lemma SlashIs(path: string, i: int)
    requires 0 < i <= |path| && path[i - 1] == '/' && '/' !in path[..i - 1]
    ensures Slash(path) == i - 1
  {
    assert forall j | 0 <= j < i - 1 :: path[j] == path[..i - 1][j];
  }

  ghost predicate FirstSlash(path: string, p: nat) {
    p < |path| && path[p] == '/' && forall i | 0 <= i < p :: path[i] != '/'
  }

  method ParserPath(path: string) returns (name: string)
    requires '/' in path
    ensures name == Component(path)
    ensures forall p: nat | FirstSlash(path, p) :: name == if p == 1 then path else path[..p]
  {
    var ipos := FindFch(path, '/');
    SlashIs(path, ipos);
    name := CStrCpy(path, 0, ipos - 2);
  }

  method RemovePath(path: string) returns (rest: string)
    requires '/' in path
    ensures rest == path[Slash(path) + 1..]
    ensures forall p: nat | FirstSlash(path, p) :: rest == path[p + 1..]
  {
    var ipos := FindFch(path, '/');
    SlashIs(path, ipos);
    rest := CStrCpy(path, ipos, 0);
  }

  // ---------------------------------------------------------------- the tree

  class Node {
    var data: Data
    var next: Node?
    var prev: Node?
    var fold: Node?

    /** `create_node`. */
    constructor (data: Data)
      ensures this.data == data && next == null && prev == null && fold == null
    {
      this.data := data;
      next, prev, fold := null, null, null;
    }
  }

  ghost function DataOf(ns: seq<Node>): (d: Tree)
    reads ns
    ensures |d| == |ns| && forall i | 0 <= i < |ns| :: d[i] == ns[i].data
  {
    seq(|ns|, i requires 0 <= i < |ns| reads ns => ns[i].data)
  }

  lemma NotAmong(ns: seq<Node>, repr: set<Node>, node: Node, m: nat)
    requires m < |ns| && (forall n | n in ns :: n in repr) && node !in repr && Distinct(ns)
    ensures Distinct(ns[..m + 1] + [node])
  {
    assert node !in ns;
  }

  /** The successor in preorder hangs by `fold` under a folder and by `next` behind a file. */
  ghost predicate LinksAt(ns: seq<Node>, i: nat)
    requires i < |ns|
    reads ns
  {
    var succ := if i == |ns| - 1 then null else ns[i + 1];
    && ns[i].prev == (if i == 0 then null else ns[i - 1])
    && ns[i].next == (if ns[i].data.IsFolder() then null else succ)
    && ns[i].fold == if ns[i].data.IsFolder() then succ else null
  }

  /** The file that is dumped to. */
  class File {
    var text: string
  }

  class Space {
    const head: Node
    var nodeno: int
    ghost var nodes: seq<Node>  // in preorder
    ghost var repr: set<Node>  // every node that is or was in the tree

    /** The nodes, as they hang together from the head. */
    ghost predicate Spine()
      reads `nodes, nodes
    {
      nodes != [] && nodes[0] == head && forall i | 0 <= i < |nodes| :: LinksAt(nodes, i)
    }

    ghost predicate Valid()
      reads `repr, `nodes, repr, nodes
    {
      (forall n | n in nodes :: n in repr) && Distinct(nodes) && Spine()
    }

    ghost function Contents(): Tree
      reads `nodes, nodes
    {
      DataOf(nodes)
    }

    ghost function At(k: nat): Node?
      requires k <= |nodes|
      reads `nodes
    {
      if k == |nodes| then null else nodes[k]
    }

    /** A folder is the last of its siblings, so the node before another is its parent just when it is a folder. */
    lemma FolderIsLast(i: nat)
      requires Valid() && 0 < i < |nodes|
      ensures nodes[i].data.IsFolder() ==> nodes[i].next == null
      ensures nodes[i].prev == nodes[i - 1]
      ensures nodes[i - 1].data.IsFolder() <==> nodes[i - 1].fold == nodes[i]
      ensures !nodes[i - 1].data.IsFolder() <==> nodes[i - 1].next == nodes[i]
    {
      assert LinksAt(nodes, i) && LinksAt(nodes, i - 1);
    }

    /** The tree of one node. */
    constructor (data: Data, nodeno: int)
      ensures Valid() && fresh(repr) && Contents() == [data] && this.nodeno == nodeno
    {
      head := new Node(data);
      this.nodeno := nodeno;
      nodes := [head];
      repr := {head};
    }

    /** The siblings from `temp`, which is node `i`, up to the one with the name. */
    method WalkSiblings(temp: Node?, name: string, ghost i: nat) returns (node: Node?)
      requires Spine() && i <= |nodes| && temp == At(i)
      ensures node == At(Walk(Contents(), i, name))
    {
      node := temp;
      ghost var k := i;
      while node != null && node.data.fname != name
        invariant i <= k <= |nodes| && node == At(k)
        invariant Walk(Contents(), i, name) == Walk(Contents(), k, name)
        decreases |nodes| - k
      {
        assert LinksAt(nodes, k);
        node := node.next;
        k := Next(Contents(), k);
      }
    }

    /**
     * `ok` is false when a null pointer is dereferenced; a null `node` means that none was found. The path is
     * what is left of `names` from the `s`-th on.
     */
    method SearchLoc(temp: Node?, path: string, ghost i: nat, ghost names: seq<string>, ghost s: nat)
      returns (ok: bool, node: Node?)
      requires Spine() && i <= |nodes| && temp == At(i) && Parses(path, names, s)
      ensures Outcome(Descend(Contents(), i, names, s), ok, node)
      decreases |path|
    {
      ParsesNext(path, names, s);
      var slash := FindFch(path, '/');
      if slash != -1 {
        SlashIs(path, slash);
        var rest, below;
        ghost var k: nat;
        ok, rest, below, k := SearchFolder(temp, path, i);
        if ok {
          ok, node := SearchLoc(below, rest, k, names, s + 1);
          return;
        }
        return true, null;
      } else {
        NoSlash(path);
        ok, node := SearchName(temp, path, i);
      }
    }

    /** The branch for a path with a slash: the rest of the path, and where to go on with it. */
    method SearchFolder(temp: Node?, path: string, ghost i: nat)
      returns (found: bool, rest: string, below: Node?, ghost k: nat)
      requires Spine() && i <= |nodes| && temp == At(i) && '/' in path
      ensures found == (Walk(Contents(), i, Component(path)) < |nodes|)
      ensures rest == path[Slash(path) + 1..] && k <= |nodes| && below == At(k)
      ensures found ==> k == Fold(Contents(), Walk(Contents(), i, Component(path)))
    {
      var name := ParserPath(path);
      var node := WalkSiblings(temp, name, i);
      rest := RemovePath(path);
      found, below, k := node != null, null, |nodes|;
      if found {
        ghost var w := Walk(Contents(), i, name);
        assert LinksAt(nodes, w);
        below := node.fold;
        k := Fold(Contents(), w);
      }
    }

    /** The branch for a path without a slash. */
    method SearchName(temp: Node?, name: string, ghost i: nat) returns (ok: bool, node: Node?)
      requires Spine() && i <= |nodes| && temp == At(i)
      ensures Outcome(LastStep(Contents(), i, name), ok, node)
    {
      ghost var d := Contents();
      if name == HOME {
        return true, head;
      } else if temp == null {
        return false, null;
      } else if temp.data.fname == HOME {
        assert LinksAt(nodes, 0);
        node := WalkSiblings(head.fold, name, Fold(d, 0));
      } else {
        node := WalkSiblings(temp, name, i);
      }
      return true, node;
    }

    ghost predicate Outcome(r: Result, ok: bool, node: Node?)
      reads `nodes
    {
      ok == !r.Crash? && (r.Found? ==> r.at < |nodes|) && node == if r.Found? then nodes[r.at] else null
    }

    method SearchPath(path: string) returns (ok: bool, node: Node?)
      requires Spine()
      ensures Outcome(Search(Contents(), path), ok, node)
    {
      if path == HOME {
        return true, head;
      }
      ok, node := SearchLoc(head, path, 0, Steps(path), 0);
    }

    /** The node to hang a new one on; `ok` is false when the path leads nowhere and null is dereferenced. */
    method SearchLast(path: string) returns (ok: bool, node: Node?, ghost m: nat)
      requires Spine()
      ensures ok == HangsAt(Contents(), path).Some? && (ok ==> node == nodes[HangsAt(Contents(), path).value])
      ensures ok ==> m == HangsAt(Contents(), path).value
    {
      ghost var d := Contents();
      var found: bool;
      found, node := SearchPath(path);
      if !found || node == null {
        return false, null, 0;
      }
      ok := true;
      ghost var k := Search(d, path).at;
      assert LinksAt(nodes, k);
      m := k;
      if node.fold != null {
        node := node.fold;
        m := Fold(d, k);
        while node.next != null
          invariant Fold(d, k) <= m < |nodes| && node == nodes[m]
          invariant LastSibling(d, Fold(d, k)) == LastSibling(d, m)
          decreases |nodes| - m
        {
          assert LinksAt(nodes, m);
          node := node.next;
          m := m + 1;
        }
        assert LinksAt(nodes, m);
      }
    }

    /** `ok` is false when the path leads nowhere: null is dereferenced and the process ends. */
    method AddNode(path: string, data: Data) returns (ok: bool)
      requires Valid()
      modifies this, repr
      ensures Valid() && fresh(repr - old(repr)) && old(repr) <= repr
      ensures var e := Hung(old(Contents()), path, data, old(nodeno));
              ok == e.Some? && Contents() == if ok then e.value else old(Contents())
      ensures nodeno == if ok then old(nodeno) + 1 else old(nodeno)
    {
      var last: Node?;
      ghost var m: nat;
      ok, last, m := SearchLast(path);
      if ok {
        HangNew(last, data, m);
      }
    }

    /** A new node with the next number. */
    method HangNew(last: Node, data: Data, ghost m: nat)
      requires Valid() && m < |nodes| && last == nodes[m]
      modifies this, repr
      ensures Valid() && fresh(repr - old(repr)) && old(repr) <= repr
      ensures Contents() == Added(old(Contents()), m, data, old(nodeno)) && nodeno == old(nodeno) + 1
    {
      var node := new Node(data.(pno := last.data.nno, nno := nodeno + 1));
      Hang(last, node, m);
      nodeno := nodeno + 1;
    }

    /** `addfile` (`dflag` 0) and `addfolder` (`dflag` 1). */
    method AddEntry(fname: string, dname: string, loc: string, dflag: int) returns (ok: bool)
      requires Valid()
      modifies this, repr
      ensures Valid() && fresh(repr - old(repr)) && old(repr) <= repr
      ensures var e := Hung(old(Contents()), loc, NewData(fname, dname, loc, dflag), old(nodeno));
              ok == e.Some? && Contents() == if ok then e.value else old(Contents())
      ensures nodeno == if ok then old(nodeno) + 1 else old(nodeno)
      ensures ok <==> Search(old(Contents()), loc).Found?
      ensures ok ==> exists n: nat ::
                && GrownAt(old(Contents()), Contents(), n)
                && LastUnder(old(Contents()), Search(old(Contents()), loc).at, n)
                && Contents()[n + 1] == Data(old(nodeno) + 1, Contents()[n].nno, fname,
                                             [dname, "none", "none", "none", "none"], loc, dflag, [1, 0, 0, 0, 0])
    {
      var names, sync := [], [];
      for i := 0 to REP
        invariant |names| == i && forall j | 0 <= j < i :: names[j] == "none"
      {
        names := names + ["none"];
      }
      for i := 0 to REP
        invariant |sync| == i && forall j | 0 <= j < i :: sync[j] == 0
      {
        sync := sync + [0];
      }
      names, sync := names[0 := dname], sync[0 := 1];
      assert names == [dname, "none", "none", "none", "none"] && sync == [1, 0, 0, 0, 0];
      ghost var d, no := Contents(), nodeno;
      ok := AddNode(loc, Data(0, 0, fname, names, loc, dflag, sync));
      if ok {
        ghost var n := HungIs(d, loc, Data(0, 0, fname, names, loc, dflag, sync), no);
      }
    }

    /** The linking of `addnode`. */
    method Hang(last: Node, node: Node, ghost m: nat)
      requires Valid() && m < |nodes| && last == nodes[m]
      requires node !in repr && node.next == null && node.prev == null && node.fold == null
      modifies this, repr, node
      ensures Valid() && repr == old(repr) + {node} && nodeno == old(nodeno)
      ensures Contents() == old(Contents()[..m + 1] + [node.data])
    {
      ghost var was := nodes;
      HangNode(last, node, m);
      assert forall i | 0 <= i <= m :: was[i] in old(repr);
    }

    method HangNode(last: Node, node: Node, ghost m: nat)
      requires Valid() && m < |nodes| && last == nodes[m]
      requires node !in repr && node.next == null && node.prev == null && node.fold == null
      modifies this, repr, node
      ensures Valid() && repr == old(repr) + {node} && nodeno == old(nodeno)
      ensures nodes == old(nodes)[..m + 1] + [node]
      ensures forall n | n in repr :: n.data == old(n.data)
    {
      ghost var was := nodes;
      assert LinksAt(was, m);
      Attach(last, node);
      NotAmong(was, repr, node, m);
      nodes := was[..m + 1] + [node];
      repr := repr + {node};
      forall i | 0 <= i < |nodes| ensures LinksAt(nodes, i) {
        if i <= m {
          assert old(LinksAt(was, i)) && was[i] in old(repr);
          assert i < m ==> was[i] != last;
        }
      }
    }

    /** A node goes under a folder or behind a file. */
    method Attach(last: Node, node: Node)
      requires last in repr && node !in repr
      modifies repr, node
      ensures node.prev == last && node.data == old(node.data)
      ensures node.next == old(node.next) && node.fold == old(node.fold)
      ensures forall n | n in repr :: n.data == old(n.data) && n.prev == old(n.prev)
      ensures forall n | n in repr :: n.next == if n == last && !n.data.IsFolder() then node else old(n.next)
      ensures forall n | n in repr :: n.fold == if n == last && n.data.IsFolder() then node else old(n.fold)
    {
      if last.data.dflag == 1 {
        last.fold := node;
      } else {
        last.next := node;
      }
      node.prev := last;
    }

    /**
     * `removefile`; `ok` is false when it dereferences null, which it does for the root, for the last of its
     * siblings (so for every folder), and for a path that leads nowhere.
     */
    method RemoveFile(path: string) returns (ok: bool)
      requires Valid()
      modifies this, repr
      ensures repr == old(repr)
      ensures var d := old(Contents());
              var r := Search(d, path);
              && ok == (r.Found? && 0 < r.at < |d| - 1 && !d[r.at].IsFolder())
              && (ok ==> Valid() && Contents() == Without(d, r.at))
      ensures nodeno == old(nodeno)
    {
      ghost var d := Contents();
      var found: bool;
      var node: Node?;
      found, node := SearchPath(path);
      if !found || node == null {
        return false;
      }
      ghost var k := Search(d, path).at;
      assert LinksAt(nodes, k);
      if node.prev == null || node.next == null {
        return false;
      }
      TakeOut(node, node.prev, node.next, k);
      ok := true;
    }

    method TakeOut(node: Node, prev: Node, next: Node, ghost k: nat)
      requires Valid() && 0 < k < |nodes| - 1 && node == nodes[k] && prev == nodes[k - 1] && next == nodes[k + 1]
      requires !node.data.IsFolder() && node.next == next
      modifies this, repr
      ensures Valid() && repr == old(repr) && nodeno == old(nodeno)
      ensures Contents() == Without(old(Contents()), k)
    {
      ghost var was := nodes;
      Unhang(node, prev, next, k);
      assert forall i | 0 <= i < |was| :: was[i] in repr;
    }

    /** The relinking of `removefile` for a node that has both neighbours. */
    method Unhang(node: Node, prev: Node, next: Node, ghost k: nat)
      requires Valid() && 0 < k < |nodes| - 1 && node == nodes[k] && prev == nodes[k - 1] && next == nodes[k + 1]
      requires !node.data.IsFolder() && node.next == next
      modifies this, repr
      ensures repr == old(repr) && nodeno == old(nodeno)
      ensures Valid() && nodes == old(Less(nodes, k))
      ensures forall n | n in repr :: n.data == old(n.data)
    {
      ghost var was := nodes;
      Rejoin(prev, next);
      DistinctLess(was, k);
      nodes := Less(was, k);
      forall i | 0 <= i < |nodes| ensures LinksAt(nodes, i) {
        ghost var j := if i < k then i else i + 1;
        assert nodes[i] == was[j] && old(LinksAt(was, j));
        assert j != k - 1 ==> was[j] != prev;
        assert j != k + 1 ==> was[j] != next;
      }
    }

    method Rejoin(prev: Node, next: Node)
      requires prev in repr && next in repr && prev != next
      modifies repr
      ensures forall n | n in repr :: n.data == old(n.data) && n.prev == if n == next then prev else old(n.prev)
      ensures forall n | n in repr :: n.next == if n == prev && !n.data.IsFolder() then next else old(n.next)
      ensures forall n | n in repr :: n.fold == if n == prev && n.data.IsFolder() then next else old(n.fold)
    {
      if prev.data.dflag == 1 {
        prev.fold := next;
      } else {
        prev.next := next;
      }
      next.prev := prev;
    }

    /** The dump of the tree from node `k` on, line by line. */
    method RecurseStore(file: File, node: Node, ghost k: nat, ghost d: Tree, ghost lines: seq<string>)
      requires Spine() && k < |nodes| && node == nodes[k] && d == Contents() && LinesOf(lines, d)
      modifies file
      ensures file.text == old(file.text) + TextFrom(lines, k)
      decreases |nodes| - k
    {
      assert LinksAt(nodes, k);
      StoreRecord(file, node.data, k, d, lines);
      var fold, next := node.fold, node.next;
      if fold != null {
        RecurseStore(file, fold, k + 1, d, lines);
      }
      if next != null {
        RecurseStore(file, next, k + 1, d, lines);
      }
    }

    /** `storelist` appends to what the file holds. */
    method StoreList(file: File)
      requires Valid() && forall d | d in Contents() :: Shaped(d)
      modifies file
      ensures file.text == old(file.text) + Text(Contents())
    {
      ghost var d := Contents();
      RecurseStore(file, head, 0, d, Lines(d));
      TextIs(d);
    }
  }

  ghost predicate LinesOf(lines: seq<string>, d: Tree) {
    |lines| == |d| && forall i {:trigger Line(d[i])} | 0 <= i < |d| :: Shaped(d[i]) && lines[i] == Line(d[i])
  }

  /** Writing one line: what is left to write is the text from the next line on. */
  method StoreRecord(file: File, data: Data, ghost k: nat, ghost d: Tree, ghost lines: seq<string>)
    requires LinesOf(lines, d) && k < |d| && data == d[k]
    modifies file
    ensures file.text + TextFrom(lines, k + 1) == old(file.text) + TextFrom(lines, k)
    ensures k + 1 == |lines| ==> file.text == old(file.text) + TextFrom(lines, k)
  {
    ghost var before := file.text;
    assert lines[k] == Line(d[k]);
    var line := PrintRecord(data);
    file.text := file.text + line;
    TextStep(before, lines, k);
  }

  lemma TextStep(before: string, lines: seq<string>, k: nat)
    requires k < |lines|
    ensures before + (lines[k] + "\n") + TextFrom(lines, k + 1) == before + TextFrom(lines, k)
    ensures k + 1 == |lines| ==> before + (lines[k] + "\n") == before + TextFrom(lines, k)
  {
    var line, rest := lines[k] + "\n", TextFrom(lines, k + 1);
    assert before + line + rest == before + (line + rest);
    assert line + "" == line;
  }

  ghost predicate Parses(path: string, names: seq<string>, s: nat) {
    s < |names| && Steps(path) == names[s..]
  }

  lemma ParsesNext(path: string, names: seq<string>, s: nat)
    requires Parses(path, names, s)
    ensures Slash(path) == |path| ==> s == |names| - 1 && names[s] == path
    ensures Slash(path) < |path| ==> s < |names| - 1 && names[s] == Component(path)
    ensures Slash(path) < |path| ==> Parses(path[Slash(path) + 1..], names, s + 1)
  {
    StepsUnfold(path);
    if Slash(path) < |path| {
      HeadAndTail(names, s, Component(path), Steps(path[Slash(path) + 1..]));
    } else {
      HeadAndTail(names, s, path, []);
    }
  }

  lemma NoSlash(path: string)
    requires '/' !in path
    ensures Slash(path) == |path| && Steps(path) == [path]
  {
    assert forall j | 0 <= j < |path| :: path[j] in path;
  }

  lemma FirstFields(fs: seq<string>)
    requires 3 <= |fs|
    ensures Terminated(fs[..3], ',') == fs[0] + "," + fs[1] + "," + fs[2] + ","
  {
    assert fs[..0] == [];
    TerminatedTakes(fs, 0, ',');
    TerminatedTakes(fs, 1, ',');
    TerminatedTakes(fs, 2, ',');
    assert "" + fs[0] == fs[0];
  }

  /** One line of the dump. */
  method PrintRecord(d: Data) returns (line: string)
    requires Shaped(d)
    ensures line == Line(d) + "\n"
  {
    ghost var fields := Fields(d);
    FieldPlaces(d);
    line := Clipped(d.nno) + ",";
    line := line + Clipped(d.pno);
    line := line + "," + d.fname + ",";
    FirstFields(fields);
    for i := 0 to REP
      invariant line == Terminated(fields[..3 + i], ',')
    {
      TerminatedTakes(fields, 3 + i, ',');
      line := line + d.dname[i] + ",";
    }
    TerminatedTakes(fields, 8, ',');
    line := line + d.loc + ",";
    TerminatedTakes(fields, 9, ',');
    line := line + Clipped(d.dflag) + ",";
    for i := 0 to REP
      invariant line == Terminated(fields[..10 + i], ',')
    {
      TerminatedTakes(fields, 10 + i, ',');
      line := line + Clipped(d.dsync[i]) + ",";
    }
    assert fields[..15] == fields;
    line := line + "ENDD\n";
  }
}
