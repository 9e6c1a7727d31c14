/** Whole runs of the namespace: whatever was added and removed, a dump and a rebuild give the tree back. */
module NamespaceRuns {
  import opened Bytes
  import opened Decimal
  import opened NamespaceSpec
  import opened NamespaceText
  import opened Namespace
  import opened NamespaceRecovery
  import opened Sequences
  import opened Splitting

  datatype Op =
    | Add(fname: string, dname: string, loc: string, dflag: int)
    | Remove(path: string)

  datatype State = State(d: Tree, nodeno: int)

  function Start(dsync: seq<int>): State {
    State([Root(dsync)], 1)
  }

  /** One operation; nothing when it dereferences null. */
  function Apply(s: State, op: Op): (t: Option<State>)
    requires s.d != []
    ensures t.Some? ==> t.value.d != []
  {
    match op
    case Add(fname, dname, loc, dflag) =>
      var e := Hung(s.d, loc, NewData(fname, dname, loc, dflag), s.nodeno);
      if e.None? then None else Some(State(e.value, s.nodeno + 1))
    case Remove(path) =>
      var r := Search(s.d, path);
      if r.Found? && 0 < r.at < |s.d| - 1 && !s.d[r.at].IsFolder() then Some(State(Without(s.d, r.at), s.nodeno))
      else None
  }

  /** Additions go to folders, do not reuse the name of the root, and have fields that fit in a line. */
  ghost predicate Sensible(s: State, op: Op)
    requires s.d != []
  {
    op.Add? ==>
      && (op.dflag == 0 || op.dflag == 1) && op.fname != HOME && GoodLoc(op.loc)
      && Writable(op.fname) && Writable(op.dname) && Writable(op.loc)
      && (var r := Search(s.d, op.loc); r.Found? ==> s.d[r.at].IsFolder())
  }

  /** The state after a run of sensible operations, none of which dereferenced null. */
  ghost predicate Reached(start: State, ops: seq<Op>, s: State)
    decreases |ops|
  {
    if ops == [] then s == start else exists before: State :: Step(start, ops, before, s)
  }

  ghost predicate Step(start: State, ops: seq<Op>, before: State, s: State)
    requires ops != []
    decreases |ops|, 0
  {
    && Reached(start, ops[..|ops| - 1], before) && before.d != []
    && Sensible(before, ops[|ops| - 1]) && Apply(before, ops[|ops| - 1]) == Some(s)
  }

  // ---------------------------------------------------------------- what every run keeps

  /** Numbers go up to one above the counter, since a process that finds a file starts to count at 0. */
  ghost predicate GoodRecord(x: Data, nodeno: int) {
    && PlainText(x) && 0 <= x.nno <= nodeno + 1 && 0 <= x.pno <= nodeno + 1 && (x.dflag == 0 || x.dflag == 1)
    && forall n | n in x.dsync :: Fits(n)
  }

  ghost predicate GoodRecords(s: State) {
    forall i | 0 <= i < |s.d| :: GoodRecord(s.d[i], s.nodeno)
  }

  ghost predicate Inv(s: State) {
    && WellNamed(s.d) && InFolders(s.d) && GoodRecords(s)
    && s.nodeno >= 0 && s.d[0].nno == 1 && s.d[0].pno == 0 && s.d[0].IsFolder()
  }

  lemma StartInv(dsync: seq<int>)
    requires |dsync| == REP && forall n | n in dsync :: Fits(n)
    ensures Inv(Start(dsync))
  {
    assert Writable("none") && Writable("Root") && Writable(HOME);
  }

  /** The fields that an addition brings fit in a line. */
  predicate Printable(op: Op) {
    op.Add? && Writable(op.fname) && Writable(op.dname) && Writable(op.loc) && (op.dflag == 0 || op.dflag == 1)
  }

  lemma NewIsGood(op: Op, nodeno: int, pno: int)
    requires Printable(op) && 0 <= pno <= nodeno + 1 && 0 <= nodeno
    ensures GoodRecord(NewData(op.fname, op.dname, op.loc, op.dflag).(pno := pno, nno := nodeno + 1), nodeno + 1)
  {
    assert Writable("none");
  }

  lemma AddKeepsRecords(s: State, op: Op)
    requires Inv(s) && Printable(op) && Apply(s, op).Some?
    ensures GoodRecords(Apply(s, op).value) && Apply(s, op).value.d[0] == s.d[0]
  {
    var t := Apply(s, op).value;
    var m := LastOf(s.d, Search(s.d, op.loc).at);
    assert GoodRecord(s.d[m], s.nodeno);
    NewIsGood(op, s.nodeno, s.d[m].nno);
    forall i | 0 <= i < |t.d| ensures GoodRecord(t.d[i], t.nodeno) {
      assert i <= m ==> GoodRecord(s.d[i], s.nodeno);
    }
  }

  lemma AddKeepsInv(s: State, op: Op)
    requires Inv(s) && op.Add? && Sensible(s, op) && Apply(s, op).Some?
    ensures Inv(Apply(s, op).value)
  {
    AddKeepsInFolders(s.d, NewData(op.fname, op.dname, op.loc, op.dflag), s.nodeno);
    AddKeepsRecords(s, op);
  }

  lemma RemoveKeepsInv(s: State, op: Op)
    requires Inv(s) && op.Remove? && Apply(s, op).Some?
    ensures Inv(Apply(s, op).value)
  {
    var k := Search(s.d, op.path).at;
    RemoveKeepsInFolders(s.d, k);
    var t := Apply(s, op).value;
    forall i | 0 <= i < |t.d| ensures GoodRecord(t.d[i], t.nodeno) {
      assert GoodRecord(s.d[if i < k then i else i + 1], s.nodeno);
    }
  }

  lemma {:induction false} RunKeepsInv(start: State, ops: seq<Op>, s: State)
    requires Inv(start) && Reached(start, ops, s)
    ensures Inv(s) && s.nodeno <= start.nodeno + |ops| && |s.d| <= |start.d| + |ops|
    decreases |ops|
  {
    if ops != [] {
      var before: State :| Step(start, ops, before, s);
      var op := ops[|ops| - 1];
      RunKeepsInv(start, ops[..|ops| - 1], before);
      if op.Add? {
        AddKeepsInv(before, op);
      } else {
        RemoveKeepsInv(before, op);
      }
    }
  }

  // ---------------------------------------------------------------- dump and restart

  const COUNTED := 999999998  // the highest counter whose numbers are printed in full

  lemma GoodFit(s: State)
    requires GoodRecords(s) && s.nodeno <= COUNTED
    ensures forall x | x in s.d :: PlainText(x) && NumbersFit(x)
  {
    forall x | x in s.d ensures PlainText(x) && NumbersFit(x) {
      var i :| 0 <= i < |s.d| && s.d[i] == x;
      assert GoodRecord(s.d[i], s.nodeno);
    }
  }

  lemma InvSurvives(s: State, nodeno: int)
    requires Inv(s) && s.nodeno <= COUNTED
    ensures Recovered(Text(s.d), nodeno) == Some(Renumbered(s.d, nodeno))
    ensures |Tokens(Text(s.d), IsSpace)| == |s.d| && forall x | x in s.d :: Shaped(x)
  {
    InFoldersReplayable(s.d);
    GoodFit(s);
    DumpRecovers(s.d, nodeno);
    TokensOfText(s.d);
  }

  /**
   * The text that `storelist` writes after any such run, read back by `recoverlist`, gives the same tree up
   * to numbering, whatever the node counter of the new process.
   */
  lemma RunSurvivesRestart(dsync: seq<int>, ops: seq<Op>, s: State, nodeno: int)
    requires |dsync| == REP && (forall n | n in dsync :: Fits(n)) && Reached(Start(dsync), ops, s)
    requires |ops| < COUNTED
    ensures Recovered(Text(s.d), nodeno) == Some(Renumbered(s.d, nodeno))
    ensures forall i | 0 <= i < |s.d| :: Alike(s.d[i], Renumbered(s.d, nodeno)[i])
  {
    StartInv(dsync);
    RunKeepsInv(Start(dsync), ops, s);
    InvSurvives(s, nodeno);
    RenumberedIs(s.d, nodeno);
  }

  /** After one more addition, at any location that resolves, exactly these locations let the dump be recovered. */
  lemma AnyAdditionSurvivesIff(s: State, op: Op, nodeno: int)
    requires Inv(s) && s.nodeno < COUNTED && Printable(op) && Apply(s, op).Some?
    ensures var t := Apply(s, op).value;
            Recovered(Text(t.d), nodeno)
            == if GoodLoc(op.loc) || |Steps(op.loc)| <= 3 then Some(Renumbered(t.d, nodeno)) else None
  {
    var t := Apply(s, op).value;
    InFoldersReplayable(s.d);
    WellNamedOneHome(s.d);
    AddKeepsRecords(s, op);
    GoodFit(t);
    AddRebuiltIff(s.d, NewData(op.fname, op.dname, op.loc, op.dflag), s.nodeno, nodeno);
    RecoveredIsRebuilt(t.d, nodeno);
  }

  // ---------------------------------------------------------------- one process after the other

  /** The state in which the next process begins. */
  function Reborn(s: State, nodeno: int): State {
    State(Renumbered(s.d, nodeno), nodeno + |s.d| - 1)
  }

  lemma RenumberedPlaced(d: Tree, nodeno: int, i: nat)
    requires 1 <= i < |d| && InFolderAt(d, i)
    ensures InFolderAt(Renumbered(d, nodeno), i)
  {
    var e := Renumbered(d, nodeno);
    assert SameTree(d[..i], e[..i]) && Alike(d[i], e[i]);
    SearchSame(d[..i], e[..i], d[i].loc);
    assert Alike(d[Search(d[..i], d[i].loc).at], e[Search(d[..i], d[i].loc).at]);
  }

  /** The rebuilt tree is as fit for a run as the one that was dumped. */
  lemma RebornInv(s: State, nodeno: int)
    requires Inv(s) && 0 <= nodeno
    ensures Inv(Reborn(s, nodeno))
  {
    var e := Reborn(s, nodeno);
    RenumberedIs(s.d, nodeno);
    forall i | 1 <= i < |e.d| ensures GoodAt(e.d, i) && InFolderAt(e.d, i) {
      assert GoodAt(s.d, i) && InFolderAt(s.d, i) && Alike(s.d[i], e.d[i]);
      RenumberedPlaced(s.d, nodeno, i);
    }
    forall i | 0 <= i < |e.d| ensures GoodRecord(e.d[i], e.nodeno) {
      assert GoodRecord(s.d[i], s.nodeno) && GoodRecord(s.d[0], s.nodeno);
    }
  }

  /** Processes one after the other: each but the first begins with the dump of the one before it. */
  ghost predicate Lived(dsync: seq<int>, lives: seq<seq<Op>>, s: State)
    decreases |lives|
  {
    if lives == [] then s == Start(dsync) else exists before: State :: LastLife(dsync, lives, before, s)
  }

  ghost predicate LastLife(dsync: seq<int>, lives: seq<seq<Op>>, before: State, s: State)
    requires lives != []
    decreases |lives|, 0
  {
    && Lived(dsync, lives[..|lives| - 1], before)
    && Reached(if |lives| == 1 then before else Reborn(before, 0), lives[|lives| - 1], s)
  }

  function Total(lives: seq<seq<Op>>): nat {
    if lives == [] then 0 else Total(lives[..|lives| - 1]) + |lives[|lives| - 1]|
  }

  lemma {:induction false} LivesKeepInv(dsync: seq<int>, lives: seq<seq<Op>>, s: State)
    requires |dsync| == REP && (forall n | n in dsync :: Fits(n)) && Lived(dsync, lives, s)
    ensures Inv(s) && s.nodeno <= 1 + Total(lives) && |s.d| <= 1 + Total(lives)
    decreases |lives|
  {
    if lives == [] {
      StartInv(dsync);
    } else {
      var before: State :| LastLife(dsync, lives, before, s);
      LivesKeepInv(dsync, lives[..|lives| - 1], before);
      if |lives| == 1 {
        RunKeepsInv(before, lives[0], s);
      } else {
        RebornInv(before, 0);
        RunKeepsInv(Reborn(before, 0), lives[|lives| - 1], s);
      }
    }
  }

  /** However many processes there have been, the dump of the last one is recovered. */
  lemma LivesSurviveRestart(dsync: seq<int>, lives: seq<seq<Op>>, s: State, nodeno: int)
    requires |dsync| == REP && (forall n | n in dsync :: Fits(n)) && Lived(dsync, lives, s)
    requires Total(lives) < COUNTED
    ensures Recovered(Text(s.d), nodeno) == Some(Renumbered(s.d, nodeno))
  {
    LivesKeepInv(dsync, lives, s);
    InvSurvives(s, nodeno);
  }

  /** Every node has a higher number than those before it. */
  ghost predicate Rises(d: Tree) {
    forall i, j | 0 <= i < j < |d| :: d[i].nno < d[j].nno
  }

  ghost predicate Numbered(s: State) {
    s.d != [] && Rises(s.d) && forall i | 0 <= i < |s.d| :: s.d[i].nno <= s.nodeno
  }

  /** So it is in the first process. */
  lemma {:induction false} RunKeepsNumbers(dsync: seq<int>, ops: seq<Op>, s: State)
    requires Reached(Start(dsync), ops, s)
    ensures Numbered(s)
    decreases |ops|
  {
    if ops != [] {
      var before: State :| Step(Start(dsync), ops, before, s);
      RunKeepsNumbers(dsync, ops[..|ops| - 1], before);
      var op := ops[|ops| - 1];
      if op.Add? {
        var x := NewData(op.fname, op.dname, op.loc, op.dflag);
        AddedNumbered(before, LastOf(before.d, Search(before.d, op.loc).at), x, s);
      } else {
        WithoutNumbered(before, Search(before.d, op.path).at, s);
      }
    }
  }

  lemma AddedNumbered(s: State, m: nat, x: Data, t: State)
    requires Numbered(s) && m < |s.d| && t == State(Added(s.d, m, x, s.nodeno), s.nodeno + 1)
    ensures Numbered(t)
  {
    assert forall i | 0 <= i <= m :: t.d[i] == s.d[i];
  }

  lemma WithoutNumbered(s: State, k: nat, t: State)
    requires Numbered(s) && 0 < k < |s.d| && t == State(Without(s.d, k), s.nodeno)
    ensures Numbered(t)
  {
  }

  /** After a restart it is so exactly when the counter starts no lower than the number of the root; it starts at 0. */
  lemma RebornNumberedIff(d: Tree, nodeno: int)
    ensures |d| > 1 ==> Renumbered(d, nodeno)[0].nno == d[0].nno && Renumbered(d, nodeno)[1].nno == nodeno + 1
    ensures Rises(Renumbered(d, nodeno)) <==> |d| <= 1 || d[0].nno <= nodeno
  {
    var e := Renumbered(d, nodeno);
    if |d| > 1 {
      assert e[0].nno == d[0].nno && e[1].nno == nodeno + 1;
    }
  }

  // ---------------------------------------------------------------- on the linked nodes

  ghost function StateOf(space: Space): State
    reads space, space.nodes
  {
    State(space.Contents(), space.nodeno)
  }

  /** `ninitialize`: the root alone; `dsync` is what its memory held before. */
  method Initialize(dsync: seq<int>) returns (space: Space)
    ensures space.Valid() && fresh(space) && fresh(space.repr) && StateOf(space) == Start(dsync)
    ensures space.Contents() == [Data(1, 0, "home", ["Root", "none", "none", "none", "none"], "Root", 1, dsync)]
    ensures space.nodeno == 1
  {
    space := new Space(Root(dsync), 1);
  }

  /** One operation on the linked nodes; `ok` is false when it dereferences null. */
  method Perform(space: Space, op: Op) returns (ok: bool)
    requires space.Valid()
    modifies space, space.repr
    ensures fresh(space.repr - old(space.repr))
    ensures var t := Apply(old(StateOf(space)), op);
            ok == t.Some? && (ok ==> space.Valid() && StateOf(space) == t.value)
    ensures var d, e := old(space.Contents()), space.Contents();
            match op
            case Add(fname, dname, loc, dflag) =>
              && ok == Search(d, loc).Found?
              && (ok ==> exists n: nat ::
                    && GrownAt(d, e, n) && LastUnder(d, Search(d, loc).at, n)
                    && e[n + 1] == Data(old(space.nodeno) + 1, d[n].nno, fname,
                                        [dname, "none", "none", "none", "none"], loc, dflag, [1, 0, 0, 0, 0]))
            case Remove(path) =>
              && ok == (exists k: nat :: Search(d, path) == Found(k) && 0 < k < |d| - 1 && d[k].dflag != 1)
              && (ok ==> var k := Search(d, path).at; e == d[..k] + d[k + 1..])
  {
    match op
    case Add(fname, dname, loc, dflag) => ok := space.AddEntry(fname, dname, loc, dflag);
    case Remove(path) => ok := space.RemoveFile(path);
  }

  /** A run is one operation after a run. */
  lemma Goes(start: State, ops: seq<Op>, before: State, op: Op, s: State)
    requires Reached(start, ops, before) && before.d != [] && Sensible(before, op) && Apply(before, op) == Some(s)
    ensures Reached(start, ops + [op], s)
  {
    assert (ops + [op])[..|ops|] == ops;
    assert Step(start, ops + [op], before, s);
  }

  /** An operation in the life of a process. */
  method Continue(space: Space, op: Op, ghost start: State, ghost ops: seq<Op>) returns (ok: bool)
    requires space.Valid() && Reached(start, ops, StateOf(space)) && Sensible(StateOf(space), op)
    modifies space, space.repr
    ensures fresh(space.repr - old(space.repr))
    ensures ok ==> space.Valid() && Reached(start, ops + [op], StateOf(space))
  {
    ghost var before := StateOf(space);
    ok := Perform(space, op);
    if ok {
      Goes(start, ops, before, op, StateOf(space));
    }
  }

  /** The dump of such a process into a fresh file, and the start of the next one, which is fit for the same. */
  method Restart(space: Space, file: File, nodeno: int) returns (next: Space?)
    requires space.Valid() && Inv(StateOf(space)) && space.nodeno <= COUNTED && file.text == ""
    modifies file
    ensures next != null && next.Valid() && StateOf(next) == Reborn(old(StateOf(space)), nodeno)
    ensures 0 <= nodeno ==> Inv(StateOf(next))
  {
    ghost var s := StateOf(space);
    InvSurvives(s, nodeno);
    Dump(space, file);
    next := StartFrom(file.text, nodeno, s);
  }

  method StartFrom(text: string, nodeno: int, ghost s: State) returns (next: Space?)
    requires Inv(s) && Recovered(text, nodeno) == Some(Renumbered(s.d, nodeno)) && |Tokens(text, IsSpace)| == |s.d|
    ensures next != null && next.Valid() && StateOf(next) == Reborn(s, nodeno)
    ensures 0 <= nodeno ==> Inv(StateOf(next))
  {
    next := RecoverList(text, nodeno);
    if 0 <= nodeno {
      RebornInv(s, nodeno);
    }
  }

  /** The dump into a file that holds nothing yet. */
  method Dump(space: Space, file: File)
    requires space.Valid() && file.text == "" && forall x | x in space.Contents() :: Shaped(x)
    modifies file
    ensures file.text == Text(space.Contents())
  {
    space.StoreList(file);
    assert "" + Text(space.Contents()) == Text(space.Contents());
  }

  // ---------------------------------------------------------------- a file that is not fresh

  /** Records hung one after the other on a tree that is there. */
  function Onto(hang: Hanger, d: Tree, records: Tree, n: nat, nodeno: int): Option<Tree>
    requires n <= |records|
  {
    if n == 0 then Some(d) else
    var e := Onto(hang, d, records, n - 1, nodeno);
    if e.None? then None else hang(e.value, records[n - 1], nodeno + n - 1)
  }

  lemma {:induction false} ReplayJoins(hang: Hanger, d: Tree, e: Tree, n: nat, nodeno: int, built: Tree)
    requires d != [] && n <= |e| && Replay(hang, d, |d|, nodeno) == Some(built)
    ensures Replay(hang, d + e, |d| + n, nodeno) == Onto(hang, built, e, n, nodeno + |d| - 1)
  {
    if n == 0 {
      ReplayPrefix(hang, d, d + e, |d|, nodeno);
    } else {
      ReplayJoins(hang, d, e, n - 1, nodeno, built);
    }
  }

  lemma TextJoins(d: Tree, e: Tree)
    ensures Text(d) + Text(e) == Text(d + e)
  {
    MappedJoins(Line, d, e);
    TerminatedJoins(Lines(d), Lines(e), '\n');
  }

  /**
   * `storelist` appends. What comes back from two dumps in one file, of whatever two trees, are the records
   * of the second, its root included, hung one after the other on the first tree.
   */
  lemma TwoDumpsRecovered(d: Tree, e: Tree, nodeno: int)
    requires Replayable(d) && forall x | x in d + e :: PlainText(x) && NumbersFit(x)
    ensures Recovered(Text(d) + Text(e), nodeno)
         == Onto(HungAt, Renumbered(d, nodeno), e, |e|, nodeno + |d| - 1)
  {
    TextJoins(d, e);
    RecoveredIsRebuilt(d + e, nodeno);
    JoinedRebuilt(d, e, nodeno);
  }

  lemma JoinedRebuilt(d: Tree, e: Tree, nodeno: int)
    requires Replayable(d)
    ensures Rebuilt(d + e, nodeno) == Onto(HungAt, Renumbered(d, nodeno), e, |e|, nodeno + |d| - 1)
  {
    RebuildsTo(d, |d|, nodeno);
    RebuiltIs(d + e, nodeno);
    AllJoins(HungAt, d, e, nodeno, Renumbered(d, nodeno));
  }

  lemma RebuiltIs(records: Tree, nodeno: int)
    requires records != []
    ensures Rebuilt(records, nodeno) == Replay(HungAt, records, |records|, nodeno)
  {
  }

  lemma AllJoins(hang: Hanger, d: Tree, e: Tree, nodeno: int, built: Tree)
    requires d != [] && Replay(hang, d, |d|, nodeno) == Some(built)
    ensures Replay(hang, d + e, |d + e|, nodeno) == Onto(hang, built, e, |e|, nodeno + |d| - 1)
  {
    ReplayJoins(hang, d, e, |e|, nodeno, built);
  }

  /** The root of the second dump fails to be added exactly when its location leads nowhere in the first tree. */
  lemma SecondHeadFailsIff(d: Tree, e: Tree, nodeno: int, no: int)
    requires d != [] && e != []
    ensures Onto(HungAt, Renumbered(d, nodeno), e, 1, no).None? <==> !Search(d, e[0].loc).Found?
  {
    RenumberedIs(d, nodeno);
    SearchSame(d, Renumbered(d, nodeno), e[0].loc);
    assert Onto(HungAt, Renumbered(d, nodeno), e, 0, no) == Some(Renumbered(d, nodeno));
  }

  /** Then the recovery ends on a null pointer. */
  lemma SecondDumpIsFatal(d: Tree, e: Tree, nodeno: int)
    requires Replayable(d) && e != [] && forall x | x in d + e :: PlainText(x) && NumbersFit(x)
    requires !Search(d, e[0].loc).Found?
    ensures Recovered(Text(d) + Text(e), nodeno) == None
  {
    TextJoins(d, e);
    RecoveredIsRebuilt(d + e, nodeno);
    JoinedStops(d, e, nodeno);
  }

  lemma JoinedStops(d: Tree, e: Tree, nodeno: int)
    requires Replayable(d) && e != [] && !Search(d, e[0].loc).Found?
    ensures Rebuilt(d + e, nodeno) == None
  {
    RebuildsTo(d, |d|, nodeno);
    RenumberedIs(d, nodeno);
    SearchSame(d, Renumbered(d, nodeno), e[0].loc);
    ReplayStops(HungAt, d, e, nodeno, Renumbered(d, nodeno));
  }

  lemma ReplayStops(hang: Hanger, d: Tree, e: Tree, nodeno: int, built: Tree)
    requires d != [] && e != [] && Replay(hang, d, |d|, nodeno) == Some(built)
    requires hang(built, e[0], nodeno + |d| - 1) == None
    ensures Replay(hang, d + e, |d + e|, nodeno) == None
  {
    ReplayPrefix(hang, d, d + e, |d|, nodeno);
    ReplayNext(hang, d + e, |d|, nodeno, built);
    ReplayFails(hang, d + e, |d| + 1, |d + e|, nodeno);
  }

  /** A root, a folder in it that is called as the location of the root is, and one more node added to the root. */
  ghost predicate FolderCalledLikeRoot(d: Tree) {
    && |d| == 3 && d[0].fname == HOME && d[0].IsFolder() && d[1].IsFolder() && d[1].fname == d[0].loc
    && '/' !in d[0].loc && d[0].loc != HOME && d[1].loc == HOME && d[2].loc == HOME
  }

  /** A record for the root is hung behind the first folder of the root, and what was there is gone. */
  lemma HungAtHome(e: Tree, x: Data, no: int)
    requires |e| >= 2 && e[0].IsFolder() && e[1].IsFolder() && x.loc == HOME
    ensures HungAt(e, x, no) == Some(e[..2] + [x.(pno := e[1].nno, nno := no + 1)])
  {
    assert LastSibling(e, 1) == 1;
  }

  /** A record for the second node is hung at the end. */
  lemma HungInSecond(e: Tree, x: Data, no: int)
    requires |e| == 3 && e[0].fname == HOME && e[0].IsFolder() && e[1].IsFolder() && e[1].fname == x.loc
    requires '/' !in x.loc && x.loc != HOME
    ensures HungAt(e, x, no) == Some(e + [x.(pno := e[2].nno, nno := no + 1)])
  {
    NoSlash(x.loc);
    SearchNotHome(e, x.loc);
    assert LastStep(e, 0, x.loc) == Found(1);
    assert LastOf(e, 1) == LastSibling(e, 2) == 2;
    assert e[..3] == e;
  }

  lemma TwoInHome(d: Tree)
    requires FolderCalledLikeRoot(d)
    ensures Replayable(d)
  {
    assert Search(d[..1], HOME) == Search(d[..2], HOME) == Found(0) && LastOf(d[..2], 0) == 1;
    assert PlacedAt(d, 1) && PlacedAt(d, 2);
  }

  lemma TwiceInFolder(d: Tree, e: Tree, no: int)
    requires FolderCalledLikeRoot(d) && SameTree(d, e)
    ensures Onto(HungAt, e, d, 3, no).Some? && SameTree(d, Onto(HungAt, e, d, 3, no).value)
  {
    assert Alike(d[0], e[0]) && Alike(d[1], e[1]);
    assert Onto(HungAt, e, d, 0, no) == Some(e);
    HungInSecond(e, d[0], no);
    var four := Onto(HungAt, e, d, 1, no).value;
    assert four[0] == e[0] && four[1] == e[1];
    HungAtHome(four, d[1], no + 1);
    var five := Onto(HungAt, e, d, 2, no).value;
    assert five[0] == e[0] && five[1] == e[1];
    HungAtHome(five, d[2], no + 2);
  }

  /** But it may also give the tree back. */
  lemma SecondDumpMayRecover(d: Tree, nodeno: int)
    requires FolderCalledLikeRoot(d) && forall x | x in d :: PlainText(x) && NumbersFit(x)
    ensures Replayable(d)
    ensures var r := Recovered(Text(d) + Text(d), nodeno);
            r.Some? && SameTree(d, r.value)
  {
    TwoInHome(d);
    RenumberedIs(d, nodeno);
    TwoDumpsRecovered(d, d, nodeno);
    TwiceInFolder(d, Renumbered(d, nodeno), nodeno + 2);
  }

  /** There is such a tree: a folder `Root` in the root, with a file in it. */
  lemma FolderCalledRoot()
    ensures var d := [Root([1, 0, 0, 0, 0]), NewData("Root", "node", HOME, 1), NewData("file", "node", HOME, 0)];
            FolderCalledLikeRoot(d) && forall x | x in d :: PlainText(x) && NumbersFit(x)
  {
    assert Writable("none") && Writable("node") && Writable("Root") && Writable("file") && Writable(HOME);
    NewIsPlain("Root", "node", HOME, 1);
    NewIsPlain("file", "node", HOME, 0);
    assert PlainText(Root([1, 0, 0, 0, 0])) && NumbersFit(Root([1, 0, 0, 0, 0]));
  }

  lemma NewIsPlain(fname: string, dname: string, loc: string, dflag: int)
    requires Writable(fname) && Writable(dname) && Writable(loc) && Writable("none") && Fits(dflag)
    ensures PlainText(NewData(fname, dname, loc, dflag)) && NumbersFit(NewData(fname, dname, loc, dflag))
  {
  }
}
