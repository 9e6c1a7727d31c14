/** The name node: which data node a path is routed to, and what is recorded about it. */
module NameNode {
  import opened Bytes

  const DATANODE_DIR: string := "/tmp/CS545/datanode"
  const RECORDS := 50

  datatype DataNode = DataNode(node: string, ip: string, alive: int)

  /** `rep` is 0 for a free record, 1 for a synchronised replica, and more for one that is not. */
  datatype FileEntry = FileEntry(name: string, kinds: seq<int>, inodes: seq<int>, replica: seq<string>, rep: seq<int>)

  datatype State = State(nodes: seq<DataNode>, files: seq<FileEntry>, probes: nat)

  /** The answer of `check_nodealive` for a node, by the number of the probe. */
  type Oracle = (string, nat) -> bool

  // ---------------------------------------------------------------- lookups

  function Stripped(name: string): string {
    if name != "" && name[|name| - 1] == '/' then name[..|name| - 1] else name
  }

  predicate Matches(e: FileEntry, name: string) {
    e.name == name || e.name == Stripped(name)
  }

  function FindFile(files: seq<FileEntry>, name: string, i: nat): (k: nat)
    requires i <= |files|
    ensures i <= k <= |files| && (k < |files| ==> Matches(files[k], name))
    ensures forall j | i <= j < k :: !Matches(files[j], name)
    decreases |files| - i
  {
    if i == |files| || Matches(files[i], name) then i else FindFile(files, name, i + 1)
  }

  function FindNode(nodes: seq<DataNode>, name: string, i: nat): (k: nat)
    requires i <= |nodes|
    ensures i <= k <= |nodes| && (k < |nodes| ==> nodes[k].node == name)
    ensures forall j | i <= j < k :: nodes[j].node != name
    decreases |nodes| - i
  {
    if i == |nodes| || nodes[i].node == name then i else FindNode(nodes, name, i + 1)
  }

  /** The first free record from `i` on, or the length. */
  function FreeRecord(rep: seq<int>, i: nat): (k: nat)
    requires i <= |rep|
    ensures i <= k <= |rep| && (k < |rep| ==> rep[k] == 0) && forall j | i <= j < k :: rep[j] != 0
    decreases |rep| - i
  {
    if i == |rep| || rep[i] == 0 then i else FreeRecord(rep, i + 1)
  }

  /** An index, and how many probes have been made so far. */
  datatype Probed = Probed(at: nat, probes: nat)

  /** Whether a record is tried by `getRepfetchnum`, or else by `getRepfetchnum1`. */
  predicate Tried(rep: int, synced: bool) { if synced then rep == 1 else rep > 1 }

  /** The first record whose data node answers, or the length. */
  function LiveRecord(live: Oracle, e: FileEntry, synced: bool, i: nat, probes: nat): (p: Probed)
    requires |e.rep| == |e.replica| && i <= |e.rep|
    ensures i <= p.at <= |e.rep| && (p.at < |e.rep| ==> Tried(e.rep[p.at], synced))
    decreases |e.rep| - i
  {
    if i == |e.rep| then Probed(i, probes)
    else if !Tried(e.rep[i], synced) then LiveRecord(live, e, synced, i + 1, probes)
    else if live(e.replica[i], probes) then Probed(i, probes + 1)
    else LiveRecord(live, e, synced, i + 1, probes + 1)
  }

  datatype Fetched = Fetched(nodes: seq<DataNode>, at: nat, probes: nat)

  /** The first node that answers; those before it that do not are marked dead. */
  function LiveNode(live: Oracle, nodes: seq<DataNode>, i: nat, probes: nat): (f: Fetched)
    requires i <= |nodes|
    ensures |f.nodes| == |nodes| && i <= f.at <= |nodes|
    ensures forall j | 0 <= j < |nodes| :: f.nodes[j] == nodes[j] || f.nodes[j] == nodes[j].(alive := 0)
    decreases |nodes| - i
  {
    if i == |nodes| then Fetched(nodes, i, probes)
    else if nodes[i].alive == 0 then LiveNode(live, nodes, i + 1, probes)
    else if live(nodes[i].node, probes) then Fetched(nodes, i, probes + 1)
    else LiveNode(live, nodes[i := nodes[i].(alive := 0)], i + 1, probes + 1)
  }

  datatype Routed = Routed(s: State, dn: Option<string>)

  ghost predicate Shaped(e: FileEntry) {
    && |e.rep| == |e.replica| == |e.kinds| == |e.inodes| == RECORDS
    && forall i | 0 <= i < RECORDS :: e.rep[i] == 0 || e.rep[i] == 1
  }

  ghost predicate AllShaped(s: State) {
    forall j | 0 <= j < |s.files| :: Shaped(s.files[j])
  }

  /** `getfiledn`. */
  function Route(live: Oracle, s: State, path: string): Routed
    requires AllShaped(s)
  {
    var j := FindFile(s.files, path, 0);
    if j == |s.files| then
      var f := LiveNode(live, s.nodes, 0, s.probes);
      Routed(State(f.nodes, s.files, f.probes), if f.at < |f.nodes| then Some(f.nodes[f.at].node) else None)
    else
      var e := s.files[j];
      var p := LiveRecord(live, e, true, 0, s.probes);
      if p.at < RECORDS then Routed(s.(probes := p.probes), Some(e.replica[p.at]))
      else
        var q := LiveRecord(live, e, false, 0, p.probes);
        Routed(s.(probes := q.probes), if q.at < RECORDS then Some(e.replica[q.at]) else None)
  }

  // ---------------------------------------------------------------- who is asked, and who answers

  /** The node was asked in one of the probes from `start` up to `end`, and did not answer it. */
  ghost predicate Silent(live: Oracle, name: string, start: nat, end: nat) {
    exists q: nat :: start <= q < end && !live(name, q)
  }

  /**
   * Node `k` is the first from `i` on that was marked alive and answered, in the last probe made; those before
   * it were marked dead already, or did not answer and are marked dead now.
   */
  ghost predicate NodeFound(live: Oracle, before: seq<DataNode>, i: nat, start: nat, after: seq<DataNode>, k: nat, end: nat) {
    && i <= k <= |before| == |after| && start <= end
    && (forall j | i <= j < k ::
          && after[j] == DataNode(before[j].node, before[j].ip, 0)
          && (before[j].alive == 0 || Silent(live, before[j].node, start, end)))
    && (forall j | 0 <= j < i || k <= j < |before| :: after[j] == before[j])
    && (k < |before| ==> before[k].alive != 0 && start < end && live(before[k].node, end - 1))
  }

  lemma {:induction false} LiveNodeFound(live: Oracle, nodes: seq<DataNode>, i: nat, probes: nat)
    requires i <= |nodes|
    ensures var f := LiveNode(live, nodes, i, probes);
            NodeFound(live, nodes, i, probes, f.nodes, f.at, f.probes)
    decreases |nodes| - i
  {
    if i < |nodes| {
      var f := LiveNode(live, nodes, i, probes);
      if nodes[i].alive == 0 {
        LiveNodeFound(live, nodes, i + 1, probes);
        FoundBehindDead(live, nodes, i, probes, f.nodes, f.at, f.probes);
      } else if !live(nodes[i].node, probes) {
        var marked := nodes[i := nodes[i].(alive := 0)];
        LiveNodeFound(live, marked, i + 1, probes + 1);
        FoundBehind(live, nodes, marked, i, probes, f.nodes, f.at, f.probes);
      }
    }
  }

  lemma {:induction false} FoundBehindDead(live: Oracle, nodes: seq<DataNode>, i: nat, probes: nat,
                                          after: seq<DataNode>, k: nat, end: nat)
    requires i < |nodes| && nodes[i].alive == 0 && NodeFound(live, nodes, i + 1, probes, after, k, end)
    ensures NodeFound(live, nodes, i, probes, after, k, end)
  {
    assert after[i] == DataNode(nodes[i].node, nodes[i].ip, 0);
  }

  lemma {:induction false} FoundBehind(live: Oracle, nodes: seq<DataNode>, marked: seq<DataNode>, i: nat, probes: nat,
                                      after: seq<DataNode>, k: nat, end: nat)
    requires i < |nodes| && marked == nodes[i := nodes[i].(alive := 0)] && !live(nodes[i].node, probes)
    requires NodeFound(live, marked, i + 1, probes + 1, after, k, end)
    ensures NodeFound(live, nodes, i, probes, after, k, end)
  {
    forall j | i <= j < k
      ensures after[j] == DataNode(nodes[j].node, nodes[j].ip, 0)
      ensures nodes[j].alive == 0 || Silent(live, nodes[j].node, probes, end)
    {
      if j > i {
        assert marked[j] == nodes[j];
      }
    }
  }

  /** A record that is in use: synchronised, or not. */
  ghost predicate InUse(rep: int, synced: bool) { if synced then rep == 1 else 1 < rep }

  /** Record `k` is the first in use whose data node answered, in the last probe made. */
  ghost predicate RecordFound(live: Oracle, e: FileEntry, synced: bool, i: nat, start: nat, k: nat, end: nat) {
    && i <= k <= |e.rep| == |e.replica| && start <= end
    && (forall j | i <= j < k && InUse(e.rep[j], synced) :: Silent(live, e.replica[j], start, end))
    && (k < |e.rep| ==> InUse(e.rep[k], synced) && start < end && live(e.replica[k], end - 1))
  }

  lemma {:induction false} LiveRecordFound(live: Oracle, e: FileEntry, synced: bool, i: nat, probes: nat)
    requires |e.rep| == |e.replica| && i <= |e.rep|
    ensures var p := LiveRecord(live, e, synced, i, probes);
            RecordFound(live, e, synced, i, probes, p.at, p.probes)
    decreases |e.rep| - i
  {
    if i < |e.rep| {
      if !Tried(e.rep[i], synced) {
        LiveRecordFound(live, e, synced, i + 1, probes);
      } else if !live(e.replica[i], probes) {
        LiveRecordFound(live, e, synced, i + 1, probes + 1);
      }
    }
  }

  /** The entry is for the path, or for the path without the slash that it ends in. */
  ghost predicate Named(e: FileEntry, path: string) {
    e.name == path || e.name + "/" == path
  }

  ghost predicate FirstNamed(files: seq<FileEntry>, path: string, j: nat) {
    j < |files| && Named(files[j], path) && forall i | 0 <= i < j :: !Named(files[i], path)
  }

  lemma MatchesNamed(e: FileEntry, path: string)
    ensures Matches(e, path) <==> Named(e, path)
  {
    if path != "" && path[|path| - 1] == '/' {
      assert path == path[..|path| - 1] + "/";
    }
    if e.name + "/" == path {
      assert path[..|path| - 1] == e.name && path[|path| - 1] == '/';
    }
  }

  lemma FindFileIs(files: seq<FileEntry>, path: string)
    ensures var j := FindFile(files, path, 0);
            if j < |files| then FirstNamed(files, path, j) else forall e | e in files :: !Named(e, path)
  {
    forall i | 0 <= i < |files| ensures Matches(files[i], path) <==> Named(files[i], path) {
      MatchesNamed(files[i], path);
    }
  }

  /**
   * A path without an entry goes to the first data node that answers; one with an entry goes to the first of its
   * synchronised replicas whose node answers, or else to the first such replica that is not synchronised.
   */
  ghost predicate RoutedTo(live: Oracle, s: State, path: string, t: State, dn: Option<string>) {
    && t.files == s.files
    && ((forall e | e in s.files :: !Named(e, path)) ==>
          exists k: nat :: NodeFound(live, s.nodes, 0, s.probes, t.nodes, k, t.probes) &&
                           dn == if k < |s.nodes| then Some(s.nodes[k].node) else None)
    && (forall j: nat | FirstNamed(s.files, path, j) ::
          t.nodes == s.nodes && ReplicaFound(live, s.files[j], s.probes, dn, t.probes))
  }

  ghost predicate ReplicaFound(live: Oracle, e: FileEntry, start: nat, dn: Option<string>, end: nat) {
    || (exists k: nat :: k < |e.rep| && RecordFound(live, e, true, 0, start, k, end) && dn == Some(e.replica[k]))
    || (exists k: nat, mid: nat ::
          && RecordFound(live, e, true, 0, start, |e.rep|, mid) && RecordFound(live, e, false, 0, mid, k, end)
          && dn == if k < |e.rep| then Some(e.replica[k]) else None)
  }

  lemma RouteIs(live: Oracle, s: State, path: string)
    requires AllShaped(s)
    ensures var r := Route(live, s, path);
            RoutedTo(live, s, path, r.s, r.dn)
  {
    FindFileIs(s.files, path);
    var j := FindFile(s.files, path, 0);
    if j == |s.files| {
      LiveNodeFound(live, s.nodes, 0, s.probes);
    } else {
      assert Named(s.files[j], path) && s.files[j] in s.files;
      ReplicaIs(live, s, path, j);
      assert forall i: nat | FirstNamed(s.files, path, i) :: i == j;
    }
  }

  lemma ReplicaIs(live: Oracle, s: State, path: string, j: nat)
    requires AllShaped(s) && j == FindFile(s.files, path, 0) < |s.files|
    ensures var r := Route(live, s, path);
            r.s.nodes == s.nodes && ReplicaFound(live, s.files[j], s.probes, r.dn, r.s.probes)
  {
    var e := s.files[j];
    var p := LiveRecord(live, e, true, 0, s.probes);
    LiveRecordFound(live, e, true, 0, s.probes);
    LiveRecordFound(live, e, false, 0, p.probes);
  }

  /** So a node that is returned answered the last probe made. */
  lemma RoutedAnswers(live: Oracle, s: State, path: string)
    requires AllShaped(s)
    ensures Answering(live, s.probes, Route(live, s, path).dn, Route(live, s, path).s.probes)
  {
    var j := FindFile(s.files, path, 0);
    if j == |s.files| {
      LiveNodeFound(live, s.nodes, 0, s.probes);
    } else {
      var e := s.files[j];
      LiveRecordFound(live, e, true, 0, s.probes);
      LiveRecordFound(live, e, false, 0, LiveRecord(live, e, true, 0, s.probes).probes);
    }
  }

  ghost predicate Answering(live: Oracle, start: nat, dn: Option<string>, end: nat) {
    dn.Some? ==> start < end && live(dn.value, end - 1)
  }

  // ---------------------------------------------------------------- changes

  function NewEntry(name: string, kind: int, inode: int, dn: string): (e: FileEntry)
    ensures Shaped(e) && e.rep[0] == 1 && e.replica[0] == dn && forall i | 1 <= i < RECORDS :: e.rep[i] == 0
  {
    FileEntry(name, seq(RECORDS, i => kind), seq(RECORDS, i => inode), seq(RECORDS, i => dn),
              seq(RECORDS, i => if i == 0 then 1 else 0))
  }

  function WithRecord(e: FileEntry, i: nat, kind: int, inode: int, dn: string): (f: FileEntry)
    requires Shaped(e) && i < RECORDS
    ensures Shaped(f) && f.name == e.name
  {
    FileEntry(e.name, e.kinds[i := kind], e.inodes[i := inode], e.replica[i := dn], e.rep[i := 1])
  }

  /** `filenode_insert`; nothing when all records of the entry are taken, where it writes out of bounds. */
  function WithFile(files: seq<FileEntry>, name: string, kind: int, inode: int, dn: string): Option<seq<FileEntry>>
    requires forall j | 0 <= j < |files| :: Shaped(files[j])
  {
    var j := FindFile(files, name, 0);
    if j == |files| then Some(files + [NewEntry(name, kind, inode, dn)])
    else
      var i := FreeRecord(files[j].rep, 0);
      if i == RECORDS then None else Some(files[j := WithRecord(files[j], i, kind, inode, dn)])
  }

  function WithNode(nodes: seq<DataNode>, name: string, ip: string, alive: int): seq<DataNode> {
    var j := FindNode(nodes, name, 0);
    if j == |nodes| then nodes + [DataNode(name, ip, alive)] else nodes[j := nodes[j].(alive := 1)]
  }

  // ---------------------------------------------------------------- commands

  datatype Kind =
    | GetAttr | Access | ReadDir | Open | Read | Write | MkDir | MkNod | Truncate | Unlink | RmDir | ChMod | Rename

  predicate Recorded(k: Kind) { k.Open? || k.Write? || k.MkDir? || k.MkNod? }

  /** A message to the name node; a registration has no address when the host name does not resolve. */
  datatype Command = Register(host: string, ip: Option<string>) | Request(kind: Kind, path: string) | Other

  /** What the name node does: it forwards to a data node, answers itself, registers, or ignores. */
  datatype Action = Forwarded(dn: string) | Answered | NotSent | Registered | Ignored

  /** The loop goes on, ends, or has written out of bounds. */
  datatype Outcome = Next(s: State, action: Action) | Stop(s: State) | Overrun

  /** One turn of `receivecommand_namenode`; `sent` is whether `sendcommand` succeeds. */
  function Turn(live: Oracle, s: State, c: Command, sent: bool): Outcome
    requires AllShaped(s)
  {
    match c
    case Register(host, ip) =>
      if ip.None? then Stop(s)
      else
        var files := WithFile(s.files, DATANODE_DIR, 0, 0, host);
        if files.None? then Overrun
        else Next(State(WithNode(s.nodes, host, ip.value, 1), files.value, s.probes), Registered)
    case Request(kind, path) =>
      var r := Route(live, s, path);
      if r.dn.None? then Next(r.s, Answered)
      else if !sent then if kind.GetAttr? then Stop(r.s) else Next(r.s, NotSent)
      else if !Recorded(kind) then Next(r.s, Forwarded(r.dn.value))
      else
        var files := WithFile(r.s.files, path, 0, 0, r.dn.value);
        if files.None? then Overrun else Next(r.s.(files := files.value), Forwarded(r.dn.value))
    case Other => Next(s, Ignored)
  }

  // ---------------------------------------------------------------- what a turn does

  /** A new entry: its first record is in use, for the data node. */
  ghost predicate IsNew(e: FileEntry, name: string, kind: int, inode: int, dn: string) {
    && e.name == name && |e.rep| == |e.replica| == |e.kinds| == |e.inodes| == 50
    && forall i | 0 <= i < 50 ::
         e.kinds[i] == kind && e.inodes[i] == inode && e.replica[i] == dn && e.rep[i] == if i == 0 then 1 else 0
  }

  /** The first free record of the entry, `i`, is in use for the data node. */
  ghost predicate TakesFree(e: FileEntry, f: FileEntry, i: nat, kind: int, inode: int, dn: string) {
    && i < |e.rep| == |e.replica| == |e.kinds| == |e.inodes|
    && e.rep[i] == 0 && (forall j | 0 <= j < i :: e.rep[j] != 0)
    && f == FileEntry(e.name, e.kinds[i := kind], e.inodes[i := inode], e.replica[i := dn], e.rep[i := 1])
  }

  /** The name is recorded on `dn`: in its entry, or in a new one. */
  ghost predicate GetsRecord(before: seq<FileEntry>, after: seq<FileEntry>, name: string, kind: int, inode: int, dn: string) {
    && ((forall e | e in before :: !Named(e, name)) ==>
          |after| == |before| + 1 && after[..|before|] == before && IsNew(after[|before|], name, kind, inode, dn))
    && (forall j: nat | FirstNamed(before, name, j) ::
          && |after| == |before| && (forall i | 0 <= i < |before| && i != j :: after[i] == before[i])
          && exists i: nat :: TakesFree(before[j], after[j], i, kind, inode, dn))
  }

  /** All records of the entry of the name are in use. */
  ghost predicate IsFull(files: seq<FileEntry>, name: string) {
    exists j: nat :: FirstNamed(files, name, j) && forall i | 0 <= i < |files[j].rep| :: files[j].rep[i] != 0
  }

  lemma WithFileIs(files: seq<FileEntry>, name: string, kind: int, inode: int, dn: string)
    requires forall j | 0 <= j < |files| :: Shaped(files[j])
    ensures var more := WithFile(files, name, kind, inode, dn);
            && (more.None? <==> IsFull(files, name))
            && (more.Some? ==> GetsRecord(files, more.value, name, kind, inode, dn))
  {
    FindFileIs(files, name);
    var j, more := FindFile(files, name, 0), WithFile(files, name, kind, inode, dn);
    if j < |files| {
      assert files[j] in files && forall i: nat | FirstNamed(files, name, i) :: i == j;
      if more.Some? {
        var i := FreeRecord(files[j].rep, 0);
        assert TakesFree(files[j], more.value[j], i, kind, inode, dn);
      }
    } else {
      assert forall i: nat | i < |files| :: files[i] in files;
    }
  }

  /** The data node is marked alive, or is new at the end. */
  ghost predicate GetsNode(before: seq<DataNode>, after: seq<DataNode>, name: string, ip: string, alive: int) {
    && ((forall n | n in before :: n.node != name) ==> after == before + [DataNode(name, ip, alive)])
    && (forall k: nat | k < |before| && before[k].node == name && (forall j | 0 <= j < k :: before[j].node != name) ::
          after == before[k := DataNode(name, before[k].ip, 1)])
  }

  lemma WithNodeIs(nodes: seq<DataNode>, name: string, ip: string, alive: int)
    ensures GetsNode(nodes, WithNode(nodes, name, ip, alive), name, ip, alive)
  {
    var k := FindNode(nodes, name, 0);
    if k < |nodes| {
      assert nodes[k] in nodes;
    }
  }

  /** What a request leads to, once it is routed to `dn`; only these kinds are recorded. */
  ghost predicate RequestDone(r: State, dn: Option<string>, kind: Kind, path: string, sent: bool, t: Outcome) {
    if dn.None? then t == Next(r, Answered)
    else if !sent then t == if kind == GetAttr then Stop(r) else Next(r, NotSent)
    else if kind == Open || kind == Write || kind == MkDir || kind == MkNod then
      if t.Overrun? then IsFull(r.files, path)
      else t.Next? && t.action == Forwarded(dn.value) && t.s == r.(files := t.s.files) &&
           GetsRecord(r.files, t.s.files, path, 0, 0, dn.value)
    else t == Next(r, Forwarded(dn.value))
  }

  /** What a turn does with a message. */
  ghost predicate TurnDone(live: Oracle, s: State, c: Command, sent: bool, t: Outcome) {
    match c
    case Register(host, None) => t == Stop(s)
    case Register(host, Some(ip)) =>
      if t.Overrun? then IsFull(s.files, "/tmp/CS545/datanode")
      else t.Next? && t.action == Registered && t.s.probes == s.probes && GetsNode(s.nodes, t.s.nodes, host, ip, 1) &&
           GetsRecord(s.files, t.s.files, "/tmp/CS545/datanode", 0, 0, host)
    case Request(kind, path) =>
      exists r: State, dn :: RoutedTo(live, s, path, r, dn) && RequestDone(r, dn, kind, path, sent, t)
    case Other => t == Next(s, Ignored)
  }

  lemma TurnIs(live: Oracle, s: State, c: Command, sent: bool)
    requires AllShaped(s)
    ensures TurnDone(live, s, c, sent, Turn(live, s, c, sent))
  {
    match c
    case Register(host, ip) =>
      if ip.Some? {
        WithFileIs(s.files, DATANODE_DIR, 0, 0, host);
        WithNodeIs(s.nodes, host, ip.value, 1);
      }
    case Request(kind, path) =>
      var r := Route(live, s, path);
      RouteIs(live, s, path);
      RouteKeepsFiles(live, s, path);
      if r.dn.Some? {
        WithFileIs(r.s.files, path, 0, 0, r.dn.value);
      }
      assert RequestDone(r.s, r.dn, kind, path, sent, Turn(live, s, c, sent));
    case Other =>
  }

  /** A request that is forwarded goes to a data node that answered the last probe made. */
  lemma TurnForwards(live: Oracle, s: State, c: Command, sent: bool)
    requires AllShaped(s)
    ensures var t := Turn(live, s, c, sent);
            t.Next? && t.action.Forwarded? ==> Answering(live, s.probes, Some(t.action.dn), t.s.probes)
  {
    if c.Request? {
      RoutedAnswers(live, s, c.path);
    }
  }

  // ---------------------------------------------------------------- what every turn keeps

  ghost predicate IsNode(nodes: seq<DataNode>, name: string) {
    exists i :: 0 <= i < |nodes| && nodes[i].node == name
  }

  /** Every replica that an entry records is a registered data node. */
  ghost predicate EntryRegistered(nodes: seq<DataNode>, e: FileEntry)
    requires Shaped(e)
  {
    forall i | 0 <= i < RECORDS && e.rep[i] != 0 :: IsNode(nodes, e.replica[i])
  }

  /** The entry records replicas on `dn` only. */
  ghost predicate OnlyOn(e: FileEntry, dn: string)
    requires Shaped(e)
  {
    forall i | 0 <= i < RECORDS && e.rep[i] != 0 :: e.replica[i] == dn
  }

  /** Every entry but the one for the data nodes themselves is on one data node only. */
  ghost predicate OneNode(e: FileEntry)
    requires Shaped(e)
  {
    e.name != DATANODE_DIR ==> exists dn :: OnlyOn(e, dn)
  }

  ghost predicate EntryOk(nodes: seq<DataNode>, e: FileEntry) {
    Shaped(e) && EntryRegistered(nodes, e) && OneNode(e)
  }

  ghost predicate Inv(s: State) {
    forall j | 0 <= j < |s.files| :: EntryOk(s.nodes, s.files[j])
  }

  lemma InvShaped(s: State)
    requires Inv(s)
    ensures AllShaped(s)
  {
    forall j | 0 <= j < |s.files| ensures Shaped(s.files[j]) {
      assert EntryOk(s.nodes, s.files[j]);
    }
  }

  /** The registered data nodes only become more. */
  ghost predicate KeepsNodes(before: seq<DataNode>, after: seq<DataNode>) {
    |before| <= |after| && forall i | 0 <= i < |before| :: after[i].node == before[i].node
  }

  lemma StillOk(before: seq<DataNode>, after: seq<DataNode>, e: FileEntry)
    requires KeepsNodes(before, after) && EntryOk(before, e)
    ensures EntryOk(after, e)
  {
    forall i | 0 <= i < RECORDS && e.rep[i] != 0 ensures IsNode(after, e.replica[i]) {
      var k :| 0 <= k < |before| && before[k].node == e.replica[i];
      assert after[k].node == e.replica[i];
    }
  }

  /** A request for a path that has an entry is routed to a replica of that entry or to none. */
  lemma {:induction false} RouteKnown(live: Oracle, s: State, path: string)
    requires AllShaped(s) && FindFile(s.files, path, 0) < |s.files| && Route(live, s, path).dn.Some?
    ensures var e := s.files[FindFile(s.files, path, 0)];
            exists i :: 0 <= i < RECORDS && e.rep[i] != 0 && e.replica[i] == Route(live, s, path).dn.value
  {
    var e := s.files[FindFile(s.files, path, 0)];
    var p := LiveRecord(live, e, true, 0, s.probes);
    if p.at < RECORDS {
      assert e.rep[p.at] == 1;
    }
  }

  lemma RouteKeeps(live: Oracle, s: State, path: string)
    requires Inv(s) && AllShaped(s)
    ensures var r := Route(live, s, path);
            && Inv(r.s) && r.s.files == s.files && KeepsNodes(s.nodes, r.s.nodes)
            && (r.dn.Some? ==> IsNode(r.s.nodes, r.dn.value))
  {
    var r, j := Route(live, s, path), FindFile(s.files, path, 0);
    forall k | 0 <= k < |s.files| ensures EntryOk(r.s.nodes, s.files[k]) {
      assert EntryOk(s.nodes, s.files[k]);
      StillOk(s.nodes, r.s.nodes, s.files[k]);
    }
    if j < |s.files| && r.dn.Some? {
      RouteKnown(live, s, path);
      assert EntryOk(s.nodes, s.files[j]);
    } else if r.dn.Some? {
      var f := LiveNode(live, s.nodes, 0, s.probes);
      assert r.s.nodes[f.at].node == r.dn.value;
    }
  }

  /** Recording keeps the invariant if the node is registered and is the one that the entry is on, if it has one. */
  lemma WithFileKeeps(s: State, name: string, dn: string)
    requires Inv(s) && AllShaped(s) && IsNode(s.nodes, dn)
    requires var j := FindFile(s.files, name, 0);
             j < |s.files| && s.files[j].name != DATANODE_DIR ==> OnlyOn(s.files[j], dn)
    ensures var files := WithFile(s.files, name, 0, 0, dn);
            files.Some? ==> Inv(s.(files := files.value))
  {
    var files, j := WithFile(s.files, name, 0, 0, dn), FindFile(s.files, name, 0);
    if files.Some? {
      forall k | 0 <= k < |files.value| ensures EntryOk(s.nodes, files.value[k]) {
        if k < |s.files| {
          assert EntryOk(s.nodes, s.files[k]);
        } else {
          assert OnlyOn(files.value[k], dn);
        }
        if k == j < |s.files| {
          assert s.files[j].name != DATANODE_DIR ==> OnlyOn(files.value[k], dn);
        }
      }
    }
  }

  lemma RegisterKeeps(s: State, host: string, ip: string)
    requires Inv(s) && AllShaped(s)
    ensures var files := WithFile(s.files, DATANODE_DIR, 0, 0, host);
            files.Some? ==> Inv(State(WithNode(s.nodes, host, ip, 1), files.value, s.probes))
  {
    var nodes := WithNode(s.nodes, host, ip, 1);
    forall k | 0 <= k < |s.files| ensures EntryOk(nodes, s.files[k]) {
      assert EntryOk(s.nodes, s.files[k]);
      StillOk(s.nodes, nodes, s.files[k]);
    }
    assert nodes[FindNode(s.nodes, host, 0)].node == host;
    assert Stripped(DATANODE_DIR) == DATANODE_DIR;
    WithFileKeeps(State(nodes, s.files, s.probes), DATANODE_DIR, host);
  }

  /** The one data node that a known entry is on is where its requests are routed. */
  lemma {:induction false} RouteIsOnly(live: Oracle, s: State, path: string)
    requires Inv(s) && AllShaped(s) && Route(live, s, path).dn.Some?
    ensures var j := FindFile(s.files, path, 0);
            j < |s.files| && s.files[j].name != DATANODE_DIR ==> OnlyOn(s.files[j], Route(live, s, path).dn.value)
  {
    var j := FindFile(s.files, path, 0);
    if j < |s.files| && s.files[j].name != DATANODE_DIR {
      assert EntryOk(s.nodes, s.files[j]);
      RouteKnown(live, s, path);
      var dn :| OnlyOn(s.files[j], dn);
    }
  }

  /** Every turn keeps the invariant. */
  lemma TurnKeeps(live: Oracle, s: State, c: Command, sent: bool)
    requires Inv(s) && AllShaped(s)
    ensures var t := Turn(live, s, c, sent);
            !t.Overrun? ==> Inv(t.s) && KeepsNodes(s.nodes, t.s.nodes)
  {
    match c
    case Register(host, ip) =>
      if ip.Some? {
        RegisterKeeps(s, host, ip.value);
      }
    case Request(kind, path) =>
      var r := Route(live, s, path);
      RouteKeeps(live, s, path);
      if r.dn.Some? {
        RouteIsOnly(live, s, path);
        InvShaped(r.s);
        WithFileKeeps(r.s, path, r.dn.value);
      }
    case Other =>
  }

  // ---------------------------------------------------------------- whole runs

  datatype Event = Event(c: Command, sent: bool)

  /** The state after a run; nothing when the loop has ended or overrun. */
  ghost predicate Reached(live: Oracle, s: State, events: seq<Event>, t: State)
    decreases |events|
  {
    if events == [] then t == s else
    exists u, a :: LastTurn(live, s, events, u, t, a)
  }

  ghost predicate LastTurn(live: Oracle, s: State, events: seq<Event>, u: State, t: State, a: Action)
    requires events != []
    decreases |events|, 0
  {
    var e := events[|events| - 1];
    Reached(live, s, events[..|events| - 1], u) && AllShaped(u) && Turn(live, u, e.c, e.sent) == Next(t, a)
  }

  /** Every run of commands, whatever the data nodes and the network answer, keeps the invariant. */
  lemma {:induction false} RunKeeps(live: Oracle, s: State, events: seq<Event>, t: State)
    requires Inv(s) && Reached(live, s, events, t)
    ensures Inv(t) && AllShaped(t) && KeepsNodes(s.nodes, t.nodes)
    decreases |events|
  {
    if events != [] {
      var u, a :| LastTurn(live, s, events, u, t, a);
      var e := events[|events| - 1];
      RunKeeps(live, s, events[..|events| - 1], u);
      TurnKeeps(live, u, e.c, e.sent);
    }
    InvShaped(t);
  }

  /** The entry that the path finds is at `j`, is not the one of the data nodes, and is on `dn`. */
  ghost predicate Placed(s: State, path: string, j: nat, dn: string) {
    && j < |s.files| && FindFile(s.files, path, 0) == j && s.files[j].name != DATANODE_DIR
    && Shaped(s.files[j]) && OnlyOn(s.files[j], dn) && s.files[j].rep[0] == 1
  }

  lemma FindFileStays(files: seq<FileEntry>, more: seq<FileEntry>, path: string, i: nat)
    requires i <= |files| <= |more| && (forall k | 0 <= k < |files| :: more[k].name == files[k].name)
    requires FindFile(files, path, i) < |files|
    ensures FindFile(more, path, i) == FindFile(files, path, i)
    decreases |files| - i
  {
    if !Matches(files[i], path) {
      FindFileStays(files, more, path, i + 1);
    }
  }

  lemma WithFilePlaced(s: State, name: string, dn: string, path: string, j: nat, on: string)
    requires AllShaped(s) && Placed(s, path, j, on)
    requires FindFile(s.files, name, 0) == j ==> dn == on
    ensures var files := WithFile(s.files, name, 0, 0, dn);
            files.Some? ==> Placed(s.(files := files.value), path, j, on)
  {
    var files, k := WithFile(s.files, name, 0, 0, dn), FindFile(s.files, name, 0);
    if files.Some? {
      FindFileStays(s.files, files.value, path, 0);
      if k == j {
        assert files.value[j] == WithRecord(s.files[j], FreeRecord(s.files[j].rep, 0), 0, 0, dn);
      }
    }
  }

  lemma TurnKeepsPlaced(live: Oracle, s: State, c: Command, sent: bool, path: string, j: nat, dn: string)
    requires Inv(s) && AllShaped(s) && Placed(s, path, j, dn)
    ensures var t := Turn(live, s, c, sent);
            !t.Overrun? ==> Placed(t.s, path, j, dn)
  {
    match c
    case Register(host, ip) =>
      assert Stripped(DATANODE_DIR) == DATANODE_DIR;
      WithFilePlaced(s, DATANODE_DIR, host, path, j, dn);
    case Request(kind, name) =>
      RequestKeepsPlaced(live, s, name, path, j, dn);
    case Other =>
  }

  lemma RequestKeepsPlaced(live: Oracle, s: State, name: string, path: string, j: nat, dn: string)
    requires Inv(s) && AllShaped(s) && Placed(s, path, j, dn)
    ensures var r := Route(live, s, name);
            && AllShaped(r.s) && Placed(r.s, path, j, dn)
            && (r.dn.Some? ==> var files := WithFile(r.s.files, name, 0, 0, r.dn.value);
                               files.Some? ==> Placed(r.s.(files := files.value), path, j, dn))
  {
    var r := Route(live, s, name);
    RouteKeeps(live, s, name);
    InvShaped(r.s);
    if r.dn.Some? {
      RouteIsOnly(live, s, name);
      if FindFile(s.files, name, 0) == j {
        assert s.files[j].replica[0] == dn && s.files[j].replica[0] == r.dn.value;
      }
      WithFilePlaced(r.s, name, r.dn.value, path, j, dn);
    }
  }

  /** Once an entry is on a data node, every later request for it goes there or nowhere. */
  lemma {:induction false} RoutingIsSticky(live: Oracle, s: State, events: seq<Event>, t: State,
                                           path: string, j: nat, dn: string)
    requires Inv(s) && Placed(s, path, j, dn) && Reached(live, s, events, t)
    ensures AllShaped(t) && Placed(t, path, j, dn)
    ensures Route(live, t, path).dn == None || Route(live, t, path).dn == Some(dn)
    decreases |events|
  {
    RunKeeps(live, s, events, t);
    if events != [] {
      var u, a :| LastTurn(live, s, events, u, t, a);
      var e := events[|events| - 1];
      RunKeeps(live, s, events[..|events| - 1], u);
      RoutingIsSticky(live, s, events[..|events| - 1], u, path, j, dn);
      TurnKeepsPlaced(live, u, e.c, e.sent, path, j, dn);
    }
    if Route(live, t, path).dn.Some? {
      RouteIsOnly(live, t, path);
      assert t.files[j].replica[0] == dn;
    }
  }

  /** A request that is recorded for a new path places the path where it was sent. */
  lemma FirstRequestPlaces(live: Oracle, s: State, kind: Kind, path: string)
    requires Inv(s) && AllShaped(s) && Recorded(kind) && path != DATANODE_DIR
    requires FindFile(s.files, path, 0) == |s.files| && Route(live, s, path).dn.Some?
    ensures var t := Turn(live, s, Request(kind, path), true);
            t.Next? && Placed(t.s, path, |s.files|, Route(live, s, path).dn.value)
  {
    var t := Turn(live, s, Request(kind, path), true);
    var e := t.s.files[|s.files|];
    assert Matches(e, path);
    assert forall k | 0 <= k < |s.files| :: t.s.files[k] == s.files[k];
  }

  // ---------------------------------------------------------------- when a table is full

  /** The records of an entry are used from the front on, `n` of them. */
  ghost predicate Filled(e: FileEntry, n: nat) {
    Shaped(e) && n <= RECORDS && forall i | 0 <= i < RECORDS :: e.rep[i] != 0 <==> i < n
  }

  /** The entry that a turn records in, if it does; a new one comes behind the others. */
  ghost function Target(live: Oracle, s: State, c: Command, sent: bool): Option<nat>
    requires AllShaped(s)
  {
    match c
    case Register(_, ip) => if ip.Some? then Some(FindFile(s.files, DATANODE_DIR, 0)) else None
    case Request(kind, path) =>
      if Route(live, s, path).dn.Some? && sent && Recorded(kind) then Some(FindFile(s.files, path, 0)) else None
    case Other => None
  }

  /** The state after a run; nothing when the loop has ended or overrun. */
  ghost function After(live: Oracle, s: State, events: seq<Event>): (r: Option<State>)
    requires AllShaped(s)
    ensures r.Some? ==> AllShaped(r.value)
  {
    if events == [] then Some(s) else
    var u := After(live, s, events[..|events| - 1]);
    var e := events[|events| - 1];
    if u.None? then None else
    var o := Turn(live, u.value, e.c, e.sent);
    if o.Next? && AllShaped(o.s) then Some(o.s) else None
  }

  /** How many turns of a run have recorded in entry `j`. */
  ghost function Recordings(live: Oracle, s: State, events: seq<Event>, j: nat): nat
    requires AllShaped(s)
  {
    if events == [] then 0 else
    var front, e := events[..|events| - 1], events[|events| - 1];
    var u := After(live, s, front);
    Recordings(live, s, front, j)
    + if u.Some? && Target(live, u.value, e.c, e.sent) == Some(j) then 1 else 0
  }

  lemma {:induction false} FreeRecordOf(rep: seq<int>, i: nat, n: nat)
    requires i <= n <= |rep| && (forall k | i <= k < n :: rep[k] != 0) && (n < |rep| ==> rep[n] == 0)
    ensures FreeRecord(rep, i) == n
    decreases n - i
  {
    if i < n {
      FreeRecordOf(rep, i + 1, n);
    }
  }

  /** What one recording does to the entries: one more record is used, or there is a new entry with one. */
  lemma WithFileFills(files: seq<FileEntry>, name: string, dn: string, n: nat)
    requires forall j | 0 <= j < |files| :: Shaped(files[j])
    requires var k := FindFile(files, name, 0); k < |files| ==> Filled(files[k], n)
    ensures var more, k := WithFile(files, name, 0, 0, dn), FindFile(files, name, 0);
            && (more.None? <==> k < |files| && n == RECORDS)
            && (more.Some? ==>
                  && |more.value| == (if k < |files| then |files| else k + 1)
                  && Filled(more.value[k], if k < |files| then n + 1 else 1)
                  && forall j | 0 <= j < |files| && j != k :: more.value[j] == files[j])
  {
    var k := FindFile(files, name, 0);
    if k < |files| {
      FreeRecordOf(files[k].rep, 0, n);
    }
  }

  lemma RouteKeepsFiles(live: Oracle, s: State, path: string)
    requires AllShaped(s)
    ensures Route(live, s, path).s.files == s.files
  {
  }

  lemma TurnFills(live: Oracle, s: State, c: Command, sent: bool, n: nat)
    requires AllShaped(s)
    requires var k := Target(live, s, c, sent); k.Some? && k.value < |s.files| ==> Filled(s.files[k.value], n)
    ensures var k, o := Target(live, s, c, sent), Turn(live, s, c, sent);
            && (o.Overrun? <==> k.Some? && k.value < |s.files| && n == RECORDS)
            && (k.Some? ==> k.value <= |s.files|)
            && (o.Next? ==>
                  && |o.s.files| == (if k == Some(|s.files|) then |s.files| + 1 else |s.files|)
                  && (k.Some? ==> Filled(o.s.files[k.value], if k.value < |s.files| then n + 1 else 1))
                  && forall j | 0 <= j < |s.files| && k != Some(j) :: o.s.files[j] == s.files[j])
  {
    match c
    case Register(host, ip) =>
      if ip.Some? {
        WithFileFills(s.files, DATANODE_DIR, host, n);
      }
    case Request(kind, path) =>
      RequestFills(live, s, kind, path, sent, n);
    case Other =>
  }

  lemma RequestFills(live: Oracle, s: State, kind: Kind, path: string, sent: bool, n: nat)
    requires AllShaped(s)
    requires var k := Target(live, s, Request(kind, path), sent);
             k.Some? && k.value < |s.files| ==> Filled(s.files[k.value], n)
    ensures var k, o := Target(live, s, Request(kind, path), sent), Turn(live, s, Request(kind, path), sent);
            && (o.Overrun? <==> k.Some? && k.value < |s.files| && n == RECORDS)
            && (k.None? && o.Next? ==> o.s.files == s.files)
            && (k.Some? && o.Next? ==> WithFile(s.files, path, 0, 0, Route(live, s, path).dn.value) == Some(o.s.files))
            && (k.Some? ==> o.Next? || o.Overrun?)
            && (k.Some? && o.Next? ==>
                  && |o.s.files| == (if k.value < |s.files| then |s.files| else k.value + 1)
                  && Filled(o.s.files[k.value], if k.value < |s.files| then n + 1 else 1)
                  && forall j | 0 <= j < |s.files| && j != k.value :: o.s.files[j] == s.files[j])
  {
    RouteKeepsFiles(live, s, path);
    var k, r := Target(live, s, Request(kind, path), sent), Route(live, s, path);
    if k.Some? {
      WithFileFills(s.files, path, r.dn.value, n);
    }
  }

  /** From empty tables on, an entry uses as many records as turns have recorded in it. */
  lemma {:induction false} RecordsAreRecordings(live: Oracle, s: State, events: seq<Event>, j: nat)
    requires s.files == [] && After(live, s, events).Some?
    ensures var t := After(live, s, events).value;
            if j < |t.files| then Filled(t.files[j], Recordings(live, s, events, j))
            else Recordings(live, s, events, j) == 0
  {
    if events != [] {
      var u, e := AfterLast(live, s, events, j);
      var k, n := Target(live, u, e.c, e.sent), Recordings(live, s, events[..|events| - 1], j);
      RecordsAreRecordings(live, s, events[..|events| - 1], j);
      if k.Some? && k.value != j {
        RecordsAreRecordings(live, s, events[..|events| - 1], k.value);
        TurnFills(live, u, e.c, e.sent, Recordings(live, s, events[..|events| - 1], k.value));
      } else {
        TurnFills(live, u, e.c, e.sent, n);
      }
    }
  }

  /** The last turn of a run. */
  lemma AfterLast(live: Oracle, s: State, events: seq<Event>, j: nat) returns (u: State, e: Event)
    requires AllShaped(s) && events != [] && After(live, s, events).Some?
    ensures var front := events[..|events| - 1];
            && e == events[|events| - 1] && After(live, s, front) == Some(u) && AllShaped(u)
            && Turn(live, u, e.c, e.sent).Next? && After(live, s, events) == Some(Turn(live, u, e.c, e.sent).s)
            && Recordings(live, s, events, j)
               == Recordings(live, s, front, j) + if Target(live, u, e.c, e.sent) == Some(j) then 1 else 0
  {
    e := events[|events| - 1];
    u := After(live, s, events[..|events| - 1]).value;
  }

  /** So after any run a turn writes past the records exactly when it is the fifty-first to record in its entry. */
  lemma OverrunIff(live: Oracle, s: State, events: seq<Event>, c: Command, sent: bool)
    requires s.files == [] && After(live, s, events).Some?
    ensures var t := After(live, s, events).value;
            var k := Target(live, t, c, sent);
            Turn(live, t, c, sent).Overrun? <==> k.Some? && Recordings(live, s, events, k.value) == RECORDS
  {
    var t := After(live, s, events).value;
    var k := Target(live, t, c, sent);
    if k.Some? {
      RecordsAreRecordings(live, s, events, k.value);
      TurnFills(live, t, c, sent, Recordings(live, s, events, k.value));
    } else {
      TurnFills(live, t, c, sent, 0);
    }
  }

  /** `After` is the state that `Reached` speaks of. */
  lemma {:induction false} ReachedAfter(live: Oracle, s: State, events: seq<Event>, t: State)
    requires Inv(s) && AllShaped(s) && Reached(live, s, events, t)
    ensures After(live, s, events) == Some(t)
    decreases |events|
  {
    if events != [] {
      var u, a :| LastTurn(live, s, events, u, t, a);
      ReachedAfter(live, s, events[..|events| - 1], u);
      RunKeeps(live, s, events, t);
    }
  }

  lemma {:induction false} AfterReached(live: Oracle, s: State, events: seq<Event>)
    requires AllShaped(s) && After(live, s, events).Some?
    ensures Reached(live, s, events, After(live, s, events).value)
    decreases |events|
  {
    if events != [] {
      var front, e := events[..|events| - 1], events[|events| - 1];
      var u := After(live, s, front).value;
      AfterReached(live, s, front);
      assert LastTurn(live, s, events, u, After(live, s, events).value, Turn(live, u, e.c, e.sent).action);
    }
  }

  // ---------------------------------------------------------------- the code

  /** The two global lists; both are only ever appended to, and their elements changed in place. */
  class Tables {
    const live: Oracle
    var nodes: seq<DataNode>
    var files: seq<FileEntry>
    var probes: nat

    ghost function Contents(): State
      reads this
    {
      State(nodes, files, probes)
    }

    constructor (live: Oracle)
      ensures Contents() == State([], [], 0) && Inv(Contents()) && this.live == live
    {
      this.live := live;
      nodes, files, probes := [], [], 0;
    }

    method SearchFile(name: string) returns (k: nat)
      ensures k == FindFile(files, name, 0)
      ensures if k < |files| then FirstNamed(files, name, k) else forall e | e in files :: !Named(e, name)
    {
      FindFileIs(files, name);
      var aname := Stripped(name);
      k := 0;
      while k < |files|
        invariant k <= |files| && FindFile(files, name, 0) == FindFile(files, name, k)
      {
        if files[k].name == name || files[k].name == aname {
          return;
        }
        k := k + 1;
      }
    }

    method SearchNode(name: string) returns (k: nat)
      ensures k == FindNode(nodes, name, 0)
    {
      k := 0;
      while k < |nodes|
        invariant k <= |nodes| && FindNode(nodes, name, 0) == FindNode(nodes, name, k)
      {
        if nodes[k].node == name {
          return;
        }
        k := k + 1;
      }
    }

    /** `getRepcreatenum`. */
    method CreateNum(e: FileEntry) returns (i: int)
      requires Shaped(e)
      ensures var k := FreeRecord(e.rep, 0);
              i == if k < RECORDS then k else -1
    {
      i := 0;
      while i < RECORDS
        invariant 0 <= i <= RECORDS && FreeRecord(e.rep, 0) == FreeRecord(e.rep, i)
      {
        if e.rep[i] == 0 {
          return;
        }
        i := i + 1;
      }
      return -1;
    }

    /** `getRepfetchnum` and `getRepfetchnum1`; that every replica is registered keeps them off a null pointer. */
    method FetchNum(e: FileEntry, synced: bool) returns (i: int)
      requires Shaped(e) && EntryRegistered(nodes, e)
      modifies this
      ensures nodes == old(nodes) && files == old(files)
      ensures var p := LiveRecord(live, e, synced, 0, old(probes));
              probes == p.probes && i == if p.at < RECORDS then p.at else -1
      ensures RecordFound(live, e, synced, 0, old(probes), if i == -1 then 50 else i, probes)
    {
      LiveRecordFound(live, e, synced, 0, probes);
      i := 0;
      while i < RECORDS
        invariant 0 <= i <= RECORDS && nodes == old(nodes) && files == old(files)
        invariant LiveRecord(live, e, synced, 0, old(probes)) == LiveRecord(live, e, synced, i, probes)
      {
        if Tried(e.rep[i], synced) {
          var k := SearchNode(e.replica[i]);
          assert IsNode(nodes, e.replica[i]);
          var node := nodes[k].node;
          var answer := live(node, probes);
          probes := probes + 1;
          if answer {
            return;
          }
        }
        i := i + 1;
      }
      return -1;
    }

    /** `fetch_datanode`. */
    method FetchNode() returns (k: nat)
      modifies this
      ensures files == old(files)
      ensures var f := LiveNode(live, old(nodes), 0, old(probes));
              nodes == f.nodes && probes == f.probes && k == f.at
      ensures NodeFound(live, old(nodes), 0, old(probes), nodes, k, probes)
    {
      LiveNodeFound(live, nodes, 0, probes);
      k := 0;
      while k < |nodes|
        invariant k <= |nodes| == |old(nodes)| && files == old(files)
        invariant LiveNode(live, old(nodes), 0, old(probes)) == LiveNode(live, nodes, k, probes)
      {
        if nodes[k].alive != 0 {
          var answer := live(nodes[k].node, probes);
          probes := probes + 1;
          if answer {
            return;
          }
          nodes := nodes[k := nodes[k].(alive := 0)];
        }
        k := k + 1;
      }
    }

    /** `getfiledn`. */
    method GetFileNode(path: string) returns (dn: Option<string>)
      requires Inv(Contents()) && AllShaped(Contents())
      modifies this
      ensures var r := Route(live, old(Contents()), path);
              Contents() == r.s && dn == r.dn
      ensures RoutedTo(live, old(Contents()), path, Contents(), dn)
      ensures Answering(live, old(probes), dn, probes)
    {
      RouteIs(live, Contents(), path);
      RoutedAnswers(live, Contents(), path);
      var j := SearchFile(path);
      if j == |files| {
        var k := FetchNode();
        return if k < |nodes| then Some(nodes[k].node) else None;
      }
      assert EntryOk(nodes, files[j]);
      var e := files[j];
      var i := FetchNum(e, true);
      if i == -1 {
        i := FetchNum(e, false);
      }
      return if i != -1 then Some(e.replica[i]) else None;
    }

    /** `filenode_insert`; false when it writes out of bounds. */
    method InsertFile(name: string, kind: int, inode: int, dn: string) returns (ok: bool)
      requires AllShaped(Contents())
      modifies this
      ensures nodes == old(nodes) && probes == old(probes)
      ensures var t := WithFile(old(files), name, kind, inode, dn);
              ok == t.Some? && files == if ok then t.value else old(files)
      ensures ok <==> !IsFull(old(files), name)
      ensures ok ==> GetsRecord(old(files), files, name, kind, inode, dn)
    {
      WithFileIs(files, name, kind, inode, dn);
      var j := SearchFile(name);
      if j == |files| {
        files := files + [NewEntry(name, kind, inode, dn)];
        return true;
      }
      var i := CreateNum(files[j]);
      if i == -1 {
        return false;
      }
      files := files[j := WithRecord(files[j], i, kind, inode, dn)];
      return true;
    }

    /** `datanode_insert`. */
    method InsertNode(name: string, ip: string, alive: int) returns (ok: bool)
      requires AllShaped(Contents())
      modifies this
      ensures nodes == WithNode(old(nodes), name, ip, alive) && probes == old(probes)
      ensures var t := WithFile(old(files), DATANODE_DIR, 0, 0, name);
              ok == t.Some? && files == if ok then t.value else old(files)
      ensures GetsNode(old(nodes), nodes, name, ip, alive)
      ensures ok ==> GetsRecord(old(files), files, "/tmp/CS545/datanode", 0, 0, name)
    {
      WithNodeIs(nodes, name, ip, alive);
      var j := SearchNode(name);
      if j == |nodes| {
        nodes := nodes + [DataNode(name, ip, alive)];
      } else {
        nodes := nodes[j := nodes[j].(alive := 1)];
      }
      ok := InsertFile(DATANODE_DIR, 0, 0, name);
    }

    /** The body of the loop of `receivecommand_namenode`. */
    method Handle(c: Command, sent: bool) returns (o: Outcome)
      requires Inv(Contents()) && AllShaped(Contents())
      modifies this
      ensures o == Turn(live, old(Contents()), c, sent)
      ensures TurnDone(live, old(Contents()), c, sent, o)
      ensures o.Next? && o.action.Forwarded? ==> Answering(live, old(probes), Some(o.action.dn), probes)
      ensures !o.Overrun? ==> Contents() == o.s && Inv(Contents()) && AllShaped(Contents())
    {
      TurnKeeps(live, Contents(), c, sent);
      TurnIs(live, Contents(), c, sent);
      TurnForwards(live, Contents(), c, sent);
      match c {
        case Register(host, ip) =>
          if ip.None? {
            return Stop(State(nodes, files, probes));
          }
          var ok := InsertNode(host, ip.value, 1);
          o := if ok then Next(State(nodes, files, probes), Registered) else Overrun;
        case Request(kind, path) =>
          RouteKeeps(live, Contents(), path);
          var dn := GetFileNode(path);
          InvShaped(Contents());
          if dn.None? {
            o := Next(State(nodes, files, probes), Answered);
          } else if !sent {
            var s := State(nodes, files, probes);
            o := if kind.GetAttr? then Stop(s) else Next(s, NotSent);
          } else if Recorded(kind) {
            var ok := InsertFile(path, 0, 0, dn.value);
            o := if ok then Next(State(nodes, files, probes), Forwarded(dn.value)) else Overrun;
          } else {
            o := Next(State(nodes, files, probes), Forwarded(dn.value));
          }
        case Other =>
          o := Next(State(nodes, files, probes), Ignored);
      }
      if !o.Overrun? {
        InvShaped(Contents());
      }
    }
  }
}
