/** Whole runs of one client against one server: who reads which reply. */
module Session {
  import opened Bytes
  import opened Wire
  import opened PacketCode
  import opened Endpoint
  import opened Server

  /** A file system call as the client sends it: a command, and for two kinds of command a data packet. */
  datatype Call = Call(cmd: RequestPacket, data: Option<RequestPacket>)

  predicate WantsData(cmd: RequestPacket) {
    match cmd.request.op
    case Fileop(kind, _, _, _) => kind == WRITE
    case Xattr(kind, _, _, _, _, _) => kind == SETXATTR
    case _ => false
  }

  /** The reply type handed to `client_receive_specified`. */
  function Expected(cmd: RequestPacket): u32 {
    match cmd.request.op
    case Fileop(kind, _, _, _) =>
      if kind == GETATTR then RESPONSE_ATTR else if kind == WRITE then RESPONSE_STATUS else RESPONSE_DATA
    case Xattr(kind, _, valueSize, _, _, _) =>
      if kind in {GETXATTR, LISTXATTR} && valueSize != 0 then RESPONSE_DATA else RESPONSE_STATUS
    case _ => RESPONSE_STATUS
  }

  /** What the client's build functions produce. */
  ghost predicate WellFormed(c: Call) {
    && c.cmd.header.kind == COREFS_REQUEST
    && (c.cmd.request.op.Fileop? || c.cmd.request.op.Simple? || c.cmd.request.op.Xattr?)
    && (c.data.Some? <==> WantsData(c.cmd))
    && (c.data.Some? ==> c.data.value.header.kind == COREFS_REQUEST && CheckSanity(c.data.value) == 0
                         && IsAnnouncedData(c.cmd, c.data))
  }

  /** A packet taken where data is awaited; one that is no request is refused. */
  function AsData(p: RequestPacket): Option<RequestPacket> {
    if p.header.kind != COREFS_REQUEST then None else Some(p)
  }

  /** A reply, by the packet the server was handling: the command of a call, or a data packet taken for a command. */
  datatype Entry = Answer(call: nat) | Stray(call: nat)

  datatype Packet = Packet(call: nat, isData: bool, body: RequestPacket)

  /**
   * `unsent`: packets of the current call still in the client's send calls; `waiting`: the client is inside
   * a call; `up`, `down`: the connection; `busy`: the command whose handler waits for data; `read`: replies
   * the client has taken. `verdicts` records of every command served whether it was answered without its
   * data packet being read, and `entries` what every reply was sent for.
   */
  datatype State = State(
    calls: seq<Call>, unsent: seq<Packet>, waiting: bool,
    up: seq<Packet>, busy: Option<Packet>,
    down: seq<Result>, read: seq<Result>,
    verdicts: seq<bool>, entries: seq<Entry>)

  function PacketsOf(i: nat, c: Call): seq<Packet> {
    [Packet(i, false, c.cmd)] + if c.data.Some? then [Packet(i, true, c.data.value)] else []
  }

  ghost predicate Init(s: State) {
    s == State([], [], false, [], None, [], [], [], [])
  }

  ghost predicate Issue(s: State, s': State, c: Call) {
    && !s.waiting && WellFormed(c)
    && s' == s.(calls := s.calls + [c], unsent := PacketsOf(|s.calls|, c), waiting := true)
  }

  ghost predicate Transmit(s: State, s': State) {
    && s.unsent != []
    && s' == s.(unsent := s.unsent[1..], up := s.up + [s.unsent[0]])
  }

  /** The main loop takes a packet and handles it as a command, whatever it is. */
  ghost predicate ServeCommand(s: State, s': State, os: Os) {
    && s.up != [] && s.busy.None?
    && var p := s.up[0];
       var rest := s.(up := s.up[1..]);
       match CommandOutcome(p.body, os)
       case NeedData =>
         s' == rest.(busy := Some(p), verdicts := if p.isData then s.verdicts else s.verdicts + [false])
       case Reply(r) =>
         s' == rest.(down := s.down + [r],
                     entries := s.entries + [if p.isData then Stray(p.call) else Answer(p.call)],
                     verdicts := if p.isData then s.verdicts else s.verdicts + [WantsData(p.body)])
  }

  ghost predicate ServeData(s: State, s': State, os: Os) {
    && s.up != [] && s.busy.Some?
    && s' == s.(up := s.up[1..], busy := None,
                down := s.down + [DataOutcome(s.busy.value.body, AsData(s.up[0].body), os)],
                entries := s.entries + [Answer(s.busy.value.call)])
  }

  ghost predicate ReadReply(s: State, s': State) {
    && s.waiting && s.unsent == [] && s.down != []
    && s' == s.(waiting := false, down := s.down[1..], read := s.read + [s.down[0]])
  }

  ghost predicate Next(s: State, s': State) {
    || (exists c :: Issue(s, s', c))
    || Transmit(s, s')
    || (exists os :: ServeCommand(s, s', os))
    || (exists os :: ServeData(s, s', os))
    || ReadReply(s, s')
  }

  ghost predicate Run(ss: seq<State>) {
    |ss| > 0 && Init(ss[0]) && forall i | 0 <= i < |ss| - 1 :: Next(ss[i], ss[i + 1])
  }

  // ---------------------------------------------------------------- invariant

  function PacketsFrom(calls: seq<Call>, i: nat): seq<Packet>
    requires i <= |calls|
    decreases |calls| - i
  {
    if i == |calls| then [] else PacketsOf(i, calls[i]) + PacketsFrom(calls, i + 1)
  }

  lemma {:induction false} PacketsFromAppend(calls: seq<Call>, c: Call, i: nat)
    requires i <= |calls|
    ensures PacketsFrom(calls + [c], i) == PacketsFrom(calls, i) + PacketsOf(|calls|, c)
    decreases |calls| - i
  {
    if i == |calls| {
      assert PacketsFrom(calls + [c], i + 1) == [];
    } else {
      PacketsFromAppend(calls, c, i + 1);
    }
  }

  /** All replies to the first calls: every call is answered, and a rejected data packet is answered once more. */
  function Ledger(verdicts: seq<bool>): (es: seq<Entry>) {
    if verdicts == [] then [] else
    var n := |verdicts| - 1;
    Ledger(verdicts[..n]) + [Answer(n)] + if verdicts[n] then [Stray(n)] else []
  }

  function Rejections(verdicts: seq<bool>): nat {
    if verdicts == [] then 0 else
    var n := |verdicts| - 1;
    Rejections(verdicts[..n]) + if verdicts[n] then 1 else 0
  }

  /** What is on its way: the rest of the last command served, if `owed`, and every later packet. */
  ghost predicate OnTheWay(s: State, owed: bool) {
    var n, coming := |s.verdicts|, s.up + s.unsent;
    && n <= |s.calls|
    && if owed
       then 0 < n && s.calls[n - 1].data.Some? &&
            coming == [Packet(n - 1, true, s.calls[n - 1].data.value)] + PacketsFrom(s.calls, n)
       else coming == PacketsFrom(s.calls, n)
  }

  function Sofar(verdicts: seq<bool>, owed: bool, busy: bool): seq<Entry>
    requires owed ==> 0 < |verdicts|
  {
    var n := |verdicts|;
    if !owed then Ledger(verdicts) else Ledger(verdicts[..n - 1]) + if busy then [] else [Answer(n - 1)]
  }

  ghost predicate Progress(s: State, owed: bool) {
    var n := |s.verdicts|;
    && OnTheWay(s, owed)
    && s.entries == Sofar(s.verdicts, owed, s.busy.Some?)
    && (s.busy.Some? ==> owed && s.busy.value == Packet(n - 1, false, s.calls[n - 1].cmd))
    && (owed ==> s.verdicts[n - 1] == s.busy.None?)
  }

  /** A reply the call's own branch of the client accepts: an error, or the type asked for. */
  predicate Accepted(cmd: RequestPacket, r: Result) {
    Accepts(Expected(cmd), r)
  }

  ghost predicate Fits(s: State, e: Entry, r: Result) {
    e.call < |s.calls| && if e.Answer? then Accepted(s.calls[e.call].cmd, r) else r == Error(EPROTO)
  }

  ghost predicate Replies(s: State) {
    && |s.entries| == |s.read| + |s.down|
    && forall k | 0 <= k < |s.entries| :: Fits(s, s.entries[k], (s.read + s.down)[k])
  }

  ghost predicate Inv(s: State, owed: bool) {
    && (forall c | c in s.calls :: WellFormed(c))
    && Progress(s, owed)
    && Replies(s)
    && |s.calls| == |s.read| + (if s.waiting then 1 else 0)
    && (s.unsent != [] ==> s.waiting)
  }

  lemma CommandReplies(c: Call, os: Os)
    requires WellFormed(c)
    ensures match CommandOutcome(c.cmd, os)
            case Reply(r) => Accepted(c.cmd, r)
            case NeedData => WantsData(c.cmd)
  {
  }

  lemma DataReplies(c: Call, os: Os)
    requires WellFormed(c) && c.data.Some?
    ensures Accepted(c.cmd, DataOutcome(c.cmd, AsData(c.data.value), os))
    ensures CommandOutcome(c.data.value, os) == Reply(Error(EPROTO))
  {
  }

  lemma NewReply(s: State, s': State, r: Result, e: Entry)
    requires Replies(s) && s'.calls == s.calls && s'.read == s.read
    requires s'.down == s.down + [r] && s'.entries == s.entries + [e] && Fits(s, e, r)
    ensures Replies(s')
  {
    assert s'.read + s'.down == s.read + s.down + [r];
    forall k | 0 <= k < |s'.entries| ensures Fits(s', s'.entries[k], (s'.read + s'.down)[k]) {
      if k < |s.entries| {
        assert Fits(s, s.entries[k], (s.read + s.down)[k]);
      }
    }
  }

  lemma IssueKeepsInv(s: State, s': State, c: Call, owed: bool)
    requires Inv(s, owed) && Issue(s, s', c)
    ensures Inv(s', owed)
  {
    var n := |s.verdicts|;
    PacketsFromAppend(s.calls, c, n);
    assert s.up + s.unsent == s.up;
    assert s'.up + s'.unsent == s.up + PacketsOf(|s.calls|, c);
    assert OnTheWay(s', owed);
    forall k | 0 <= k < |s'.entries| ensures Fits(s', s'.entries[k], (s'.read + s'.down)[k]) {
      assert Fits(s, s.entries[k], (s.read + s.down)[k]);
    }
  }

  lemma TransmitKeepsInv(s: State, s': State, owed: bool)
    requires Inv(s, owed) && Transmit(s, s')
    ensures Inv(s', owed)
  {
    assert s'.up + s'.unsent == s.up + s.unsent;
    assert s'.read + s'.down == s.read + s.down;
  }

  lemma ReadKeepsInv(s: State, s': State, owed: bool)
    requires Inv(s, owed) && ReadReply(s, s')
    ensures Inv(s', owed)
  {
    assert s'.read + s'.down == s.read + s.down;
  }

  lemma ServeDataKeepsInv(s: State, s': State, os: Os, owed: bool)
    requires Inv(s, owed) && ServeData(s, s', os)
    ensures Inv(s', false)
  {
    var n := |s.verdicts|;
    var c := s.calls[n - 1];
    var coming := s.up + s.unsent;
    assert s.up[0] == coming[0] == Packet(n - 1, true, c.data.value);
    assert s'.up + s'.unsent == coming[1..] == PacketsFrom(s.calls, n);
    DataReplies(c, os);
    NewReply(s, s', DataOutcome(c.cmd, AsData(c.data.value), os), Answer(n - 1));
  }

  /** A data packet whose command was rejected early is taken for a command and refused. */
  lemma ServeStrayKeepsInv(s: State, s': State, os: Os)
    requires Inv(s, true) && ServeCommand(s, s', os)
    ensures Inv(s', false)
  {
    var n := |s.verdicts|;
    var c := s.calls[n - 1];
    var coming := s.up + s.unsent;
    assert s.up[0] == coming[0] == Packet(n - 1, true, c.data.value);
    assert s'.up + s'.unsent == coming[1..] == PacketsFrom(s.calls, n);
    DataReplies(c, os);
    NewReply(s, s', Error(EPROTO), Stray(n - 1));
  }

  lemma CommandTaken(s: State, c: Call)
    requires |s.verdicts| < |s.calls| && c == s.calls[|s.verdicts|] && (c.data.Some? <==> WantsData(c.cmd))
    requires s.up + s.unsent == PacketsFrom(s.calls, |s.verdicts|)
    ensures var n := |s.verdicts|;
            (s.up + s.unsent)[1..] == (if WantsData(c.cmd) then [Packet(n, true, c.data.value)] else [])
                                    + PacketsFrom(s.calls, n + 1)
  {
  }

  /** The next packet is the command of the first call not yet served. */
  lemma CommandNext(s: State) returns (n: nat, c: Call)
    requires Inv(s, false) && s.up != []
    ensures n == |s.verdicts| < |s.calls| && c == s.calls[n] && WellFormed(c)
    ensures s.up[0] == Packet(n, false, c.cmd)
    ensures s.up[1..] + s.unsent == (if WantsData(c.cmd) then [Packet(n, true, c.data.value)] else [])
                                  + PacketsFrom(s.calls, n + 1)
  {
    n := |s.verdicts|;
    var coming := s.up + s.unsent;
    assert coming != [];
    c := s.calls[n];
    assert c in s.calls;
    CommandTaken(s, c);
    assert s.up[0] == coming[0];
    assert s.up[1..] + s.unsent == coming[1..];
  }

  lemma ServeCommandKeepsInv(s: State, s': State, os: Os)
    requires Inv(s, false) && ServeCommand(s, s', os)
    ensures Inv(s', WantsData(s.up[0].body))
  {
    var n, c := CommandNext(s);
    CommandReplies(c, os);
    if CommandOutcome(c.cmd, os).NeedData? {
      StartData(s, s', n, c);
    } else {
      AnswerCommand(s, s', n, c, CommandOutcome(c.cmd, os).result);
    }
  }

  lemma StartData(s: State, s': State, n: nat, c: Call)
    requires Inv(s, false) && n == |s.verdicts| < |s.calls| && c == s.calls[n] && WellFormed(c)
    requires s.up != [] && s.up[0] == Packet(n, false, c.cmd) && WantsData(c.cmd)
    requires s.up[1..] + s.unsent == [Packet(n, true, c.data.value)] + PacketsFrom(s.calls, n + 1)
    requires s' == s.(up := s.up[1..], busy := Some(s.up[0]), verdicts := s.verdicts + [false])
    ensures Inv(s', true)
  {
    assert s'.verdicts[..n] == s.verdicts;
  }

  lemma AnswerCommand(s: State, s': State, n: nat, c: Call, r: Result)
    requires Inv(s, false) && n == |s.verdicts| < |s.calls| && c == s.calls[n] && WellFormed(c)
    requires s.up != [] && s.up[0] == Packet(n, false, c.cmd) && Accepted(c.cmd, r) && s.busy.None?
    requires s.up[1..] + s.unsent == (if WantsData(c.cmd) then [Packet(n, true, c.data.value)] else [])
                                   + PacketsFrom(s.calls, n + 1)
    requires s' == s.(up := s.up[1..], down := s.down + [r], entries := s.entries + [Answer(n)],
                      verdicts := s.verdicts + [WantsData(c.cmd)])
    ensures Inv(s', WantsData(c.cmd))
  {
    assert s'.verdicts[..n] == s.verdicts;
    NewReply(s, s', r, Answer(n));
  }

  lemma NextKeepsInv(s: State, s': State, owed: bool) returns (owed': bool)
    requires Inv(s, owed) && Next(s, s')
    ensures Inv(s', owed')
  {
    owed' := owed;
    if c :| Issue(s, s', c) {
      IssueKeepsInv(s, s', c, owed);
    } else if Transmit(s, s') {
      TransmitKeepsInv(s, s', owed);
    } else if os :| ServeCommand(s, s', os) {
      if owed {
        ServeStrayKeepsInv(s, s', os);
        owed' := false;
      } else {
        ServeCommandKeepsInv(s, s', os);
        owed' := WantsData(s.up[0].body);
      }
    } else if os :| ServeData(s, s', os) {
      ServeDataKeepsInv(s, s', os, owed);
      owed' := false;
    } else {
      ReadKeepsInv(s, s', owed);
    }
  }

  lemma {:induction false} RunKeepsInv(ss: seq<State>, i: nat) returns (owed: bool)
    requires Run(ss) && i < |ss|
    ensures Inv(ss[i], owed)
  {
    if i == 0 {
      owed := false;
    } else {
      owed := RunKeepsInv(ss, i - 1);
      owed := NextKeepsInv(ss[i - 1], ss[i], owed);
    }
  }

  // ---------------------------------------------------------------- main results

  lemma {:induction false} LedgerSize(verdicts: seq<bool>)
    ensures |Ledger(verdicts)| == |verdicts| + Rejections(verdicts)
  {
    if verdicts != [] {
      LedgerSize(verdicts[..|verdicts| - 1]);
    }
  }

  lemma {:induction false} NoRejections(verdicts: seq<bool>)
    ensures Rejections(verdicts) == 0 <==> forall j | 0 <= j < |verdicts| :: !verdicts[j]
  {
    if verdicts != [] {
      NoRejections(verdicts[..|verdicts| - 1]);
    }
  }

  /** Reply number `k` answers call number `k` exactly when no earlier call was rejected early. */
  lemma {:induction false} LedgerAt(verdicts: seq<bool>, k: nat)
    requires k < |Ledger(verdicts)|
    ensures Ledger(verdicts)[k] == Answer(k) <==> forall j | 0 <= j < k && j < |verdicts| :: !verdicts[j]
  {
    var m := |verdicts| - 1;
    var front := verdicts[..m];
    LedgerSize(front);
    NoRejections(front);
    if k < |Ledger(front)| {
      LedgerAt(front, k);
    }
  }

  lemma EntriesArePrefix(s: State, owed: bool)
    requires Inv(s, owed)
    ensures s.entries <= Ledger(s.verdicts)
  {
  }

  /**
   * Conservation: once the client is idle and the server has drained its input, the replies that nobody
   * has read are as many as the calls that were rejected before their data packet was read.
   */
  lemma UnreadReplies(ss: seq<State>, i: nat)
    requires Run(ss) && i < |ss|
    requires !ss[i].waiting && ss[i].up == [] && ss[i].busy.None?
    ensures |ss[i].verdicts| == |ss[i].calls| == |ss[i].read|
    ensures |ss[i].down| == Rejections(ss[i].verdicts)
  {
    var s := ss[i];
    var owed := RunKeepsInv(ss, i);
    assert s.up + s.unsent == [];
    LedgerSize(s.verdicts);
  }

  /**
   * At any point of any run, the reply that call `k` has read is its own exactly when no earlier call was
   * rejected early; it is then an error or a reply of the type the call asked for.
   */
  lemma EveryCallReadsItsOwnReply(ss: seq<State>, i: nat, k: nat)
    requires Run(ss) && i < |ss| && k < |ss[i].read|
    ensures k < |ss[i].entries| && k < |ss[i].calls|
    ensures ss[i].entries[k] == Answer(k) <==> forall j | 0 <= j < k && j < |ss[i].verdicts| :: !ss[i].verdicts[j]
    ensures ss[i].entries[k] == Answer(k) ==> Accepted(ss[i].calls[k].cmd, ss[i].read[k])
  {
    var s := ss[i];
    var owed := RunKeepsInv(ss, i);
    EntriesArePrefix(s, owed);
    LedgerAt(s.verdicts, k);
    assert Fits(s, s.entries[k], (s.read + s.down)[k]);
  }

  /** A call is rejected early only if it is a write whose access check, open or seek fails. */
  lemma RejectedEarlyIff(c: Call, os: Os)
    requires WellFormed(c) && CheckSanity(c.cmd) == 0
    ensures WantsData(c.cmd) && CommandOutcome(c.cmd, os).Reply? <==>
            && c.cmd.request.op.Fileop? && c.cmd.request.op.kind == WRITE
            && (os.denied.Some? || os.noOpen.Some? || os.noSeek.Some?)
  {
  }

  /** A reply of an accepted type never makes the client report a protocol error of its own. */
  lemma AcceptedReplyIsInterpreted(cmd: RequestPacket, r: Result, h: Header, more: u32)
    requires Accepted(cmd, r) && h.kind == COREFS_RESPONSE
    ensures Interpret(h, Response(more, r), Expected(cmd))
         == if r.Error? then Signed(Negated(r.bits)) else if r.Status? then Signed(r.bits) else Signed(h.payloadSize)
  {
  }

  /**
   * One rejected write is enough: the client's next call, whatever it is, reads the refusal of the stray
   * data packet.
   */
  lemma NextCallReadsStray(ss: seq<State>, i: nat, k: nat)
    requires Run(ss) && i < |ss| && k + 1 < |ss[i].read| && k < |ss[i].verdicts| && ss[i].verdicts[k]
    requires forall j | 0 <= j < k :: !ss[i].verdicts[j]
    ensures k + 1 < |ss[i].entries|
    ensures ss[i].entries[k + 1] == Stray(k) && ss[i].read[k + 1] == Error(EPROTO)
  {
    var s := ss[i];
    var owed := RunKeepsInv(ss, i);
    EntriesArePrefix(s, owed);
    LedgerPrefix(s.verdicts, k + 1);
    LedgerSize(s.verdicts[..k]);
    NoRejections(s.verdicts[..k]);
    assert s.verdicts[..k + 1][..k] == s.verdicts[..k];
    assert Fits(s, s.entries[k + 1], (s.read + s.down)[k + 1]);
  }

  lemma {:induction false} LedgerPrefix(verdicts: seq<bool>, n: nat)
    requires n <= |verdicts|
    ensures Ledger(verdicts[..n]) <= Ledger(verdicts)
  {
    if n < |verdicts| {
      var front := verdicts[..|verdicts| - 1];
      LedgerPrefix(front, n);
      assert front[..n] == verdicts[..n];
    } else {
      assert verdicts[..n] == verdicts;
    }
  }

  // ---------------------------------------------------------------- such a run

  /** The packets of `do_write` make a call of the session. */
  lemma WriteIsWellFormed(sequence: u32, user: UserInfo, offset: u32, path: seq<byte>, data: seq<byte>)
    requires |data| + 2048 <= BUFFERSIZE
    ensures WellFormed(Call(WriteCommand(sequence, user, offset, |data|, path), Some(WriteData(sequence, user, data))))
  {
  }

  lemma Extend(ss: seq<State>, s: State) returns (more: seq<State>)
    requires Run(ss) && Next(ss[|ss| - 1], s)
    ensures Run(more) && |more| == |ss| + 1 && more[|ss|] == s
  {
    more := ss + [s];
    forall i | 0 <= i < |more| - 1 ensures Next(more[i], more[i + 1]) {
      if i < |ss| - 1 {
        assert more[i] == ss[i] && more[i + 1] == ss[i + 1];
      }
    }
  }

  /** A call with two packets whose command is rejected early, up to the client's return from it. */
  lemma RejectedCall(c: Call, os: Os, e: Result, p: Result) returns (ss: seq<State>)
    requires WellFormed(c) && c.data.Some? && WantsData(c.cmd)
    requires CommandOutcome(c.cmd, os) == Reply(e) && CommandOutcome(c.data.value, os) == Reply(p)
    ensures Run(ss) && |ss| == 7
    ensures ss[6] == State([c], [], false, [], None, [p], [e], [true], [Answer(0), Stray(0)])
  {
    var command, data := Packet(0, false, c.cmd), Packet(0, true, c.data.value);
    var s0 := State([], [], false, [], None, [], [], [], []);
    var s1 := State([c], [command, data], true, [], None, [], [], [], []);
    var s2 := State([c], [data], true, [command], None, [], [], [], []);
    var s3 := State([c], [], true, [command, data], None, [], [], [], []);
    var s4 := State([c], [], true, [data], None, [e], [], [true], [Answer(0)]);
    var s5 := State([c], [], true, [], None, [e, p], [], [true], [Answer(0), Stray(0)]);
    var s6 := State([c], [], false, [], None, [p], [e], [true], [Answer(0), Stray(0)]);
    assert Issue(s0, s1, c);
    ss := Extend([s0], s1);
    assert Transmit(s1, s2);
    ss := Extend(ss, s2);
    assert Transmit(s2, s3);
    ss := Extend(ss, s3);
    assert ServeCommand(s3, s4, os);
    ss := Extend(ss, s4);
    assert ServeCommand(s4, s5, os);
    ss := Extend(ss, s5);
    assert ReadReply(s5, s6);
    ss := Extend(ss, s6);
  }

  /** The call that comes after it. */
  lemma CallAfter(before: seq<State>, s: State, c: Call, os: Os, a: Result) returns (ss: seq<State>)
    requires Run(before) && s == before[|before| - 1]
    requires !s.waiting && s.unsent == [] && s.up == [] && s.busy.None? && |s.down| == 1 && |s.calls| == 1
    requires WellFormed(c) && !WantsData(c.cmd) && CommandOutcome(c.cmd, os) == Reply(a)
    ensures Run(ss) && |ss| == |before| + 4
    ensures ss[|before| + 3] == State(s.calls + [c], [], false, [], None, [a], s.read + [s.down[0]],
                                      s.verdicts + [false], s.entries + [Answer(1)])
  {
    var query, calls, p := Packet(1, false, c.cmd), s.calls + [c], s.down[0];
    var s1 := State(calls, [query], true, [], None, [p], s.read, s.verdicts, s.entries);
    var s2 := State(calls, [], true, [query], None, [p], s.read, s.verdicts, s.entries);
    var s3 := State(calls, [], true, [], None, [p, a], s.read, s.verdicts + [false], s.entries + [Answer(1)]);
    var s4 := State(calls, [], false, [], None, [a], s.read + [p], s.verdicts + [false], s.entries + [Answer(1)]);
    assert Issue(s, s1, c);
    ss := Extend(before, s1);
    assert Transmit(s1, s2);
    ss := Extend(ss, s2);
    assert ServeCommand(s2, s3, os);
    ss := Extend(ss, s3);
    assert ReadReply(s3, s4);
    ss := Extend(ss, s4);
  }

  /**
   * A write that is denied access, and then a call for attributes: this second call reads the refusal of
   * the data packet, while the attributes stay unread.
   */
  lemma StrayReadByGetattr() returns (ss: seq<State>)
    ensures Run(ss) && |ss| == 11
    ensures var s := ss[10];
            && s.verdicts == [true, false] && |s.calls| == 2 && Expected(s.calls[1].cmd) == RESPONSE_ATTR
            && s.read == [Error(13), Error(EPROTO)] && |s.down| == 1 && s.down[0].Attributes?
  {
    var user, attr := UserInfo(0, 0, []), Attr(0, 0, 0, 0, 0, 0, 0, 0);
    var write := Call(WriteCommand(0, user, 0, |[98]|, [97]), Some(WriteData(0, user, [98])));
    var getattr := Call(BuildFileop(1, user, GETATTR, 0, 0, [97]), None);
    var denied, granted := Os(Some(13), None, None, None, [], attr, 0, 0), Os(None, None, None, None, [], attr, 0, 0);
    WriteIsWellFormed(0, user, 0, [97], [98]);
    DataReplies(write, denied);
    ss := RejectedCall(write, denied, Error(13), Error(EPROTO));
    ss := CallAfter(ss, ss[6], getattr, granted, Attributes(attr));
  }
}
