/** The server's steps of a session, as its main loop takes them from the byte stream. */
module Service {
  import opened Bytes
  import opened Wire
  import opened PacketCode
  import opened Framing
  import opened Endpoint
  import opened Server
  import opened Session

  /** The packets are such that the server can take them. */
  ghost predicate AllFramed(ps: seq<Packet>) {
    forall i | 0 <= i < |ps| :: FramedRequest(ps[i].body)
  }

  ghost predicate FramedRequest(p: RequestPacket) {
    IsFramed(p) && FitsPacket(p.request.op) && p.header.kind == COREFS_REQUEST
  }

  /** The packets of `do_write` are. */
  lemma WriteIsFramed(sequence: u32, user: UserInfo, offset: u32, path: seq<byte>, data: seq<byte>)
    requires |user.sgids| <= MAX_COREFS_GIDS && |path| < MAX_COREFS_PATH && |data| + 2048 <= BUFFERSIZE
    ensures FramedRequest(WriteCommand(sequence, user, offset, |data|, path))
    ensures FramedRequest(WriteData(sequence, user, data))
  {
    FileopSize(sequence, user, WRITE, offset, |data|, path);
    WriteDataSize(sequence, user, data);
  }

  ghost function StreamOf(ps: seq<Packet>): seq<byte>
    requires AllFramed(ps)
  {
    if ps == [] then [] else assert FramedRequest(ps[0].body); Framed(ps[0].body) + StreamOf(ps[1..])
  }

  lemma StreamHead(ps: seq<Packet>)
    requires AllFramed(ps) && ps != []
    ensures FramedRequest(ps[0].body) && AllFramed(ps[1..])
    ensures StreamOf(ps) == Framed(ps[0].body) + StreamOf(ps[1..])
  {
  }

  /** The state after the server has taken the next packet for a command and has answered it. */
  ghost predicate Served(s: State, s': State, os: Os) {
    if s.up != [] && CommandOutcome(s.up[0].body, os).NeedData?
    then exists mid :: ServeCommand(s, mid, os) && ServeData(mid, s', os)
    else ServeCommand(s, s', os)
  }

  /** What such a step does to the queues. */
  lemma ServedStep(s: State, os: Os) returns (s': State)
    requires s.busy.None? && s.up != [] && (CommandOutcome(s.up[0].body, os).NeedData? ==> |s.up| >= 2)
    ensures Served(s, s', os)
    ensures match CommandOutcome(s.up[0].body, os)
            case Reply(r) => s'.up == s.up[1..] && s'.down == s.down + [r]
            case NeedData =>
              && s'.up == s.up[1..][1..]
              && s'.down == s.down + [DataOutcome(s.up[0].body, AsData(s.up[1].body), os)]
  {
    var p, rest := s.up[0], s.(up := s.up[1..]);
    match CommandOutcome(p.body, os)
    case Reply(r) =>
      s' := rest.(down := s.down + [r], entries := s.entries + [if p.isData then Stray(p.call) else Answer(p.call)],
                  verdicts := if p.isData then s.verdicts else s.verdicts + [WantsData(p.body)]);
    case NeedData =>
      var mid := rest.(busy := Some(p), verdicts := if p.isData then s.verdicts else s.verdicts + [false]);
      s' := mid.(up := mid.up[1..], busy := None,
                 down := mid.down + [DataOutcome(p.body, AsData(mid.up[0].body), os)],
                 entries := mid.entries + [Answer(p.call)]);
      assert ServeCommand(s, mid, os) && ServeData(mid, s', os);
  }

  /**
   * One turn of the main loop for a client: when the packets of a state are on the byte stream, what the code
   * takes from it and the reply it sends are those of the server's step, or of its two steps when it needs data.
   */
  method ServeOne(inp: Pipe, out: Outbox, buffer: array<byte>, os: Os, g: Leftover, ghost s: State)
    returns (ok: bool, ghost s': State)
    requires buffer.Length == BUFFERSIZE && s.busy.None? && s.up != []
    requires AllFramed(s.up) && inp.stream == StreamOf(s.up)
    requires CommandOutcome(s.up[0].body, os).NeedData? ==> |s.up| >= 2
    modifies inp, out, buffer
    ensures ok && Served(s, s', os)
    ensures AllFramed(s'.up) && inp.stream == StreamOf(s'.up)
    ensures |s'.down| == |s.down| + 1 && s'.down[..|s.down|] == s.down
    ensures out.packets == old(out.packets) + [ReplyPacket(s'.down[|s.down|], os.moreOffset, g)]
  {
    s' := ServedStep(s, os);
    StreamHead(s.up);
    CommandIsTaken(s.up[0].body, StreamOf(s.up[1..]), buffer[..]);
    var taken := TakeCommand(inp, buffer);
    if CommandOutcome(s.up[0].body, os).NeedData? {
      StreamHead(s.up[1..]);
      RequestReceived(s.up[1].body, StreamOf(s.up[1..][1..]));
    }
    ok := HandleCommand(inp, out, taken.packet, os, g);
  }
}
