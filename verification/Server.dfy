/** How the server answers one command (server.c), with the operating system's answers as a parameter. */
module Server {
  import opened Bytes
  import opened Wire
  import opened PacketCode
  import opened Framing
  import opened Endpoint
  import opened Sequences

  const ENAMETOOLONG := 36
  const EUSERS := 87
  const EOPNOTSUPP := 95

  const READ: u32 := 27
  const READDIR: u32 := 29
  const GETATTR: u32 := 30
  const READLINK: u32 := 85

  const SETXATTR: u32 := 226
  const GETXATTR: u32 := 229
  const REMOVEXATTR: u32 := 232
  const LISTXATTR: u32 := 235

  /** Magic number, number of gids and path lengths are as they should be. */
  ghost predicate Sane(p: RequestPacket) {
    && p.header.magic == 0xDEADBEEF && |p.request.user.sgids| <= 32
    && (p.request.op.Fileop? ==> |p.request.op.path| <= 4096)
    && (p.request.op.Simple? ==> |p.request.op.path1| <= 4096 && |p.request.op.path2| <= 4096)
  }

  const SIMPLE_KINDS: set<u32> := {90, 91, 92, 93, 94, 95, 96, 98, 100, 101, 102, 103, 104}

  /**
   * What access check and system calls answer: an error number where they fail (denied access, opening,
   * seeking, the operation itself), and what they produce where they succeed.
   */
  datatype Os = Os(denied: Option<Errno>, noOpen: Option<Errno>, noSeek: Option<Errno>, failed: Option<Errno>,
                   data: seq<byte>, attr: Attr, moreOffset: u32, value: u32)

  type Errno = e: int | -0x8000_0000 <= e < 0x8000_0000

  /** `NeedData`: the handler goes on to receive a second packet before it answers. */
  datatype Outcome = Reply(result: Result) | NeedData

  /** `check_sanity`: 0, or what is handed to `error_reply`. */
  function CheckSanity(p: RequestPacket): (e: int)
    ensures e in {0, -1, 36, 87}
    ensures e == 0 <==> Sane(p)
    ensures e == -1 <==> p.header.magic != 0xDEADBEEF
    ensures e == 87 <==> p.header.magic == 0xDEADBEEF && |p.request.user.sgids| > 32
  {
    if p.header.magic != COREFS_MAGIC then -1
    else if MAX_COREFS_GIDS < |p.request.user.sgids| then EUSERS
    else match p.request.op
      case Fileop(_, _, _, path) => if MAX_COREFS_PATH < |path| then ENAMETOOLONG else 0
      case Simple(_, _, _, path1, path2) =>
        if MAX_COREFS_PATH < |path1| || MAX_COREFS_PATH < |path2| then ENAMETOOLONG else 0
      case _ => 0
  }

  /** The error of a check that failed, or what follows it. */
  function Checked(failure: Option<Errno>, next: Result): Result {
    if failure.Some? then Error(Unsigned(failure.value)) else next
  }

  function FileopOutcome(op: Operation, os: Os): Outcome
    requires op.Fileop?
  {
    if op.kind == GETATTR then Reply(Checked(os.denied, Checked(os.failed, Attributes(os.attr))))
    else if op.kind == READ then Reply(Checked(os.denied, Checked(os.noOpen, Checked(os.noSeek, Checked(os.failed, Data(os.data))))))
    else if op.kind == WRITE then
      if os.denied.Some? || os.noOpen.Some? || os.noSeek.Some?
      then Reply(Checked(os.denied, Checked(os.noOpen, Checked(os.noSeek, Status(0)))))
      else NeedData
    else if op.kind == READDIR then
      Reply(Checked(os.denied, Checked(os.noOpen, if os.moreOffset != 0 then MoreData(os.data) else Data(os.data))))
    else if op.kind == READLINK then Reply(Checked(os.denied, Checked(os.failed, Data(os.data))))
    else Reply(Error(EOPNOTSUPP))
  }

  function SimpleOutcome(op: Operation, os: Os): Outcome
    requires op.Simple?
  {
    Reply(if op.kind in SIMPLE_KINDS then Checked(os.denied, Checked(os.failed, Status(0))) else Error(EOPNOTSUPP))
  }

  function XattrOutcome(op: Operation, os: Os): Outcome
    requires op.Xattr?
  {
    if op.kind == SETXATTR then NeedData
    else if op.kind == GETXATTR || op.kind == LISTXATTR then
      Reply(Checked(os.denied, Checked(os.failed, if op.valueSize == 0 then Status(os.value) else Data(os.data))))
    else if op.kind == REMOVEXATTR then Reply(Checked(os.denied, Checked(os.failed, Status(os.value))))
    else Reply(Error(EOPNOTSUPP))
  }

  /** `handle_command`. */
  function CommandOutcome(p: RequestPacket, os: Os): Outcome {
    var sanity := CheckSanity(p);
    if sanity != 0 then Reply(Error(Unsigned(sanity))) else
    match p.request.op
    case Fileop(_, _, _, _) => FileopOutcome(p.request.op, os)
    case Simple(_, _, _, _, _) => SimpleOutcome(p.request.op, os)
    case Xattr(_, _, _, _, _, _) => XattrOutcome(p.request.op, os)
    case _ => Reply(Error(EPROTO))
  }

  /** The size of the data a two-packet command announces. */
  function Announced(cmd: RequestPacket): u32 {
    match cmd.request.op
    case Fileop(_, _, size, _) => size
    case Xattr(_, _, valueSize, _, _, _) => valueSize
    case _ => 0
  }

  /** The second packet is data of the announced size; `None` is a packet that is no request. */
  predicate IsAnnouncedData(cmd: RequestPacket, received: Option<RequestPacket>) {
    && received.Some? && received.value.request.op.Raw?
    && received.value.header.payloadSize - RequestBaseSize(|received.value.request.user.sgids|) == Announced(cmd)
  }

  /** The second half of `handle_write` and `handle_setxattr`. */
  function DataOutcome(cmd: RequestPacket, received: Option<RequestPacket>, os: Os): Result {
    if !IsAnnouncedData(cmd, received) then Error(EPROTO)
    else if cmd.request.op.Xattr? then Checked(os.denied, Checked(os.failed, Status(0)))
    else Checked(os.failed, Status(0))
  }

  /** Where the operation of a request lies in the packet structure, behind room for all supplementary gids. */
  const OP_OFFSET := HEADER_SIZE + 16 + 4 * MAX_COREFS_GIDS

  /** Decoding stores the operation into a structure in another buffer of BUFFERSIZE bytes. */
  predicate FitsPacket(op: Operation) {
    match op
    case Raw(data) => OP_OFFSET + |data| <= BUFFERSIZE
    case Xattr(_, _, _, _, _, params) => OP_OFFSET + 20 + |params| <= BUFFERSIZE
    case _ => true
  }

  /** What `server_receive_specified` gets; a packet that is no request is taken, but `None`. */
  datatype Arrival = Overrun | Arrival(request: Option<RequestPacket>)

  /** `server_receive_specified` on a stream; `Overrun` where a length read drives the code out of a buffer. */
  function ReceivedRequest(s: seq<byte>): Arrival {
    if !FitsIn(s, BUFFERSIZE) then Overrun else
    var buf := Received(s, Zeros(BUFFERSIZE)).1;
    var h := ReadHostHeader(buf);
    if h.kind != COREFS_REQUEST then Arrival(None) else
    match DecodeRequest(buf[HEADER_SIZE..], h.payloadSize)
    case None => Overrun
    case Some((r, _)) => if FitsPacket(r.op) then Arrival(Some(RequestPacket(h, r))) else Overrun
  }

  lemma ArrivalOf(s: seq<byte>, h: Header, tail: seq<byte>)
    requires FitsIn(s, BUFFERSIZE)
    requires Received(s, Zeros(BUFFERSIZE)).1 == HostHeader(h) + tail && h.kind == COREFS_REQUEST
    ensures ReceivedRequest(s) == match DecodeRequest(tail, h.payloadSize)
                                  case None => Overrun
                                  case Some((r, _)) =>
                                    if FitsPacket(r.op) then Arrival(Some(RequestPacket(h, r))) else Overrun
  {
    HostHeaderRoundTrip(h, tail);
    assert (HostHeader(h) + tail)[HEADER_SIZE..] == tail;
  }

  /** A request as the build functions frame it. */
  ghost predicate IsFramed(p: RequestPacket) {
    && Storable(p.request) && |EncodeRequest(p.request)| <= p.header.payloadSize
    && (p.request.op.Raw? ==> |EncodeRequest(p.request)| == p.header.payloadSize)
    && HEADER_SIZE + p.header.payloadSize <= BUFFERSIZE
  }

  /** A framed request is taken whole into any buffer, nothing behind it is touched, and it decodes to what was sent. */
  lemma FramedReceived(p: RequestPacket, rest: seq<byte>, was: seq<byte>) returns (tail: seq<byte>)
    requires IsFramed(p) && |was| == BUFFERSIZE
    ensures FitsIn(Framed(p) + rest, BUFFERSIZE) && Rest(Framed(p) + rest) == rest
    ensures Received(Framed(p) + rest, was) == (HEADER_SIZE + p.header.payloadSize, HostHeader(p.header) + tail)
    ensures DecodeRequest(tail, p.header.payloadSize) == Some((p.request, |EncodeRequest(p.request)|))
  {
    var e := EncodeRequest(p.request);
    var fill := Zeros(p.header.payloadSize - |e|);
    var payload, left := e + fill, was[HEADER_SIZE + p.header.payloadSize..];
    tail := payload + left;
    Associative(EncodeHeader(p.header), e, fill);
    PayloadReceived(p.header, payload, rest, was);
    Halves(Framed(p), rest);
    Associative(e, fill, left);
    RequestRoundTrip(p.request, fill + left, p.header.payloadSize);
  }

  /** A request packet on the wire is received whole, and nothing behind it is touched. */
  lemma RequestReceived(p: RequestPacket, rest: seq<byte>)
    requires IsFramed(p) && p.header.kind == COREFS_REQUEST
    ensures ReceivedRequest(Framed(p) + rest) == if FitsPacket(p.request.op) then Arrival(Some(p)) else Overrun
    ensures Rest(Framed(p) + rest) == rest
    ensures ReceivedRequest(Framed(p) + rest).Overrun? <==>
            || (p.request.op.Raw? && 160 + |p.request.op.data| > 133120)
            || (p.request.op.Xattr? && 180 + |p.request.op.params| > 133120)
  {
    var tail := FramedReceived(p, rest, Zeros(BUFFERSIZE));
    ArrivalOf(Framed(p) + rest, p.header, tail);
  }

  method ServerReceive(pipe: Pipe) returns (r: Arrival)
    modifies pipe
    ensures r == ReceivedRequest(old(pipe.stream))
    ensures r.Arrival? ==> pipe.stream == Rest(old(pipe.stream))
  {
    var buf := new byte[BUFFERSIZE](_ => 0);
    assert buf[..] == Zeros(BUFFERSIZE);
    var ok, got := MyReceive(pipe, buf);
    if !ok {
      return Overrun;
    }
    var h := LoadHostHeader(buf);
    if h.kind != COREFS_REQUEST {
      return Arrival(None);
    }
    var decoded := DecapRequest(buf, HEADER_SIZE, h.payloadSize);
    match decoded
    case None => r := Overrun;
    case Some((request, _)) => r := if FitsPacket(request.op) then Arrival(Some(RequestPacket(h, request))) else Overrun;
  }

  // ---------------------------------------------------------------- the packet that the main loop takes

  /** `Gone`: the connection has ended, and the server forgets the client. */
  datatype Taken = Gone | NoRoom | Command(packet: RequestPacket)

  /**
   * The receive of the main loop, into a buffer that held `was`. Here a failed receive is seen, and the kind
   * of the packet is not looked at.
   */
  function TakenFrom(s: seq<byte>, was: seq<byte>): Taken
    requires |was| == BUFFERSIZE
  {
    if !FitsIn(s, BUFFERSIZE) then NoRoom else
    var (ret, buf) := Received(s, was);
    if ret <= 0 then Gone else
    var h := ReadHostHeader(buf);
    match DecodeRequest(buf[HEADER_SIZE..], h.payloadSize)
    case None => NoRoom
    case Some((r, _)) => if FitsPacket(r.op) then Command(RequestPacket(h, r)) else NoRoom
  }

  method TakeCommand(pipe: Pipe, buffer: array<byte>) returns (c: Taken)
    requires buffer.Length == BUFFERSIZE
    modifies pipe, buffer
    ensures c == TakenFrom(old(pipe.stream), old(buffer[..]))
    ensures !c.NoRoom? ==> pipe.stream == Rest(old(pipe.stream))
  {
    var ok, got := MyReceive(pipe, buffer);
    if !ok {
      return NoRoom;
    }
    if got <= 0 {
      return Gone;
    }
    var h := LoadHostHeader(buffer);
    var decoded := DecapRequest(buffer, HEADER_SIZE, h.payloadSize);
    match decoded
    case None => c := NoRoom;
    case Some((r, _)) => c := if FitsPacket(r.op) then Command(RequestPacket(h, r)) else NoRoom;
  }

  /** A framed command is taken whole, and nothing behind it is touched. */
  lemma CommandIsTaken(p: RequestPacket, rest: seq<byte>, was: seq<byte>)
    requires IsFramed(p) && |was| == BUFFERSIZE
    ensures TakenFrom(Framed(p) + rest, was) == if FitsPacket(p.request.op) then Command(p) else NoRoom
    ensures Rest(Framed(p) + rest) == rest
  {
    var tail := FramedReceived(p, rest, was);
    HostHeaderRoundTrip(p.header, tail);
    Halves(HostHeader(p.header), tail);
  }

  /** A command cut by a broken connection is not handled: the client is forgotten. */
  lemma CutCommandIsDropped(p: RequestPacket, cut: nat, was: seq<byte>)
    requires IsFramed(p) && |was| == BUFFERSIZE && cut < |Framed(p)|
    ensures TakenFrom(Framed(p)[..cut], was) == Gone
  {
    var s, payload := Framed(p)[..cut], EncodeRequest(p.request) + Zeros(p.header.payloadSize - |EncodeRequest(p.request)|);
    if HEADER_SIZE <= cut {
      assert s == EncodeHeader(p.header) + payload[..cut - HEADER_SIZE];
      HeaderRoundTrip(p.header, payload[..cut - HEADER_SIZE]);
    }
  }

  // ---------------------------------------------------------------- a data packet cut short by a broken connection

  /** The first `n` bytes of `data`, and zeros for the others. */
  function CutBytes(data: seq<byte>, n: int): seq<byte> {
    if n <= 0 then Zeros(|data|) else if |data| <= n then data else data[..n] + Zeros(|data| - n)
  }

  /** A data packet as the client builds it. */
  ghost predicate IsDataPacket(p: RequestPacket) {
    && p.header.kind == COREFS_REQUEST && p.request.op.Raw? && p.request.user.sgids == []
    && p.header.payloadSize == RequestBaseSize(0) + |p.request.op.data| && FitsPacket(p.request.op)
  }

  lemma DataPacketSize(p: RequestPacket)
    requires IsDataPacket(p)
    ensures Storable(p.request) && |EncodeRequest(p.request)| == p.header.payloadSize
    ensures |SentRequest(p)| == HEADER_SIZE + p.header.payloadSize
  {
    EncodedSize(p.request);
  }

  /**
   * The guard that lets cut replies pass at the client lets cut data pass at the server: once the type word
   * has arrived the packet is taken for the data announced, and the bytes that have not arrived are zero.
   */
  lemma CutData(p: RequestPacket, cmd: RequestPacket, cut: nat)
    requires IsDataPacket(p) && Announced(cmd) == |p.request.op.data| && cut < HEADER_SIZE + p.header.payloadSize
    ensures Storable(p.request) && |SentRequest(p)| == HEADER_SIZE + p.header.payloadSize
    ensures var got := ReceivedRequest(SentRequest(p)[..cut]);
            && got.Arrival?
            && (IsAnnouncedData(cmd, got.request) <==> HEADER_SIZE + 4 <= cut)
            && (HEADER_SIZE + 4 <= cut ==>
                  got.request.value.request.op
                  == Raw(CutBytes(p.request.op.data, cut - HEADER_SIZE - RequestBaseSize(0))))
  {
    DataPacketSize(p);
    if cut < HEADER_SIZE {
      CutDataHeader(p, cut);
    } else {
      CutDataPayload(p, cmd, cut);
    }
  }

  lemma CutDataHeader(p: RequestPacket, cut: nat)
    requires p.header.kind == COREFS_REQUEST && cut < HEADER_SIZE && Storable(p.request)
    ensures ReceivedRequest(SentRequest(p)[..cut]) == Arrival(None)
  {
    var s, zeros := SentRequest(p)[..cut], Zeros(BUFFERSIZE);
    assert s == EncodeHeader(p.header)[..cut];
    assert Received(s, zeros).1 == s + zeros[cut..];
    HeaderUnread(p.header, cut, zeros[cut..]);
  }

  lemma CutDataPayload(p: RequestPacket, cmd: RequestPacket, cut: nat)
    requires IsDataPacket(p) && Storable(p.request) && HEADER_SIZE <= cut < |SentRequest(p)|
    requires Announced(cmd) == |p.request.op.data|
    ensures var got := ReceivedRequest(SentRequest(p)[..cut]);
            && got.Arrival?
            && (IsAnnouncedData(cmd, got.request) <==> HEADER_SIZE + 4 <= cut)
            && (HEADER_SIZE + 4 <= cut ==>
                  got.request.value.request.op
                  == Raw(CutBytes(p.request.op.data, cut - HEADER_SIZE - RequestBaseSize(0))))
  {
    DataPacketSize(p);
    var k, e, zeros := cut - HEADER_SIZE, EncodeRequest(p.request), Zeros(BUFFERSIZE);
    var s := EncodeHeader(p.header) + e[..k] + [];
    assert SentRequest(p)[..cut] == s;
    PayloadReceived(p.header, e[..k], [], zeros);
    ArrivalOf(s, p.header, e[..k] + zeros[cut..]);
    CutDataWords(p.request, k, zeros[cut..]);
    CutDataBytes(p.request, k, zeros[cut..]);
    DecodedData(e[..k] + zeros[cut..], p.header.payloadSize);
  }

  lemma CutDataWords(r: Request, k: nat, zeros: seq<byte>)
    requires Storable(r) && r.op.Raw? && r.user.sgids == [] && |EncodeRequest(r)| == 16 + |r.op.data|
    requires k < |EncodeRequest(r)| <= k + |zeros| && forall i | 0 <= i < |zeros| :: zeros[i] == 0
    ensures var t := EncodeRequest(r)[..k] + zeros;
            BigWord(t, 0) == (if k < 4 then 0 else REQUEST_DATA) && BigWord(t, 12) == 0
  {
    var e := EncodeRequest(r);
    NothingAfter(e);
    RequestWordAt(r, [], 0);
    RequestWordAt(r, [], 3);
    CutWord(e, k, zeros, 0);
    CutWord(e, k, zeros, 12);
    ArrivedSmall(REQUEST_DATA, k);
    ArrivedSmall(0, k - 12);
  }

  lemma CutDataBytes(r: Request, k: nat, zeros: seq<byte>)
    requires Storable(r) && r.op.Raw? && r.user.sgids == [] && |EncodeRequest(r)| == 16 + |r.op.data|
    requires k < |EncodeRequest(r)| <= k + |zeros| && forall i | 0 <= i < |zeros| :: zeros[i] == 0
    ensures (EncodeRequest(r)[..k] + zeros)[16..|EncodeRequest(r)|] == CutBytes(r.op.data, k - 16)
  {
    var e, data := EncodeRequest(r), r.op.data;
    OpTailAt(r, e, []);
    assert e + [] == e;
    assert forall i | 0 <= i < |data| :: e[16 + i] == e[16..][i] == data[i];
  }

  lemma DecodedData(t: seq<byte>, payloadSize: nat)
    requires 16 <= payloadSize <= |t| && BigWord(t, 12) == 0 && BigWord(t, 0) in {0, REQUEST_DATA}
    ensures var d := DecodeRequest(t, payloadSize);
            && d.Some? && d.value.0.user.sgids == []
            && d.value.0.op == if BigWord(t, 0) == 0 then Other(0) else Raw(t[16..payloadSize])
  {
  }

  /** A write whose data is cut is answered as if all of it had arrived. */
  lemma CutWriteIsAnswered(sequence: u32, user: UserInfo, offset: u32, path: seq<byte>, data: seq<byte>, cut: nat, os: Os)
    requires |data| + 2048 <= BUFFERSIZE && cut < 32 + |data|
    ensures Storable(WriteData(sequence, user, data).request)
    ensures |SentRequest(WriteData(sequence, user, data))| == 32 + |data|
    ensures var cmd, p := WriteCommand(sequence, user, offset, |data|, path), WriteData(sequence, user, data);
            var got := ReceivedRequest(SentRequest(p)[..cut]);
            && got.Arrival?
            && DataOutcome(cmd, got.request, os) == (if cut < 20 then Error(EPROTO) else DataOutcome(cmd, Some(p), os))
            && (20 <= cut ==> got.request.Some? && got.request.value.request.op == Raw(CutBytes(data, cut - 32)))
  {
    var cmd, p := WriteCommand(sequence, user, offset, |data|, path), WriteData(sequence, user, data);
    WriteDataSize(sequence, user, data);
    CutData(p, cmd, cut);
  }

  // ---------------------------------------------------------------- handlers
  // `Outbox` takes whole replies: by `Endpoint.SendResponse` and `Endpoint.CompleteReply` they cross whole.

  /** What the fields of `g_buffer` that a reply does not set held before. */
  datatype Leftover = Leftover(sequence: u32, moreOffset: u32)

  class Outbox {
    var packets: seq<ResponsePacket>

    constructor ()
      ensures packets == []
    {
      packets := [];
    }

    method Send(p: ResponsePacket)
      modifies this
      ensures packets == old(packets) + [p]
    {
      packets := packets + [p];
    }

    method SendError(errno: Errno, g: Leftover)
      modifies this
      ensures packets == old(packets) + [BuildStatus(g.sequence, Unsigned(errno), true, g.moreOffset)]
    {
      Send(BuildStatus(g.sequence, Unsigned(errno), true, g.moreOffset));
    }
  }

  /** The packet a result travels in; only a paged directory reply has a resume offset of its own. */
  function ReplyPacket(r: Result, more: u32, g: Leftover): ResponsePacket {
    match r
    case Data(data) => BuildResponseData(g.sequence, data)
    case MoreData(data) => BuildMoreData(g.sequence, data, more)
    case Status(bits) => BuildStatus(g.sequence, bits, false, g.moreOffset)
    case Error(bits) => BuildStatus(g.sequence, bits, true, g.moreOffset)
    case Attributes(attr) => BuildAttr(g.sequence, attr, g.moreOffset)
    case Unknown(tag) => ResponsePacket(ResponseHeader(g.sequence, 8), Response(g.moreOffset, r))
  }

  /** Exactly one reply. */
  twostate predicate Answered(out: Outbox, r: Result, os: Os, g: Leftover)
    reads out
  {
    out.packets == old(out.packets) + [ReplyPacket(r, os.moreOffset, g)]
  }

  /**
   * Exactly one reply, and a second packet taken from the connection when the outcome needs data and in no
   * other case. `ok` is false where that packet drives the code out of a buffer.
   */
  twostate predicate Handled(outcome: Outcome, inp: Pipe, out: Outbox, cmd: RequestPacket, os: Os, g: Leftover, ok: bool)
    reads inp, out
  {
    match outcome
    case Reply(r) => ok && inp.stream == old(inp.stream) && Answered(out, r, os, g)
    case NeedData =>
      match ReceivedRequest(old(inp.stream))
      case Overrun => !ok
      case Arrival(request) =>
        ok && inp.stream == Rest(old(inp.stream)) && Answered(out, DataOutcome(cmd, request, os), os, g)
  }

  // ---------------------------------------------------------------- the answers, field by field

  ghost function ReplyHeader(payload: nat, g: Leftover): Header {
    Header(0xDEADBEEF, 0xBB, g.sequence, payload % 0x1_0000_0000)
  }

  ghost function ErrorPacket(e: Errno, g: Leftover): ResponsePacket {
    ResponsePacket(ReplyHeader(12, g), Response(g.moreOffset, Error(if e < 0 then 0x1_0000_0000 + e else e)))
  }

  ghost function StatusPacket(bits: u32, g: Leftover): ResponsePacket {
    ResponsePacket(ReplyHeader(12, g), Response(g.moreOffset, Status(bits)))
  }

  ghost function DataPacket(data: seq<byte>, g: Leftover): ResponsePacket {
    ResponsePacket(ReplyHeader(8 + |data|, g), Response(0, Data(data)))
  }

  ghost function PagePacket(data: seq<byte>, more: u32, g: Leftover): ResponsePacket {
    ResponsePacket(ReplyHeader(8 + |data|, g), if more != 0 then Response(more, MoreData(data)) else Response(0, Data(data)))
  }

  ghost function AttrPacket(attr: Attr, g: Leftover): ResponsePacket {
    ResponsePacket(ReplyHeader(40, g), Response(g.moreOffset, Attributes(attr)))
  }

  /** The first step that fails. */
  ghost predicate FailsFirst(steps: seq<Option<Errno>>, i: nat) {
    i < |steps| && steps[i].Some? && forall j | 0 <= j < i :: steps[j].None?
  }

  /** The packet `p` reports the first of the steps that failed, and is `success` when none did. */
  ghost predicate Reports(p: ResponsePacket, steps: seq<Option<Errno>>, success: ResponsePacket, g: Leftover) {
    && (forall i: nat | FailsFirst(steps, i) :: p == ErrorPacket(steps[i].value, g))
    && ((forall i | 0 <= i < |steps| :: steps[i].None?) ==> p == success)
  }

  /** What a command that travels in one packet is answered with. */
  ghost predicate AnswerTo(p: ResponsePacket, op: Operation, os: Os, g: Leftover) {
    match op
    case Fileop(kind, _, _, _) =>
      if kind == 27 then Reports(p, [os.denied, os.noOpen, os.noSeek, os.failed], DataPacket(os.data, g), g)
      else if kind == 29 then Reports(p, [os.denied, os.noOpen], PagePacket(os.data, os.moreOffset, g), g)
      else if kind == 30 then Reports(p, [os.denied, os.failed], AttrPacket(os.attr, g), g)
      else if kind == 85 then Reports(p, [os.denied, os.failed], DataPacket(os.data, g), g)
      else p == ErrorPacket(95, g)
    case Simple(kind, _, _, _, _) =>
      if kind in {90, 91, 92, 93, 94, 95, 96, 98, 100, 101, 102, 103, 104}
      then Reports(p, [os.denied, os.failed], StatusPacket(0, g), g)
      else p == ErrorPacket(95, g)
    case Xattr(kind, _, valueSize, _, _, _) =>
      if kind == 232 || (kind in {229, 235} && valueSize == 0)
      then Reports(p, [os.denied, os.failed], StatusPacket(os.value, g), g)
      else if kind in {229, 235} then Reports(p, [os.denied, os.failed], DataPacket(os.data, g), g)
      else p == ErrorPacket(95, g)
    case _ => p == ErrorPacket(71, g)
  }

  /** What follows a write or setxattr when its second packet has come: that packet must be data of the given size. */
  ghost predicate AnswerToData(p: ResponsePacket, size: nat, received: Option<RequestPacket>,
                               steps: seq<Option<Errno>>, g: Leftover) {
    if received.Some? && received.value.request.op.Raw? &&
       received.value.header.payloadSize == size + 16 + 4 * |received.value.request.user.sgids|
    then Reports(p, steps, StatusPacket(0, g), g)
    else p == ErrorPacket(71, g)
  }

  /** One reply more, and nothing taken from the connection. */
  twostate predicate AnsweredAtOnce(inp: Pipe, out: Outbox, ok: bool)
    reads inp, out
  {
    && ok && inp.stream == old(inp.stream)
    && |out.packets| == |old(out.packets)| + 1 && out.packets[..|old(out.packets)|] == old(out.packets)
  }

  /** One reply more, to the second packet that was taken; `ok` is false where that leaves a buffer. */
  twostate predicate AnsweredAfterData(inp: Pipe, out: Outbox, size: nat, steps: seq<Option<Errno>>, g: Leftover, ok: bool)
    reads inp, out
  {
    match ReceivedRequest(old(inp.stream))
    case Overrun => !ok
    case Arrival(request) =>
      && ok && inp.stream == Rest(old(inp.stream))
      && |out.packets| == |old(out.packets)| + 1 && out.packets[..|old(out.packets)|] == old(out.packets)
      && AnswerToData(out.packets[|old(out.packets)|], size, request, steps, g)
  }

  /** One reply more, which reports on the steps. */
  twostate predicate Answers(out: Outbox, steps: seq<Option<Errno>>, success: ResponsePacket, g: Leftover)
    reads out
  {
    && |out.packets| == |old(out.packets)| + 1 && out.packets[..|old(out.packets)|] == old(out.packets)
    && Reports(out.packets[|old(out.packets)|], steps, success, g)
  }

  lemma {:induction false} ReportsAtOnce(a: Option<Errno>, steps: seq<Option<Errno>>, success: ResponsePacket, g: Leftover)
    requires a.Some?
    ensures Reports(ErrorPacket(a.value, g), [a] + steps, success, g)
  {
    var all := [a] + steps;
    assert all[0] == a;
    assert forall i: nat | FailsFirst(all, i) :: i == 0;
  }

  lemma {:induction false} ReportsLater(a: Option<Errno>, steps: seq<Option<Errno>>, p: ResponsePacket,
                                        success: ResponsePacket, g: Leftover)
    requires a.None? && Reports(p, steps, success, g)
    ensures Reports(p, [a] + steps, success, g)
  {
    var all := [a] + steps;
    assert all[0] == a && forall j | 0 <= j < |steps| :: all[j + 1] == steps[j];
    forall i: nat | FailsFirst(all, i) ensures p == ErrorPacket(all[i].value, g) {
      assert FailsFirst(steps, i - 1);
    }
    if forall i | 0 <= i < |all| :: all[i].None? {
      assert forall j | 0 <= j < |steps| :: steps[j] == all[j + 1];
    }
  }

  /** One check more in front of steps that are reported on. */
  lemma ReportedBehind(a: Option<Errno>, next: Result, steps: seq<Option<Errno>>, os: Os, g: Leftover,
                       success: ResponsePacket)
    requires Reports(ReplyPacket(next, os.moreOffset, g), steps, success, g)
    ensures Reports(ReplyPacket(Checked(a, next), os.moreOffset, g), [a] + steps, success, g)
  {
    if a.Some? {
      ErrorPacketIs(a.value, os.moreOffset, g);
      ReportsAtOnce(a, steps, success, g);
    } else {
      ReportsLater(a, steps, ReplyPacket(next, os.moreOffset, g), success, g);
    }
  }

  lemma ErrorPacketIs(e: Errno, more: u32, g: Leftover)
    ensures ReplyPacket(Error(Unsigned(e)), more, g) == ErrorPacket(e, g)
  {
  }

  lemma ReportedOne(a: Option<Errno>, r: Result, os: Os, g: Leftover, success: ResponsePacket)
    requires success == ReplyPacket(r, os.moreOffset, g)
    ensures Reports(ReplyPacket(Checked(a, r), os.moreOffset, g), [a], success, g)
  {
    ReportedBehind(a, r, [], os, g, success);
    assert [a] + [] == [a];
  }

  lemma ReportedTwo(a: Option<Errno>, b: Option<Errno>, r: Result, os: Os, g: Leftover, success: ResponsePacket)
    requires success == ReplyPacket(r, os.moreOffset, g)
    ensures Reports(ReplyPacket(Checked(a, Checked(b, r)), os.moreOffset, g), [a, b], success, g)
  {
    ReportedOne(b, r, os, g, success);
    ReportedBehind(a, Checked(b, r), [b], os, g, success);
    assert [a] + [b] == [a, b];
  }

  lemma ReportedThree(a: Option<Errno>, b: Option<Errno>, c: Option<Errno>, r: Result, os: Os, g: Leftover,
                      success: ResponsePacket)
    requires success == ReplyPacket(r, os.moreOffset, g)
    ensures Reports(ReplyPacket(Checked(a, Checked(b, Checked(c, r))), os.moreOffset, g), [a, b, c], success, g)
  {
    ReportedTwo(b, c, r, os, g, success);
    ReportedBehind(a, Checked(b, Checked(c, r)), [b, c], os, g, success);
    assert [a] + [b, c] == [a, b, c];
  }

  lemma ReportedFour(a: Option<Errno>, b: Option<Errno>, c: Option<Errno>, d: Option<Errno>, r: Result, os: Os,
                     g: Leftover, success: ResponsePacket)
    requires success == ReplyPacket(r, os.moreOffset, g)
    ensures Reports(ReplyPacket(Checked(a, Checked(b, Checked(c, Checked(d, r)))), os.moreOffset, g), [a, b, c, d],
                    success, g)
  {
    ReportedThree(b, c, d, r, os, g, success);
    ReportedBehind(a, Checked(b, Checked(c, Checked(d, r))), [b, c, d], os, g, success);
    assert [a] + [b, c, d] == [a, b, c, d];
  }

  lemma FileopAnswers(op: Operation, os: Os, g: Leftover)
    requires op.Fileop?
    ensures var outcome := FileopOutcome(op, os);
            && (outcome.NeedData? <==> op.kind == 28 && os.denied.None? && os.noOpen.None? && os.noSeek.None?)
            && (outcome.Reply? ==>
                  var q := ReplyPacket(outcome.result, os.moreOffset, g);
                  if op.kind == 28 then Reports(q, [os.denied, os.noOpen, os.noSeek], StatusPacket(0, g), g)
                  else AnswerTo(q, op, os, g))
  {
    ReportedFour(os.denied, os.noOpen, os.noSeek, os.failed, Data(os.data), os, g, DataPacket(os.data, g));
    ReportedThree(os.denied, os.noOpen, os.noSeek, Status(0), os, g, StatusPacket(0, g));
    ReportedTwo(os.denied, os.noOpen, if os.moreOffset != 0 then MoreData(os.data) else Data(os.data), os, g,
             PagePacket(os.data, os.moreOffset, g));
    ReportedTwo(os.denied, os.failed, Attributes(os.attr), os, g, AttrPacket(os.attr, g));
    ReportedTwo(os.denied, os.failed, Data(os.data), os, g, DataPacket(os.data, g));
  }

  lemma SimpleAnswers(op: Operation, os: Os, g: Leftover)
    requires op.Simple?
    ensures AnswerTo(ReplyPacket(SimpleOutcome(op, os).result, os.moreOffset, g), op, os, g)
  {
    ReportedTwo(os.denied, os.failed, Status(0), os, g, StatusPacket(0, g));
  }

  lemma XattrAnswers(op: Operation, os: Os, g: Leftover)
    requires op.Xattr?
    ensures var outcome := XattrOutcome(op, os);
            && (outcome.NeedData? <==> op.kind == 226)
            && (outcome.Reply? ==> AnswerTo(ReplyPacket(outcome.result, os.moreOffset, g), op, os, g))
  {
    ReportedTwo(os.denied, os.failed, Data(os.data), os, g, DataPacket(os.data, g));
    ReportedTwo(os.denied, os.failed, Status(os.value), os, g, StatusPacket(os.value, g));
  }

  /** The outcome of a command is the answer that the system calls call for. */
  lemma OutcomeAnswers(p: RequestPacket, os: Os, g: Leftover)
    requires Sane(p)
    ensures var outcome := CommandOutcome(p, os);
            && (outcome.NeedData? <==>
                  || (p.request.op.Fileop? && p.request.op.kind == 28 &&
                      os.denied.None? && os.noOpen.None? && os.noSeek.None?)
                  || (p.request.op.Xattr? && p.request.op.kind == 226))
            && (outcome.Reply? ==>
                  var q := ReplyPacket(outcome.result, os.moreOffset, g);
                  if p.request.op.Fileop? && p.request.op.kind == 28
                  then Reports(q, [os.denied, os.noOpen, os.noSeek], StatusPacket(0, g), g)
                  else AnswerTo(q, p.request.op, os, g))
  {
    match p.request.op
    case Fileop(_, _, _, _) => FileopAnswers(p.request.op, os, g);
    case Simple(_, _, _, _, _) => SimpleAnswers(p.request.op, os, g);
    case Xattr(_, _, _, _, _, _) => XattrAnswers(p.request.op, os, g);
    case _ =>
  }

  lemma DataAnswers(p: RequestPacket, received: Option<RequestPacket>, os: Os, g: Leftover)
    ensures var q := ReplyPacket(DataOutcome(p, received, os), os.moreOffset, g);
            && (p.request.op.Fileop? ==> AnswerToData(q, p.request.op.size, received, [os.failed], g))
            && (p.request.op.Xattr? ==> AnswerToData(q, p.request.op.valueSize, received, [os.denied, os.failed], g))
  {
    ReportedOne(os.failed, Status(0), os, g, StatusPacket(0, g));
    ReportedTwo(os.denied, os.failed, Status(0), os, g, StatusPacket(0, g));
  }

  method HandleRead(out: Outbox, cmd: RequestPacket, os: Os, g: Leftover)
    requires cmd.request.op.Fileop? && cmd.request.op.kind == READ
    modifies out
    ensures Answered(out, FileopOutcome(cmd.request.op, os).result, os, g)
    ensures Answers(out, [os.denied, os.noOpen, os.noSeek, os.failed], DataPacket(os.data, g), g)
  {
    if os.denied.Some? {
      out.SendError(os.denied.value, g);
    } else if os.noOpen.Some? {
      out.SendError(os.noOpen.value, g);
    } else if os.noSeek.Some? {
      out.SendError(os.noSeek.value, g);
    } else if os.failed.Some? {
      out.SendError(os.failed.value, g);
    } else {
      out.Send(BuildResponseData(g.sequence, os.data));
    }
    FileopAnswers(cmd.request.op, os, g);
  }

  /** The receive of the second packet, with the checks on its type and size; `EPROTO` is sent if one fails. */
  method ReceiveData(inp: Pipe, out: Outbox, cmd: RequestPacket, g: Leftover) returns (ok: bool, data: Option<seq<byte>>)
    modifies inp, out
    ensures ok <==> ReceivedRequest(old(inp.stream)).Arrival?
    ensures ok ==> var request := ReceivedRequest(old(inp.stream)).request;
                   && inp.stream == Rest(old(inp.stream))
                   && data == (if IsAnnouncedData(cmd, request) then Some(request.value.request.op.data) else None)
                   && out.packets == old(out.packets) + if data.Some? then [] else [ReplyPacket(Error(EPROTO), 0, g)]
  {
    var received := ServerReceive(inp);
    if received.Overrun? {
      return false, None;
    }
    ok := true;
    var request := received.request;
    if request.None? || !request.value.request.op.Raw? {
      out.SendError(EPROTO, g);
      data := None;
    } else if request.value.header.payloadSize - RequestBaseSize(|request.value.request.user.sgids|) != Announced(cmd) {
      out.SendError(EPROTO, g);
      data := None;
    } else {
      data := Some(request.value.request.op.data);
    }
  }

  /** The data packet is taken from the stream only once access, open and seek have succeeded. */
  method HandleWrite(inp: Pipe, out: Outbox, cmd: RequestPacket, os: Os, g: Leftover) returns (ok: bool)
    requires cmd.request.op.Fileop? && cmd.request.op.kind == WRITE
    modifies inp, out
    ensures Handled(FileopOutcome(cmd.request.op, os), inp, out, cmd, os, g, ok)
  {
    ok := true;
    if os.denied.Some? {
      out.SendError(os.denied.value, g);
    } else if os.noOpen.Some? {
      out.SendError(os.noOpen.value, g);
    } else if os.noSeek.Some? {
      out.SendError(os.noSeek.value, g);
    } else {
      ok := ReceiveAndWrite(inp, out, cmd, os, g);
    }
  }

  method ReceiveAndWrite(inp: Pipe, out: Outbox, cmd: RequestPacket, os: Os, g: Leftover) returns (ok: bool)
    requires cmd.request.op.Fileop?
    modifies inp, out
    ensures Handled(NeedData, inp, out, cmd, os, g, ok)
  {
    var data;
    ok, data := ReceiveData(inp, out, cmd, g);
    if ok && data.Some? {
      if os.failed.Some? {
        out.SendError(os.failed.value, g);
      } else {
        out.Send(BuildStatus(g.sequence, 0, false, g.moreOffset));
      }
    }
  }

  /** Unlike a write, the value is received before access is checked. */
  method HandleSetxattr(inp: Pipe, out: Outbox, cmd: RequestPacket, os: Os, g: Leftover) returns (ok: bool)
    requires cmd.request.op.Xattr? && cmd.request.op.kind == SETXATTR
    modifies inp, out
    ensures Handled(NeedData, inp, out, cmd, os, g, ok)
  {
    var data;
    ok, data := ReceiveData(inp, out, cmd, g);
    if ok && data.Some? {
      if os.denied.Some? {
        out.SendError(os.denied.value, g);
      } else if os.failed.Some? {
        out.SendError(os.failed.value, g);
      } else {
        out.Send(BuildStatus(g.sequence, 0, false, g.moreOffset));
      }
    }
  }

  method HandleFileop(inp: Pipe, out: Outbox, cmd: RequestPacket, os: Os, g: Leftover) returns (ok: bool)
    requires cmd.request.op.Fileop?
    modifies inp, out
    ensures Handled(FileopOutcome(cmd.request.op, os), inp, out, cmd, os, g, ok)
    ensures cmd.request.op.kind != 28 ==>
              AnsweredAtOnce(inp, out, ok) && AnswerTo(out.packets[|old(out.packets)|], cmd.request.op, os, g)
    ensures cmd.request.op.kind == 28 ==>
              if os.denied.Some? || os.noOpen.Some? || os.noSeek.Some?
              then AnsweredAtOnce(inp, out, ok) &&
                   Reports(out.packets[|old(out.packets)|], [os.denied, os.noOpen, os.noSeek], StatusPacket(0, g), g)
              else AnsweredAfterData(inp, out, cmd.request.op.size, [os.failed], g, ok)
  {
    ok := true;
    var kind := cmd.request.op.kind;
    if kind == READ {
      HandleRead(out, cmd, os, g);
    } else if kind == WRITE {
      ok := HandleWrite(inp, out, cmd, os, g);
    } else if kind == GETATTR {
      HandleGetattr(out, cmd, os, g);
    } else if kind == READDIR {
      ReplyReaddir(out, cmd, os, g);
    } else if kind == READLINK {
      HandleReadlink(out, cmd, os, g);
    } else {
      out.SendError(EOPNOTSUPP, g);
    }
    FileopAnswers(cmd.request.op, os, g);
    if FileopOutcome(cmd.request.op, os).NeedData? && ReceivedRequest(old(inp.stream)).Arrival? {
      DataAnswers(cmd, ReceivedRequest(old(inp.stream)).request, os, g);
    }
  }

  method HandleGetattr(out: Outbox, cmd: RequestPacket, os: Os, g: Leftover)
    requires cmd.request.op.Fileop? && cmd.request.op.kind == GETATTR
    modifies out
    ensures Answered(out, FileopOutcome(cmd.request.op, os).result, os, g)
    ensures Answers(out, [os.denied, os.failed], AttrPacket(os.attr, g), g)
  {
    if os.denied.Some? {
      out.SendError(os.denied.value, g);
    } else if os.failed.Some? {
      out.SendError(os.failed.value, g);
    } else {
      out.Send(BuildAttr(g.sequence, os.attr, g.moreOffset));
    }
    FileopAnswers(cmd.request.op, os, g);
  }

  method HandleReadlink(out: Outbox, cmd: RequestPacket, os: Os, g: Leftover)
    requires cmd.request.op.Fileop? && cmd.request.op.kind == READLINK
    modifies out
    ensures Answered(out, FileopOutcome(cmd.request.op, os).result, os, g)
    ensures Answers(out, [os.denied, os.failed], DataPacket(os.data, g), g)
  {
    if os.denied.Some? {
      out.SendError(os.denied.value, g);
    } else if os.failed.Some? {
      out.SendError(os.failed.value, g);
    } else {
      out.Send(BuildResponseData(g.sequence, os.data));
    }
    FileopAnswers(cmd.request.op, os, g);
  }

  /** The reply part of `handle_readdir`; `os.data` and `os.moreOffset` are the page it packed. */
  method ReplyReaddir(out: Outbox, cmd: RequestPacket, os: Os, g: Leftover)
    requires cmd.request.op.Fileop? && cmd.request.op.kind == READDIR
    modifies out
    ensures Answered(out, FileopOutcome(cmd.request.op, os).result, os, g)
    ensures Answers(out, [os.denied, os.noOpen], PagePacket(os.data, os.moreOffset, g), g)
  {
    if os.denied.Some? {
      out.SendError(os.denied.value, g);
    } else if os.noOpen.Some? {
      out.SendError(os.noOpen.value, g);
    } else if os.moreOffset != 0 {
      out.Send(BuildMoreData(g.sequence, os.data, os.moreOffset));
    } else {
      out.Send(BuildResponseData(g.sequence, os.data));
    }
    FileopAnswers(cmd.request.op, os, g);
  }

  method HandleSimple(out: Outbox, cmd: RequestPacket, os: Os, g: Leftover)
    requires cmd.request.op.Simple?
    modifies out
    ensures Answered(out, SimpleOutcome(cmd.request.op, os).result, os, g)
    ensures cmd.request.op.kind in {90, 91, 92, 93, 94, 95, 96, 98, 100, 101, 102, 103, 104} ==>
              Answers(out, [os.denied, os.failed], StatusPacket(0, g), g)
    ensures cmd.request.op.kind !in {90, 91, 92, 93, 94, 95, 96, 98, 100, 101, 102, 103, 104} ==>
              out.packets == old(out.packets) + [ErrorPacket(95, g)]
  {
    if cmd.request.op.kind !in SIMPLE_KINDS {
      out.SendError(EOPNOTSUPP, g);
    } else if os.denied.Some? {
      out.SendError(os.denied.value, g);
    } else if os.failed.Some? {
      out.SendError(os.failed.value, g);
    } else {
      out.Send(BuildStatus(g.sequence, 0, false, g.moreOffset));
    }
    SimpleAnswers(cmd.request.op, os, g);
  }

  method HandleXattr(inp: Pipe, out: Outbox, cmd: RequestPacket, os: Os, g: Leftover) returns (ok: bool)
    requires cmd.request.op.Xattr?
    modifies inp, out
    ensures Handled(XattrOutcome(cmd.request.op, os), inp, out, cmd, os, g, ok)
  {
    ok := true;
    var kind := cmd.request.op.kind;
    if kind == SETXATTR {
      ok := HandleSetxattr(inp, out, cmd, os, g);
    } else if kind != GETXATTR && kind != REMOVEXATTR && kind != LISTXATTR {
      out.SendError(EOPNOTSUPP, g);
    } else if os.denied.Some? {
      out.SendError(os.denied.value, g);
    } else if os.failed.Some? {
      out.SendError(os.failed.value, g);
    } else if kind == REMOVEXATTR || cmd.request.op.valueSize == 0 {
      out.Send(BuildStatus(g.sequence, os.value, false, g.moreOffset));
    } else {
      out.Send(BuildResponseData(g.sequence, os.data));
    }
  }

  /** `handle_command`. */
  method HandleCommand(inp: Pipe, out: Outbox, cmd: RequestPacket, os: Os, g: Leftover) returns (ok: bool)
    modifies inp, out
    ensures Handled(CommandOutcome(cmd, os), inp, out, cmd, os, g, ok)
    ensures !Sane(cmd) ==>
              && AnsweredAtOnce(inp, out, ok)
              && out.packets[|old(out.packets)|] ==
                 if cmd.header.magic != 0xDEADBEEF then ErrorPacket(-1, g)
                 else ErrorPacket(if |cmd.request.user.sgids| > 32 then 87 else 36, g)
    ensures Sane(cmd) && cmd.request.op.Fileop? && cmd.request.op.kind == 28 ==>
              if os.denied.Some? || os.noOpen.Some? || os.noSeek.Some?
              then AnsweredAtOnce(inp, out, ok) &&
                   Reports(out.packets[|old(out.packets)|], [os.denied, os.noOpen, os.noSeek], StatusPacket(0, g), g)
              else AnsweredAfterData(inp, out, cmd.request.op.size, [os.failed], g, ok)
    ensures Sane(cmd) && cmd.request.op.Xattr? && cmd.request.op.kind == 226 ==>
              AnsweredAfterData(inp, out, cmd.request.op.valueSize, [os.denied, os.failed], g, ok)
    ensures Sane(cmd) && !(cmd.request.op.Fileop? && cmd.request.op.kind == 28) &&
            !(cmd.request.op.Xattr? && cmd.request.op.kind == 226) ==>
              AnsweredAtOnce(inp, out, ok) && AnswerTo(out.packets[|old(out.packets)|], cmd.request.op, os, g)
  {
    ok := Dispatch(inp, out, cmd, os, g);
    if Sane(cmd) {
      OutcomeAnswers(cmd, os, g);
    }
    if CommandOutcome(cmd, os).NeedData? && ReceivedRequest(old(inp.stream)).Arrival? {
      DataAnswers(cmd, ReceivedRequest(old(inp.stream)).request, os, g);
    }
  }

  /** The sanity check, and the handler of the type of the request. */
  method Dispatch(inp: Pipe, out: Outbox, cmd: RequestPacket, os: Os, g: Leftover) returns (ok: bool)
    modifies inp, out
    ensures Handled(CommandOutcome(cmd, os), inp, out, cmd, os, g, ok)
  {
    ok := true;
    var sanity := CheckSanity(cmd);
    if sanity != 0 {
      out.SendError(sanity, g);
    } else {
      match cmd.request.op
      case Fileop(_, _, _, _) => ok := HandleFileop(inp, out, cmd, os, g);
      case Simple(_, _, _, _, _) => HandleSimple(out, cmd, os, g);
      case Xattr(_, _, _, _, _, _) => ok := HandleXattr(inp, out, cmd, os, g);
      case _ => out.SendError(EPROTO, g);
    }
  }

  /**
   * A command without the magic number is refused with -1, a number that its sign turns into the positive
   * value 1 for every caller: the only refusal of `check_sanity` that does not read as an error.
   */
  lemma BadMagicReadsAsSuccess(p: RequestPacket, os: Os, sequence: u32, more: u32, rest: seq<byte>, expected: u32)
    requires CheckSanity(p) != 0
    ensures CommandOutcome(p, os) == Reply(Error(Unsigned(CheckSanity(p))))
    ensures var s := Sent(BuildStatus(sequence, Unsigned(CheckSanity(p)), true, more)) + rest;
            && ReturnedTo(s, expected).Some?
            && (ReturnedTo(s, expected).value >= 0 <==> p.header.magic != COREFS_MAGIC)
  {
    ErrorReachesClient(CheckSanity(p), sequence, more, rest, expected);
  }
}
