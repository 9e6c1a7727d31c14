/** Whole calls: from what a client asks to the value that it returns. */
module Calls {
  import opened Bytes
  import opened Wire
  import opened PacketCode
  import opened Framing
  import opened Endpoint
  import opened Server
  import opened Client
  import opened Sequences

  // ---------------------------------------------------------------- replies, field by field

  /** What a caller gets for an error number, whatever it waits for: the number negated, in 32 bits. */
  ghost function Refusal(e: Errno, g: Leftover): ClientResult {
    ClientResult(if e == -0x8000_0000 then e else -e,
                 Some(Response(g.moreOffset, Error(if e < 0 then 0x1_0000_0000 + e else e))))
  }

  /** The caller gets the error of the first step that failed, or `success` when none did. */
  ghost predicate Gets(r: Option<ClientResult>, steps: seq<Option<Errno>>, success: ClientResult, g: Leftover) {
    && (forall i: nat | FailsFirst(steps, i) :: r == Some(Refusal(steps[i].value, g)))
    && ((forall i | 0 <= i < |steps| :: steps[i].None?) ==> r == Some(success))
  }

  lemma Reaches(p: ResponsePacket, expected: u32)
    requires StorableResult(p.response.result) && p.header.kind == 0xBB
    requires p.header.payloadSize == |EncodeResponse(p.response)| && |Sent(p)| <= BUFFERSIZE
    ensures ClientOutcome(Sent(p), expected)
         == Some(ClientResult(Interpret(p.header, p.response, expected), Some(p.response)))
  {
    NothingAfter(Sent(p));
    CompleteReply(p, [], expected);
  }

  lemma ErrorReaches(e: Errno, g: Leftover, expected: u32)
    ensures var p := ErrorPacket(e, g);
            && p.header.payloadSize == |EncodeResponse(p.response)|
            && ClientOutcome(Sent(p), expected) == Some(Refusal(e, g))
  {
    Reaches(ErrorPacket(e, g), expected);
  }

  lemma StatusReaches(bits: u32, g: Leftover)
    ensures var p := StatusPacket(bits, g);
            && p.header.payloadSize == |EncodeResponse(p.response)|
            && ClientOutcome(Sent(p), 0xB)
               == Some(ClientResult(if bits < 0x8000_0000 then bits else bits - 0x1_0000_0000,
                                    Some(Response(g.moreOffset, Status(bits)))))
  {
    Reaches(StatusPacket(bits, g), 0xB);
  }

  lemma AttrReaches(attr: Attr, g: Leftover)
    ensures var p := AttrPacket(attr, g);
            && p.header.payloadSize == |EncodeResponse(p.response)|
            && ClientOutcome(Sent(p), 0xC)
               == Some(ClientResult(40, Some(Response(g.moreOffset, Attributes(attr)))))
  {
    Reaches(AttrPacket(attr, g), 0xC);
  }

  lemma PageReaches(data: seq<byte>, more: u32, g: Leftover)
    requires |data| <= BUFFERSIZE
    ensures var p := PagePacket(data, more, g);
            && p.header.payloadSize == |EncodeResponse(p.response)|
            && (|data| + 24 <= BUFFERSIZE ==>
                  ClientOutcome(Sent(p), 0xA)
                  == Some(ClientResult(8 + |data|, Some(if more != 0 then Response(more, MoreData(data))
                                                        else Response(0, Data(data))))))
  {
    if |data| + 24 <= BUFFERSIZE {
      Reaches(PagePacket(data, more, g), 0xA);
    }
  }

  lemma DataReaches(data: seq<byte>, g: Leftover)
    requires |data| <= BUFFERSIZE
    ensures var p := DataPacket(data, g);
            && p.header.payloadSize == |EncodeResponse(p.response)|
            && (|data| + 24 <= BUFFERSIZE ==>
                  ClientOutcome(Sent(p), 0xA) == Some(ClientResult(8 + |data|, Some(Response(0, Data(data))))))
  {
    PageReaches(data, 0, g);
  }

  lemma {:induction false} SomeFailsFirst(steps: seq<Option<Errno>>, n: nat) returns (i: nat)
    requires n <= |steps|
    ensures i < n ==> FailsFirst(steps, i)
    ensures n <= i ==> forall j | 0 <= j < n :: steps[j].None?
  {
    if n == 0 {
      return 0;
    }
    i := SomeFailsFirst(steps, n - 1);
    if i >= n - 1 {
      i := if steps[n - 1].Some? then n - 1 else n;
    }
  }

  /** A packet that reports on steps reaches the caller as the report. */
  lemma ReportReaches(p: ResponsePacket, steps: seq<Option<Errno>>, success: ResponsePacket, g: Leftover,
                      expected: u32, value: ClientResult, fits: bool)
    requires Reports(p, steps, success, g) && success.header.payloadSize == |EncodeResponse(success.response)|
    requires fits ==> ClientOutcome(Sent(success), expected) == Some(value)
    ensures p.header.payloadSize == |EncodeResponse(p.response)|
    ensures fits ==> Gets(ClientOutcome(Sent(p), expected), steps, value, g)
    ensures forall i: nat | FailsFirst(steps, i) :: ClientOutcome(Sent(p), expected) == Some(Refusal(steps[i].value, g))
  {
    var first := SomeFailsFirst(steps, |steps|);
    if first < |steps| {
      ErrorReaches(steps[first].value, g, expected);
      forall i: nat | FailsFirst(steps, i) ensures i == first {
        assert FailsFirst(steps, first);
      }
    }
  }

  // ---------------------------------------------------------------- one packet each way

  /** The type of reply that the client waits for. */
  ghost predicate WaitsFor(op: Operation, expected: u32) {
    match op
    case Fileop(kind, _, _, _) => expected == if kind == 30 then 0xC else 0xA
    case Simple(_, _, _, _, _) => expected == 0xB
    case Xattr(kind, _, valueSize, _, _, _) => expected == if kind in {229, 235} && valueSize != 0 then 0xA else 0xB
    case _ => true
  }

  /** What the caller gets for each operation, from what the server's system calls answer. */
  ghost predicate Yields(r: Option<ClientResult>, op: Operation, os: Os, g: Leftover) {
    match op
    case Fileop(kind, _, _, _) =>
      if kind == 27 then
        Gets(r, [os.denied, os.noOpen, os.noSeek, os.failed],
             ClientResult(8 + |os.data|, Some(Response(0, Data(os.data)))), g)
      else if kind == 29 then
        Gets(r, [os.denied, os.noOpen],
             ClientResult(8 + |os.data|, Some(if os.moreOffset != 0 then Response(os.moreOffset, MoreData(os.data))
                                              else Response(0, Data(os.data)))), g)
      else if kind == 30 then
        Gets(r, [os.denied, os.failed], ClientResult(40, Some(Response(g.moreOffset, Attributes(os.attr)))), g)
      else if kind == 85 then
        Gets(r, [os.denied, os.failed], ClientResult(8 + |os.data|, Some(Response(0, Data(os.data)))), g)
      else r == Some(Refusal(95, g))
    case Simple(kind, _, _, _, _) =>
      if kind in {90, 91, 92, 93, 94, 95, 96, 98, 100, 101, 102, 103, 104} then
        Gets(r, [os.denied, os.failed], ClientResult(0, Some(Response(g.moreOffset, Status(0)))), g)
      else r == Some(Refusal(95, g))
    case Xattr(kind, _, valueSize, _, _, _) =>
      if kind == 232 || (kind in {229, 235} && valueSize == 0) then
        Gets(r, [os.denied, os.failed],
             ClientResult(if os.value < 0x8000_0000 then os.value else os.value - 0x1_0000_0000,
                          Some(Response(g.moreOffset, Status(os.value)))), g)
      else if kind in {229, 235} then
        Gets(r, [os.denied, os.failed], ClientResult(8 + |os.data|, Some(Response(0, Data(os.data)))), g)
      else r == Some(Refusal(95, g))
    case _ => r == Some(Refusal(71, g))
  }

  lemma PagedReaches(p: ResponsePacket, os: Os, g: Leftover)
    requires Reports(p, [os.denied, os.noOpen], PagePacket(os.data, os.moreOffset, g), g) && |os.data| <= BUFFERSIZE
    ensures p.header.payloadSize == |EncodeResponse(p.response)|
    ensures |os.data| + 24 <= BUFFERSIZE ==>
              Gets(ClientOutcome(Sent(p), 0xA), [os.denied, os.noOpen],
                   ClientResult(8 + |os.data|, Some(if os.moreOffset != 0 then Response(os.moreOffset, MoreData(os.data))
                                                    else Response(0, Data(os.data)))), g)
  {
    var page := ClientResult(8 + |os.data|, Some(if os.moreOffset != 0 then Response(os.moreOffset, MoreData(os.data))
                                                 else Response(0, Data(os.data))));
    PageReaches(os.data, os.moreOffset, g);
    ReportReaches(p, [os.denied, os.noOpen], PagePacket(os.data, os.moreOffset, g), g, 0xA, page,
                  |os.data| + 24 <= BUFFERSIZE);
  }

  lemma FileopReaches(p: ResponsePacket, op: Operation, os: Os, g: Leftover, expected: u32)
    requires op.Fileop? && AnswerTo(p, op, os, g) && WaitsFor(op, expected) && |os.data| <= BUFFERSIZE
    ensures p.header.payloadSize == |EncodeResponse(p.response)|
    ensures |os.data| + 24 <= BUFFERSIZE ==> Yields(ClientOutcome(Sent(p), expected), op, os, g)
  {
    var fits := |os.data| + 24 <= BUFFERSIZE;
    var data := ClientResult(8 + |os.data|, Some(Response(0, Data(os.data))));
    DataReaches(os.data, g);
    if op.kind == 27 {
      ReportReaches(p, [os.denied, os.noOpen, os.noSeek, os.failed], DataPacket(os.data, g), g, 0xA, data, fits);
    } else if op.kind == 29 {
      PagedReaches(p, os, g);
    } else if op.kind == 30 {
      AttrReaches(os.attr, g);
      var attr := ClientResult(40, Some(Response(g.moreOffset, Attributes(os.attr))));
      ReportReaches(p, [os.denied, os.failed], AttrPacket(os.attr, g), g, 0xC, attr, true);
    } else if op.kind == 85 {
      ReportReaches(p, [os.denied, os.failed], DataPacket(os.data, g), g, 0xA, data, fits);
    } else {
      ErrorReaches(95, g, expected);
    }
  }

  lemma SimpleReaches(p: ResponsePacket, op: Operation, os: Os, g: Leftover)
    requires op.Simple? && AnswerTo(p, op, os, g)
    ensures p.header.payloadSize == |EncodeResponse(p.response)| && Yields(ClientOutcome(Sent(p), 0xB), op, os, g)
  {
    if op.kind in {90, 91, 92, 93, 94, 95, 96, 98, 100, 101, 102, 103, 104} {
      var done := ClientResult(0, Some(Response(g.moreOffset, Status(0))));
      StatusReaches(0, g);
      ReportReaches(p, [os.denied, os.failed], StatusPacket(0, g), g, 0xB, done, true);
    } else {
      ErrorReaches(95, g, 0xB);
    }
  }

  lemma XattrReaches(p: ResponsePacket, op: Operation, os: Os, g: Leftover, expected: u32)
    requires op.Xattr? && AnswerTo(p, op, os, g) && WaitsFor(op, expected) && |os.data| <= BUFFERSIZE
    ensures p.header.payloadSize == |EncodeResponse(p.response)|
    ensures |os.data| + 24 <= BUFFERSIZE ==> Yields(ClientOutcome(Sent(p), expected), op, os, g)
  {
    if op.kind == 232 || (op.kind in {229, 235} && op.valueSize == 0) {
      var status := ClientResult(if os.value < 0x8000_0000 then os.value else os.value - 0x1_0000_0000,
                                 Some(Response(g.moreOffset, Status(os.value))));
      StatusReaches(os.value, g);
      ReportReaches(p, [os.denied, os.failed], StatusPacket(os.value, g), g, 0xB, status, true);
    } else if op.kind in {229, 235} {
      var data := ClientResult(8 + |os.data|, Some(Response(0, Data(os.data))));
      DataReaches(os.data, g);
      ReportReaches(p, [os.denied, os.failed], DataPacket(os.data, g), g, 0xA, data, |os.data| + 24 <= BUFFERSIZE);
    } else {
      ErrorReaches(95, g, expected);
    }
  }

  /** The answer to a command reaches the caller. */
  lemma AnswerReaches(p: ResponsePacket, op: Operation, os: Os, g: Leftover, expected: u32)
    requires AnswerTo(p, op, os, g) && WaitsFor(op, expected) && |os.data| <= BUFFERSIZE
    ensures p.header.payloadSize == |EncodeResponse(p.response)|
    ensures |os.data| + 24 <= BUFFERSIZE ==> Yields(ClientOutcome(Sent(p), expected), op, os, g)
  {
    match op
    case Fileop(_, _, _, _) => FileopReaches(p, op, os, g, expected);
    case Simple(_, _, _, _, _) => SimpleReaches(p, op, os, g);
    case Xattr(_, _, _, _, _, _) => XattrReaches(p, op, os, g, expected);
    case _ => ErrorReaches(71, g, expected);
  }

  /** The command asks for a second packet. */
  ghost predicate TakesData(op: Operation) {
    (op.Fileop? && op.kind == 28) || (op.Xattr? && op.kind == 226)
  }

  /** A call of one packet: over the wire, through the server's handlers, and back. `os.data` fills a buffer at most. */
  method Call(command: RequestPacket, os: Os, g: Leftover, expected: u32) returns (r: Option<ClientResult>)
    requires IsFramed(command) && FitsPacket(command.request.op) && Sane(command)
    requires !TakesData(command.request.op) && WaitsFor(command.request.op, expected) && |os.data| <= BUFFERSIZE
    ensures |os.data| + 24 <= BUFFERSIZE ==> Yields(r, command.request.op, os, g)
  {
    var cmd := Deliver(command);
    var inp := new Pipe(false);
    var out := new Outbox();
    var ok := HandleCommand(inp, out, cmd, os, g);
    var p := out.packets[|out.packets| - 1];
    AnswerReaches(p, command.request.op, os, g, expected);
    r := Return(p, expected);
  }

  /** `do_read`: the number of bytes read, or an error negated, and the bytes. */
  method DoRead(sequence: u32, user: UserInfo, path: seq<byte>, offset: u32, size: u32, os: Os, g: Leftover)
    returns (ret: int, bytes: seq<byte>)
    requires |user.sgids| <= MAX_COREFS_GIDS && |path| < MAX_COREFS_PATH && |os.data| + 24 <= BUFFERSIZE
    ensures forall i: nat | FailsFirst([os.denied, os.noOpen, os.noSeek, os.failed], i) ::
              var e := [os.denied, os.noOpen, os.noSeek, os.failed][i].value;
              0 < e ==> ret == -e && bytes == []
    ensures os.denied.None? && os.noOpen.None? && os.noSeek.None? && os.failed.None? ==>
              ret == |os.data| && bytes == os.data
  {
    var command := BuildFileop(sequence, user, 27, offset, size, path);
    FileopArrives(sequence, user, 27, offset, size, path, []);
    var r := Call(command, os, g, 0xA);
    ghost var first := SomeFailsFirst([os.denied, os.noOpen, os.noSeek, os.failed], 4);
    if r.value.ret <= 0 {
      return r.value.ret, [];
    }
    var result := r.value.reply.value.result;
    if result.Error? {
      return 4, LittleEndian(result.bits);
    }
    return |result.data|, result.data;
  }

  // ---------------------------------------------------------------- a write

  lemma FirstThree(three: seq<Option<Errno>>, d: Option<Errno>, p: ResponsePacket, success: ResponsePacket, g: Leftover)
    requires |three| == 3 && (three[0].Some? || three[1].Some? || three[2].Some?) && Reports(p, three, success, g)
    ensures Reports(p, three + [d], success, g)
  {
    var all := three + [d];
    assert forall j | 0 <= j < 3 :: all[j] == three[j];
    forall i: nat | FailsFirst(all, i) ensures p == ErrorPacket(all[i].value, g) {
      assert i < 3;
      assert FailsFirst(three, i);
    }
    assert !forall i | 0 <= i < |all| :: all[i].None?;
  }

  /** What the two halves of a write report, as one. */
  lemma BothHalves(p: ResponsePacket, os: Os, success: ResponsePacket, g: Leftover)
    requires if os.denied.Some? || os.noOpen.Some? || os.noSeek.Some?
             then Reports(p, [os.denied, os.noOpen, os.noSeek], success, g)
             else Reports(p, [os.failed], success, g)
    ensures Reports(p, [os.denied, os.noOpen, os.noSeek, os.failed], success, g)
  {
    if os.denied.Some? || os.noOpen.Some? || os.noSeek.Some? {
      FirstThree([os.denied, os.noOpen, os.noSeek], os.failed, p, success, g);
      assert [os.denied, os.noOpen, os.noSeek] + [os.failed] == [os.denied, os.noOpen, os.noSeek, os.failed];
    } else {
      ReportsLater(os.noSeek, [os.failed], p, success, g);
      assert [os.noSeek] + [os.failed] == [os.noSeek, os.failed];
      ReportsLater(os.noOpen, [os.noSeek, os.failed], p, success, g);
      assert [os.noOpen] + [os.noSeek, os.failed] == [os.noOpen, os.noSeek, os.failed];
      ReportsLater(os.denied, [os.noOpen, os.noSeek, os.failed], p, success, g);
      assert [os.denied] + [os.noOpen, os.noSeek, os.failed] == [os.denied, os.noOpen, os.noSeek, os.failed];
    }
  }

  lemma WriteReaches(p: ResponsePacket, os: Os, g: Leftover)
    requires Reports(p, [os.denied, os.noOpen, os.noSeek, os.failed], StatusPacket(0, g), g)
    ensures p.header.payloadSize == |EncodeResponse(p.response)|
    ensures Gets(ClientOutcome(Sent(p), 0xB), [os.denied, os.noOpen, os.noSeek, os.failed],
                 ClientResult(0, Some(Response(g.moreOffset, Status(0)))), g)
  {
    var done := ClientResult(0, Some(Response(g.moreOffset, Status(0))));
    StatusReaches(0, g);
    ReportReaches(p, [os.denied, os.noOpen, os.noSeek, os.failed], StatusPacket(0, g), g, 0xB, done, true);
  }

  /** The server's side of a write: its data when the first half succeeds, and one reply. */
  method AnswerWrite(up: Pipe, cmd: RequestPacket, data: seq<byte>, os: Os, g: Leftover) returns (p: ResponsePacket)
    requires Sane(cmd) && cmd.request.op.Fileop? && cmd.request.op.kind == 28 && cmd.request.op.size == |data|
    requires DataArrives(up.stream, data)
    modifies up
    ensures Reports(p, [os.denied, os.noOpen, os.noSeek, os.failed], StatusPacket(0, g), g)
    ensures if os.denied.Some? || os.noOpen.Some? || os.noSeek.Some?
            then DataArrives(up.stream, data) else up.stream == []
  {
    var out := new Outbox();
    var ok := HandleCommand(up, out, cmd, os, g);
    p := out.packets[0];
    BothHalves(p, os, StatusPacket(0, g), g);
  }

  /** What the client sends. */
  method SendWrite(sequence: u32, user: UserInfo, path: seq<byte>, offset: u32, data: seq<byte>) returns (up: Pipe)
    requires user.sgids == [] && |path| < MAX_COREFS_PATH && |data| + 2048 <= BUFFERSIZE
    ensures fresh(up) && WriteArrives(up.stream, sequence, user, offset, path, data)
  {
    up := new Pipe(false);
    var sent := DoWrite(up, sequence, user, offset, path, data);
    assert up.stream[0..] == up.stream;
  }

  /** And what the main loop takes of it. */
  method SendAndTake(sequence: u32, user: UserInfo, path: seq<byte>, offset: u32, data: seq<byte>)
    returns (up: Pipe, cmd: RequestPacket)
    requires user.sgids == [] && |path| < MAX_COREFS_PATH && |data| + 2048 <= BUFFERSIZE
    ensures fresh(up) && DataArrives(up.stream, data)
    ensures cmd.request == Request(user, Fileop(28, offset, |data|, path)) && Sane(cmd)
  {
    up := SendWrite(sequence, user, path, offset, data);
    var buffer := new byte[BUFFERSIZE](_ => 0);
    ghost var s, was := up.stream, buffer[..];
    assert TakenFrom(s, was) == Command(RequestPacket(Announcing(sequence, 32 + |path|),
                                                      Request(user, Fileop(28, offset, |data|, path))));
    var taken := TakeCommand(up, buffer);
    cmd := taken.packet;
  }

  /** What the client returns. */
  method AwaitStatus(p: ResponsePacket, size: nat, os: Os, g: Leftover) returns (ret: int)
    requires Reports(p, [os.denied, os.noOpen, os.noSeek, os.failed], StatusPacket(0, g), g)
    ensures forall i: nat | FailsFirst([os.denied, os.noOpen, os.noSeek, os.failed], i) ::
              var e := [os.denied, os.noOpen, os.noSeek, os.failed][i].value;
              0 < e ==> ret == -e
    ensures os.denied.None? && os.noOpen.None? && os.noSeek.None? && os.failed.None? ==> ret == size
  {
    WriteReaches(p, os, g);
    var r := Return(p, 0xB);
    ghost var first := SomeFailsFirst([os.denied, os.noOpen, os.noSeek, os.failed], 4);
    ret := if r.value.ret < 0 then r.value.ret else size;
  }

  /**
   * `do_write`: the size, or the error of the first step that failed. When that is the access check, the open
   * or the seek, the data packet is left on the connection.
   */
  method DoWholeWrite(sequence: u32, user: UserInfo, path: seq<byte>, offset: u32, data: seq<byte>, os: Os, g: Leftover)
    returns (ret: int, left: seq<byte>)
    requires user.sgids == [] && |path| < MAX_COREFS_PATH && |data| + 2048 <= BUFFERSIZE
    ensures forall i: nat | FailsFirst([os.denied, os.noOpen, os.noSeek, os.failed], i) ::
              var e := [os.denied, os.noOpen, os.noSeek, os.failed][i].value;
              0 < e ==> ret == -e
    ensures os.denied.None? && os.noOpen.None? && os.noSeek.None? && os.failed.None? ==> ret == |data|
    ensures if os.denied.Some? || os.noOpen.Some? || os.noSeek.Some? then DataArrives(left, data) else left == []
  {
    var up, cmd := SendAndTake(sequence, user, path, offset, data);
    var p := AnswerWrite(up, cmd, data, os, g);
    left := up.stream;
    ret := AwaitStatus(p, |data|, os, g);
  }
}
