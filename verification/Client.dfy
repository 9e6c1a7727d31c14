/** What the client puts on the wire for a call, and what the server takes from it (client.c). */
module Client {
  import opened Bytes
  import opened Wire
  import opened PacketCode
  import opened Framing
  import opened Endpoint
  import opened Server
  import opened Sequences

  // ---------------------------------------------------------------- requests, field by field

  /** The server takes `p` from the front of the stream `s`, whatever its buffer held, and leaves the rest. */
  ghost predicate Arrives(s: seq<byte>, p: RequestPacket, rest: seq<byte>) {
    && Rest(s) == rest
    && forall was: seq<byte> | |was| == BUFFERSIZE :: TakenFrom(s, was) == Command(p)
  }

  lemma FramedArrives(p: RequestPacket, rest: seq<byte>)
    requires IsFramed(p) && FitsPacket(p.request.op)
    ensures Arrives(Framed(p) + rest, p, rest)
  {
    forall was: seq<byte> | |was| == BUFFERSIZE ensures TakenFrom(Framed(p) + rest, was) == Command(p) {
      CommandIsTaken(p, rest, was);
    }
    CommandIsTaken(p, rest, Zeros(BUFFERSIZE));
  }

  /** The header of a request with a payload of `n` bytes. */
  ghost function Announcing(sequence: u32, n: u32): Header {
    Header(0xDEADBEEF, 0xBA, sequence, n)
  }

  /** A file operation arrives with its kind, offset, size and path, and the user that asks for it. */
  lemma FileopArrives(sequence: u32, user: UserInfo, kind: u32, offset: u32, size: u32, path: seq<byte>, rest: seq<byte>)
    requires |user.sgids| <= MAX_COREFS_GIDS && |path| < MAX_COREFS_PATH
    ensures var p := BuildFileop(sequence, user, kind, offset, size, path);
            && IsFramed(p)
            && Arrives(Framed(p) + rest,
                       RequestPacket(Announcing(sequence, 32 + 4 * |user.sgids| + |path|),
                                     Request(user, Fileop(kind, offset, size, path))), rest)
  {
    var p := BuildFileop(sequence, user, kind, offset, size, path);
    FileopSize(sequence, user, kind, offset, size, path);
    assert p.header == Announcing(sequence, 32 + 4 * |user.sgids| + |path|);
    BuiltArrives(p, rest, p.header, Request(user, Fileop(kind, offset, size, path)));
  }

  lemma BuiltArrives(p: RequestPacket, rest: seq<byte>, h: Header, r: Request)
    requires IsFramed(p) && FitsPacket(p.request.op) && p.header == h && p.request == r
    ensures Arrives(Framed(p) + rest, RequestPacket(h, r), rest)
  {
    FramedArrives(p, rest);
  }

  /** A simple operation arrives with its two paths in order; no second path arrives as an empty one. */
  lemma SimpleArrives(p: RequestPacket, sequence: u32, user: UserInfo, kind: u32, path1: seq<byte>, offset: u32,
                      mode: u32, optPath: Option<seq<byte>>, rest: seq<byte>)
    requires |user.sgids| <= MAX_COREFS_GIDS && |path1| < MAX_COREFS_PATH
    requires optPath.Some? ==> |optPath.value| < MAX_COREFS_PATH
    requires p == BuildSimple(sequence, user, kind, path1, offset, mode, optPath)
    ensures IsFramed(p) && Arrives(Framed(p) + rest, p, rest) && p.request.user == user
    ensures optPath.Some? ==> p.request.op == Simple(kind, offset, mode, path1, optPath.value)
    ensures optPath.None? ==> p.request.op == Simple(kind, offset, mode, path1, [])
    ensures p.header == Announcing(sequence, 37 + 4 * |user.sgids| + |path1| + |p.request.op.path2|)
  {
    SimpleSize(sequence, user, kind, path1, offset, mode, optPath);
    FramedArrives(p, rest);
  }

  /** An attribute operation arrives with flags, size, and path and name, a zero between them. */
  lemma XattrArrives(p: RequestPacket, sequence: u32, user: UserInfo, kind: u32, name: Option<seq<byte>>,
                     path: seq<byte>, size: u32, flags: u32, rest: seq<byte>)
    requires |user.sgids| <= MAX_COREFS_GIDS && |path| < MAX_COREFS_PATH
    requires name.Some? ==> |name.value| < MAX_COREFS_PATH
    requires p == BuildXattr(sequence, user, kind, name, path, size, flags)
    ensures IsFramed(p) && Arrives(Framed(p) + rest, p, rest) && p.request.user == user
    ensures name.Some? ==> p.request.op == Xattr(kind, flags, size, |path|, |name.value|, path + [0] + name.value)
    ensures name.None? ==> p.request.op == Xattr(kind, flags, size, |path|, 0, path + [0])
    ensures p.header == Announcing(sequence, 36 + 4 * |user.sgids| + |p.request.op.params|)
  {
    XattrSize(sequence, user, kind, name, path, size, flags);
    FramedArrives(p, rest);
    NothingAfter(path + [0]);
  }

  /** A request goes over the wire and is taken by the server. */
  method Deliver(command: RequestPacket) returns (cmd: RequestPacket)
    requires IsFramed(command) && FitsPacket(command.request.op)
    ensures cmd == command
  {
    var up := new Pipe(false);
    var out := new byte[BUFFERSIZE](_ => 0);
    assert out[..] == Zeros(BUFFERSIZE);
    var sent := SendRequest(up, out, command);
    assert up.stream == Framed(command) + [];
    var buffer := new byte[BUFFERSIZE](_ => 0);
    CommandIsTaken(command, [], buffer[..]);
    var taken := TakeCommand(up, buffer);
    cmd := taken.packet;
  }

  /** A reply goes back, to a caller that waits for the given type. */
  method Return(p: ResponsePacket, expected: u32) returns (r: Option<ClientResult>)
    requires p.header.payloadSize == |EncodeResponse(p.response)|
    ensures r == ClientOutcome(Sent(p), expected)
  {
    var down := new Pipe(false);
    var sent := SendResponse(down, p);
    assert down.stream == Sent(p);
    r := ClientReceive(down, expected);
  }

  // ---------------------------------------------------------------- the two packets of a write

  /**
   * The server takes a write of `data` at `offset` from `s`, and then the data. With supplementary gids the
   * data packet is not sent.
   */
  ghost predicate WriteArrives(s: seq<byte>, sequence: u32, user: UserInfo, offset: u32, path: seq<byte>, data: seq<byte>)
    requires |user.sgids| <= MAX_COREFS_GIDS && |path| < MAX_COREFS_PATH && |data| + 2048 <= BUFFERSIZE
  {
    && Arrives(s, RequestPacket(Announcing(sequence, 32 + 4 * |user.sgids| + |path|),
                                Request(user, Fileop(28, offset, |data|, path))), Rest(s))
    && if user.sgids == [] then DataArrives(Rest(s), data) && NumbersSwapped(Rest(s), sequence, user)
       else Rest(s) == []
  }

  /** In the second packet the numbers taken over from the command have their bytes the other way round. */
  ghost predicate NumbersSwapped(s: seq<byte>, sequence: u32, user: UserInfo) {
    match ReceivedRequest(s)
    case Overrun => false
    case Arrival(None) => false
    case Arrival(Some(q)) =>
      && q.header.sequence == SwapBytes(sequence)
      && q.request.user.uid == SwapBytes(user.uid) && q.request.user.gid == SwapBytes(user.gid)
  }

  /** A packet of just this data, and nothing behind it. */
  ghost predicate DataArrives(s: seq<byte>, data: seq<byte>) {
    && Rest(s) == []
    && match ReceivedRequest(s)
       case Overrun => false
       case Arrival(None) => false
       case Arrival(Some(q)) =>
         q.header.payloadSize == 16 + |data| && q.request.user.sgids == [] && q.request.op == Raw(data)
  }

  lemma BehindAll(before: seq<byte>, all: seq<byte>)
    ensures (before + all)[|before|..] == all && before <= before + all
  {
  }

  lemma WriteArrived(s: seq<byte>, sequence: u32, user: UserInfo, offset: u32, path: seq<byte>, data: seq<byte>)
    requires |user.sgids| <= MAX_COREFS_GIDS && |path| < MAX_COREFS_PATH && |data| + 2048 <= BUFFERSIZE
    requires Storable(WriteCommand(sequence, user, offset, |data|, path).request)
    requires Storable(WriteData(sequence, user, data).request)
    requires var more := if user.sgids == [] then SentRequest(WriteData(sequence, user, data)) else [];
             s == SentRequest(WriteCommand(sequence, user, offset, |data|, path)) + more
    ensures WriteArrives(s, sequence, user, offset, path, data)
  {
    var p, q := WriteCommand(sequence, user, offset, |data|, path), WriteData(sequence, user, data);
    FileopSize(sequence, user, 28, offset, |data|, path);
    FramedExactly(p);
    var more := if user.sgids == [] then SentRequest(q) else [];
    FileopArrives(sequence, user, 28, offset, |data|, path, more);
    if user.sgids == [] {
      WriteDataSize(sequence, user, data);
      FramedExactly(q);
      NothingAfter(SentRequest(q));
      RequestReceived(q, []);
    }
  }

  /**
   * `do_write`, up to the wait for the status. With supplementary gids, which `my_get_user_info` never sets,
   * the count read back swapped runs the second encapsulation out of its buffer: `None`.
   */
  method DoWrite(pipe: Pipe, sequence: u32, user: UserInfo, offset: u32, path: seq<byte>, data: seq<byte>)
    returns (sent: Option<bool>)
    requires |user.sgids| <= MAX_COREFS_GIDS && |path| < MAX_COREFS_PATH && |data| + 2048 <= BUFFERSIZE
    modifies pipe
    ensures Storable(WriteCommand(sequence, user, offset, |data|, path).request)
    ensures Storable(WriteData(sequence, user, data).request)
    ensures var command := SentRequest(WriteCommand(sequence, user, offset, |data|, path));
            var all := if user.sgids == [] then command + SentRequest(WriteData(sequence, user, data)) else command;
            Wrote(old(pipe.stream), pipe.stream, all, sent != Some(false))
    ensures sent != Some(false) ==> (sent.Some? <==> user.sgids == [])
    ensures !pipe.breaks ==> sent != Some(false)
    ensures !pipe.breaks ==>
              && old(pipe.stream) <= pipe.stream
              && WriteArrives(pipe.stream[|old(pipe.stream)|..], sequence, user, offset, path, data)
  {
    var command := WriteCommand(sequence, user, offset, |data|, path);
    ghost var before, written := pipe.stream, SentRequest(command);
    FileopSize(sequence, user, WRITE, offset, |data|, path);
    FramedExactly(command);
    WriteDataSize(sequence, user, data);
    var buffer := new byte[BUFFERSIZE](_ => 0);
    assert buffer[..] == Zeros(BUFFERSIZE);
    var ok := SendRequest(pipe, buffer, command);
    if !ok {
      WroteFirst(before, pipe.stream, written, SentRequest(WriteData(sequence, user, data)));
      return Some(false);
    }
    sent := SendWriteData(pipe, buffer, command, data);
    if sent.Some? {
      WroteBoth(before, pipe.stream, written, SentRequest(WriteData(sequence, user, data)), sent.value);
    }
    if !pipe.breaks {
      ghost var all := if sent.Some? then written + SentRequest(WriteData(sequence, user, data)) else written + [];
      NothingAfter(written);
      BehindAll(before, all);
      WriteArrived(all, sequence, user, offset, path, data);
    }
  }
}
