/** What travels end to end: error and status replies, and the two packets of a write. */
module Endpoint {
  import opened Bytes
  import opened Wire
  import opened PacketCode
  import opened Framing
  import opened Sequences

  const EPROTO := 71

  // ---------------------------------------------------------------- server replies

  /** A C `int` stored in an unsigned field. */
  function Unsigned(n: int): u32
    requires -0x8000_0000 <= n < 0x8000_0000
  {
    if n < 0 then n + 0x1_0000_0000 else n
  }

  /** An unsigned value converted to a C `int`. */
  function Signed(w: u32): (n: int)
    ensures -0x8000_0000 <= n < 0x8000_0000
  {
    if w < 0x8000_0000 then w else w - 0x1_0000_0000
  }

  /** `-bits` on an unsigned value. */
  function Negated(bits: u32): u32 {
    if bits == 0 then 0 else 0x1_0000_0000 - bits
  }

  function Sent(p: ResponsePacket): seq<byte> {
    EncodeHeader(p.header) + EncodeResponse(p.response)
  }

  /** `error_reply`; the sequence number and `more_offset` are what `g_buffer` held before. */
  method ErrorReply(pipe: Pipe, errno: int, sequence: u32, moreOffset: u32) returns (sent: bool)
    requires -0x8000_0000 <= errno < 0x8000_0000
    modifies pipe
    ensures Wrote(old(pipe.stream), pipe.stream, Sent(BuildStatus(sequence, Unsigned(errno), true, moreOffset)), sent)
    ensures !pipe.breaks ==> sent
  {
    var p := BuildStatus(sequence, Unsigned(errno), true, moreOffset);
    sent := SendResponse(pipe, p);
  }

  /** Encapsulation and `send_packet`, as every handler does it. */
  method SendResponse(pipe: Pipe, p: ResponsePacket) returns (sent: bool)
    requires p.header.payloadSize == |EncodeResponse(p.response)|
    modifies pipe
    ensures Wrote(old(pipe.stream), pipe.stream, Sent(p), sent) && (!pipe.breaks ==> sent)
  {
    var size := HEADER_SIZE + p.header.payloadSize;
    var buffer := new byte[size](_ => 0);
    ghost var zeros := buffer[..];
    var ret := EncapHeader(buffer, 0, p.header);
    ret := EncapResponse(buffer, ret, p.response);
    SpliceAll(zeros, EncodeHeader(p.header), EncodeResponse(p.response));
    assert buffer[..size] == Sent(p);
    ret := SocketWrite(pipe, buffer, size);
    sent := ret == size;
  }

  lemma SpliceAll(was: seq<byte>, a: seq<byte>, b: seq<byte>)
    requires |was| == |a| + |b|
    ensures Splice(Splice(was, 0, a), |a|, b) == a + b
  {
  }

  // ---------------------------------------------------------------- client_receive_specified

  /** The value returned for a decoded reply of the given header. */
  function Interpret(h: Header, r: Response, expected: u32): int {
    if h.kind != COREFS_RESPONSE then -EPROTO
    else if r.result.Error? then Signed(Negated(r.result.bits))
    else if ResultTag(r.result) != expected && !(expected == RESPONSE_DATA && r.result.MoreData?) then -EPROTO
    else if r.result.Status? then Signed(r.result.bits)
    else Signed(h.payloadSize)
  }

  /** A cleared buffer. */
  function Zeros(n: nat): (s: seq<byte>)
    ensures |s| == n && forall i | 0 <= i < n :: s[i] == 0
  {
    seq(n, _ => 0)
  }

  /** What the caller gets: a value, and the reply where one was decoded. */
  datatype ClientResult = ClientResult(ret: int, reply: Option<Response>)

  /** `None` where a length read from the connection drives the code out of a buffer. */
  function ClientOutcome(s: seq<byte>, expected: u32): Option<ClientResult> {
    if !FitsIn(s, BUFFERSIZE) then None else
    var buf := Received(s, Zeros(BUFFERSIZE)).1;
    var h := ReadHostHeader(buf);
    if h.kind != COREFS_RESPONSE then Some(ClientResult(-EPROTO, None)) else
    match DecodeResponse(buf[HEADER_SIZE..], h.payloadSize)
    case None => None
    case Some((r, _)) => Some(ClientResult(Interpret(h, r, expected), Some(r)))
  }

  /** The value `client_receive_specified` returns. */
  function ReturnedTo(s: seq<byte>, expected: u32): Option<int> {
    match ClientOutcome(s, expected)
    case None => None
    case Some(r) => Some(r.ret)
  }

  /**
   * `client_receive_specified`. Its guard for a failed receive compares an `int` with a `size_t`, so
   * that -1 counts as a large size and the zero-filled buffer is decoded in any case.
   */
  method ClientReceive(pipe: Pipe, expected: u32) returns (result: Option<ClientResult>)
    modifies pipe
    ensures result == ClientOutcome(old(pipe.stream), expected)
    ensures result.Some? ==> pipe.stream == Rest(old(pipe.stream))
  {
    var buf := new byte[BUFFERSIZE](_ => 0);
    assert buf[..] == Zeros(BUFFERSIZE);
    var ok, got := MyReceive(pipe, buf);
    if !ok {
      return None;
    }
    var h := LoadHostHeader(buf);
    if h.kind != COREFS_RESPONSE {
      return Some(ClientResult(-EPROTO, None));
    }
    var decoded := DecapResponse(buf, HEADER_SIZE, h.payloadSize);
    match decoded
    case None => result := None;
    case Some((r, _)) => result := Some(ClientResult(Interpret(h, r, expected), Some(r)));
  }

  method LoadHostHeader(buf: array<byte>) returns (h: Header)
    requires HEADER_SIZE <= buf.Length
    ensures h == ReadHostHeader(buf[..])
  {
    var host := buf[..];
    h := ReadHostHeader(host);
  }

  lemma OutcomeOf(s: seq<byte>, h: Header, tail: seq<byte>, expected: u32)
    requires FitsIn(s, BUFFERSIZE)
    requires Received(s, Zeros(BUFFERSIZE)).1 == HostHeader(h) + tail && h.kind == COREFS_RESPONSE
    ensures ClientOutcome(s, expected) == match DecodeResponse(tail, h.payloadSize)
                                          case None => None
                                          case Some((r, _)) => Some(ClientResult(Interpret(h, r, expected), Some(r)))
  {
    HostHeaderRoundTrip(h, tail);
    assert (HostHeader(h) + tail)[HEADER_SIZE..] == tail;
  }

  /** A complete reply is interpreted as it was built. */
  lemma CompleteReply(p: ResponsePacket, rest: seq<byte>, expected: u32)
    requires StorableResult(p.response.result) && p.header.kind == COREFS_RESPONSE
    requires p.header.payloadSize == |EncodeResponse(p.response)| && |Sent(p)| <= BUFFERSIZE
    ensures ClientOutcome(Sent(p) + rest, expected)
         == Some(ClientResult(Interpret(p.header, p.response, expected), Some(p.response)))
    ensures Rest(Sent(p) + rest) == rest
  {
    var e, zeros := EncodeResponse(p.response), Zeros(BUFFERSIZE);
    PayloadReceived(p.header, e, rest, zeros);
    Halves(Sent(p), rest);
    OutcomeOf(Sent(p) + rest, p.header, e + zeros[|Sent(p)|..], expected);
    ResponseRoundTrip(p.response, zeros[|Sent(p)|..], p.header.payloadSize);
  }

  lemma CompleteValue(p: ResponsePacket, rest: seq<byte>, expected: u32, value: int)
    requires StorableResult(p.response.result) && p.header.kind == COREFS_RESPONSE
    requires p.header.payloadSize == |EncodeResponse(p.response)| && |Sent(p)| <= BUFFERSIZE
    requires Interpret(p.header, p.response, expected) == value
    ensures ReturnedTo(Sent(p) + rest, expected) == Some(value) && Rest(Sent(p) + rest) == rest
  {
    CompleteReply(p, rest, expected);
  }

  lemma StatusPacketSize(p: ResponsePacket, sequence: u32, bits: u32, isError: bool, more: u32)
    requires p == BuildStatus(sequence, bits, isError, more)
    ensures |EncodeResponse(p.response)| == 12 == p.header.payloadSize
    ensures |Sent(p)| == 28
  {
  }

  lemma NegatedError(errno: int)
    requires -0x8000_0000 < errno < 0x8000_0000
    ensures Signed(Negated(Unsigned(errno))) == -errno
  {
  }

  /**
   * An error number sent with `error_reply` reaches the caller of `client_receive_specified` negated,
   * whatever kind of reply that caller waits for.
   */
  lemma ErrorReachesClient(errno: int, sequence: u32, more: u32, rest: seq<byte>, expected: u32)
    requires -0x8000_0000 < errno < 0x8000_0000
    ensures var s := Sent(BuildStatus(sequence, Unsigned(errno), true, more)) + rest;
            ReturnedTo(s, expected) == Some(-errno) && Rest(s) == rest
  {
    var p := BuildStatus(sequence, Unsigned(errno), true, more);
    StatusPacketSize(p, sequence, Unsigned(errno), true, more);
    NegatedError(errno);
    CompleteValue(p, rest, expected, -errno);
  }

  /** A status reply returns its bits to a caller that waits for a status. */
  lemma StatusReachesClient(status: int, sequence: u32, more: u32, rest: seq<byte>)
    requires -0x8000_0000 <= status < 0x8000_0000
    ensures var s := Sent(BuildStatus(sequence, Unsigned(status), false, more)) + rest;
            ReturnedTo(s, RESPONSE_STATUS) == Some(status) && Rest(s) == rest
  {
    var p := BuildStatus(sequence, Unsigned(status), false, more);
    StatusPacketSize(p, sequence, Unsigned(status), false, more);
    CompleteValue(p, rest, RESPONSE_STATUS, status);
  }

  /** A reply that is neither an error nor of the type waited for is a protocol error of the client itself. */
  lemma OtherTypeReaches(p: ResponsePacket, rest: seq<byte>, expected: u32)
    requires StorableResult(p.response.result) && p.header.kind == COREFS_RESPONSE && !p.response.result.Error?
    requires p.header.payloadSize == |EncodeResponse(p.response)| && |Sent(p)| <= BUFFERSIZE
    requires match p.response.result
             case Data(_) => expected != 0xA
             case MoreData(_) => expected != 0xE && expected != 0xA
             case Status(_) => expected != 0xB
             case Attributes(_) => expected != 0xC
             case Unknown(tag) => expected != tag
             case Error(_) => false
    ensures ReturnedTo(Sent(p) + rest, expected) == Some(-71) && Rest(Sent(p) + rest) == rest
  {
    CompleteValue(p, rest, expected, -71);
  }

  // ---------------------------------------------------------------- replies cut short by a broken connection

  /** The bytes of a word of which only the first `n` arrive; the buffer was cleared. */
  function Kept(w: u32, n: int): (s: seq<byte>)
    ensures |s| == 4
  {
    seq(4, i requires 0 <= i < 4 => if i < n then BigEndian(w)[i] else 0)
  }

  function Arrived(w: u32, n: int): u32 {
    BigWord(Kept(w, n), 0)
  }

  /** A status word that lies at bytes 24 to 27 of the packet. */
  function CutBits(bits: u32, cut: nat): u32 { Arrived(bits, cut - HEADER_SIZE - RESPONSE_BASE_SIZE) }

  predicate Accepts(expected: u32, r: Result) {
    r.Error? || ResultTag(r) == expected || (expected == RESPONSE_DATA && r.MoreData?)
  }

  /** What a caller that waits for a reply of type `expected` gets when only `cut` bytes of `p` arrive. */
  function CutValue(p: ResponsePacket, cut: nat, expected: u32): int {
    if cut < HEADER_SIZE + 4 || !Accepts(expected, p.response.result) then -EPROTO else
    match p.response.result
    case Error(bits) => Signed(Negated(CutBits(bits, cut)))
    case Status(bits) => Signed(CutBits(bits, cut))
    case _ => Signed(p.header.payloadSize)
  }

  /** A reply as the build functions make it, small enough for the client's buffer. */
  ghost predicate IsReply(p: ResponsePacket) {
    && p.header.kind == COREFS_RESPONSE && !p.response.result.Unknown?
    && p.header.payloadSize == |EncodeResponse(p.response)| && |Sent(p)| <= BUFFERSIZE
  }

  lemma BuiltIsReply(p: ResponsePacket, sequence: u32, data: seq<byte>, w: u32, e: bool, more: u32, attr: Attr)
    requires p in {BuildResponseData(sequence, data), BuildMoreData(sequence, data, w),
                   BuildStatus(sequence, w, e, more), BuildAttr(sequence, attr, more)}
    requires |Sent(p)| <= BUFFERSIZE && |data| + RESPONSE_BASE_SIZE < 0x1_0000_0000
    ensures IsReply(p)
  {
    ResponseSizes(p, sequence, data, w, e, more, attr);
  }

  /**
   * A reply of any kind, cut anywhere, for a caller that waits for anything: up to the end of the type word
   * the cut is reported. Behind it the guard lets the cut pass, and what has not arrived reads as zero.
   */
  lemma CutReply(p: ResponsePacket, cut: nat, expected: u32)
    requires IsReply(p) && cut < |Sent(p)| && expected != 0
    ensures ReturnedTo(Sent(p)[..cut], expected) == Some(CutValue(p, cut, expected))
  {
    if cut < HEADER_SIZE {
      CutHeader(p, cut, expected);
    } else {
      CutPayload(p, cut, expected);
    }
  }

  /** When the caller of an accepted reply sees a failure at all. */
  lemma CutReadsAsError(p: ResponsePacket, cut: nat, expected: u32)
    requires IsReply(p) && cut < |Sent(p)| && expected != 0 && Accepts(expected, p.response.result)
    ensures ReturnedTo(Sent(p)[..cut], expected).Some?
    ensures ReturnedTo(Sent(p)[..cut], expected).value < 0 <==>
            || cut < HEADER_SIZE + 4
            || (p.response.result.Error? && 0 < CutBits(p.response.result.bits, cut) <= 0x8000_0000)
            || (p.response.result.Status? && 0x8000_0000 <= CutBits(p.response.result.bits, cut))
  {
    CutReply(p, cut, expected);
  }

  /** The refusal of a call with an error number below 256, cut behind its type word, reads as success. */
  lemma CutRefusal(errno: int, sequence: u32, more: u32, cut: nat, expected: u32)
    requires 0 < errno < 0x100 && cut < 28 && expected != 0
    ensures var s := Sent(BuildStatus(sequence, errno, true, more));
            |s| == 28 && ReturnedTo(s[..cut], expected) == Some(if cut < 20 then -EPROTO else 0)
  {
    var p := BuildStatus(sequence, errno, true, more);
    StatusPacketSize(p, sequence, errno, true, more);
    CutReply(p, cut, expected);
    ArrivedSmall(errno, cut - 24);
  }

  lemma ArrivedSmall(w: u32, n: int)
    requires w < 0x100
    ensures Arrived(w, n) == if n < 4 then 0 else w
  {
    assert BigEndian(w) == [0, 0, 0, w];
    BigWordIs(Kept(w, n), 0);
  }

  lemma CutHeader(p: ResponsePacket, cut: nat, expected: u32)
    requires p.header.kind == COREFS_RESPONSE && cut < HEADER_SIZE
    ensures ReturnedTo(Sent(p)[..cut], expected) == Some(-EPROTO)
  {
    var s := Sent(p)[..cut];
    var buf := Received(s, Zeros(BUFFERSIZE)).1;
    assert s == EncodeHeader(p.header)[..cut];
    assert buf == s + Zeros(BUFFERSIZE)[cut..];
    HeaderUnread(p.header, cut, Zeros(BUFFERSIZE)[cut..]);
  }

  /** A header that did not arrive whole is not decoded, so its kind reads as a large number or as zero. */
  lemma HeaderUnread(h: Header, cut: nat, zeros: seq<byte>)
    requires cut < HEADER_SIZE <= cut + |zeros| && h.kind < 0x100 && forall i | 0 <= i < |zeros| :: zeros[i] == 0
    ensures ReadHostHeader(EncodeHeader(h)[..cut] + zeros).kind in {0, h.kind * 0x100_0000}
  {
    var s, buf := EncodeHeader(h), EncodeHeader(h)[..cut] + zeros;
    BigWordAt(HeaderWords(h), [], 1);
    assert s + [] == s;
    BigWordInverse(s, 4);
    assert BigEndian(h.kind) == [0, 0, 0, h.kind];
    assert s[4] == s[4..8][0] && s[5] == s[4..8][1] && s[6] == s[4..8][2] && s[7] == s[4..8][3];
    assert buf[4] == 0 && buf[5] == 0 && buf[6] == 0 && buf[7] == if cut < 8 then 0 else h.kind;
    LittleWordIs(buf, 4);
  }

  /** The words of a message cut after `k` bytes. */
  lemma CutWord(e: seq<byte>, k: nat, zeros: seq<byte>, pos: nat)
    requires k <= |e| && pos + 4 <= |e| <= k + |zeros| && forall i | 0 <= i < |zeros| :: zeros[i] == 0
    ensures BigWord(e[..k] + zeros, pos) == Arrived(BigWord(e, pos), k - pos)
  {
    CutByte(e, k, zeros, pos, 0);
    CutByte(e, k, zeros, pos, 1);
    CutByte(e, k, zeros, pos, 2);
    CutByte(e, k, zeros, pos, 3);
    SameWord(e[..k] + zeros, pos, Kept(BigWord(e, pos), k - pos), 0);
  }

  lemma CutByte(e: seq<byte>, k: nat, zeros: seq<byte>, pos: nat, j: nat)
    requires k <= |e| && j < 4 && pos + 4 <= |e| <= k + |zeros| && forall i | 0 <= i < |zeros| :: zeros[i] == 0
    ensures (e[..k] + zeros)[pos + j] == Kept(BigWord(e, pos), k - pos)[j]
  {
    BigWordInverse(e, pos);
    assert e[pos..pos + 4][j] == e[pos + j];
  }

  /** The words that decide what is decoded from a reply cut after `k` bytes of its payload. */
  lemma CutWords(r: Response, k: nat, zeros: seq<byte>)
    requires k < |EncodeResponse(r)| <= k + |zeros| && !r.result.Unknown?
    requires forall i | 0 <= i < |zeros| :: zeros[i] == 0
    ensures var t := EncodeResponse(r)[..k] + zeros;
            && BigWord(t, 0) == (if k < 4 then 0 else ResultTag(r.result))
            && (r.result.Error? || r.result.Status? ==> 12 <= |t| && BigWord(t, 8) == Arrived(r.result.bits, k - 8))
  {
    var e := EncodeResponse(r);
    NothingAfter(e);
    ResponseWordAt(r, [], 0);
    CutWord(e, k, zeros, 0);
    ArrivedSmall(ResultTag(r.result), k);
    if r.result.Error? || r.result.Status? {
      ResponseWordAt(r, [], 2);
      CutWord(e, k, zeros, 8);
    }
  }

  /** What such a message reads as, if its type word is that of `r` and its third word is `bits`. */
  lemma DecodedByTag(r: Result, t: seq<byte>, payloadSize: nat, bits: u32)
    requires !r.Unknown? && 40 <= |t| && 8 <= payloadSize <= |t| && BigWord(t, 0) == ResultTag(r)
    requires r.Error? || r.Status? ==> BigWord(t, 8) == bits
    ensures var d := DecodeResponse(t, payloadSize);
            && d.Some?
            && match r
               case Error(_) => d.value.0.result == Error(bits)
               case Status(_) => d.value.0.result == Status(bits)
               case _ => ResultTag(d.value.0.result) == ResultTag(r)
  {
  }

  lemma DecodedUntyped(t: seq<byte>, payloadSize: nat)
    requires 8 <= |t| && BigWord(t, 0) == 0
    ensures DecodeResponse(t, payloadSize) == Some((Response(BigWord(t, 4), Unknown(0)), 8))
  {
  }

  lemma CutPayload(p: ResponsePacket, cut: nat, expected: u32)
    requires IsReply(p) && HEADER_SIZE <= cut < |Sent(p)| && expected != 0
    ensures ReturnedTo(Sent(p)[..cut], expected) == Some(CutValue(p, cut, expected))
  {
    var k, e, zeros := cut - HEADER_SIZE, EncodeResponse(p.response), Zeros(BUFFERSIZE);
    var s := EncodeHeader(p.header) + e[..k] + [];
    assert Sent(p)[..cut] == s;
    PayloadReceived(p.header, e[..k], [], zeros);
    var t := e[..k] + zeros[cut..];
    OutcomeOf(s, p.header, t, expected);
    CutWords(p.response, k, zeros[cut..]);
    CutInterpreted(p, cut, t, expected);
  }

  lemma CutInterpreted(p: ResponsePacket, cut: nat, t: seq<byte>, expected: u32)
    requires IsReply(p) && HEADER_SIZE <= cut && expected != 0 && |t| == BUFFERSIZE - HEADER_SIZE
    requires BigWord(t, 0) == if cut < HEADER_SIZE + 4 then 0 else ResultTag(p.response.result)
    requires p.response.result.Error? || p.response.result.Status? ==>
               BigWord(t, 8) == CutBits(p.response.result.bits, cut)
    ensures var d := DecodeResponse(t, p.header.payloadSize);
            d.Some? && Interpret(p.header, d.value.0, expected) == CutValue(p, cut, expected)
  {
    var r := p.response.result;
    if cut < HEADER_SIZE + 4 {
      DecodedUntyped(t, p.header.payloadSize);
    } else {
      DecodedByTag(r, t, p.header.payloadSize, if r.Error? || r.Status? then CutBits(r.bits, cut) else 0);
    }
  }

  // ---------------------------------------------------------------- the two packets of a write

  ghost function SentRequest(p: RequestPacket): seq<byte>
    requires Storable(p.request)
  {
    EncodeHeader(p.header) + EncodeRequest(p.request)
  }

  /** The bytes on the wire: what the encoder wrote, filled up to the framed size. */
  ghost function Framed(p: RequestPacket): seq<byte>
    requires Storable(p.request) && |EncodeRequest(p.request)| <= p.header.payloadSize
  {
    SentRequest(p) + Zeros(p.header.payloadSize - |EncodeRequest(p.request)|)
  }

  lemma FramedExactly(p: RequestPacket)
    requires Storable(p.request) && |EncodeRequest(p.request)| == p.header.payloadSize
    ensures Framed(p) == SentRequest(p)
  {
  }

  lemma WriteDataSize(sequence: u32, user: UserInfo, data: seq<byte>)
    requires |data| + 2048 <= BUFFERSIZE
    ensures var p := WriteData(sequence, user, data);
            Storable(p.request) && |EncodeRequest(p.request)| == |data| + 16 == p.header.payloadSize
  {
    RawSize(SwapBytes(sequence), SwapBytes(user.uid), SwapBytes(user.gid), data);
  }

  lemma RawSize(sequence: u32, uid: u32, gid: u32, data: seq<byte>)
    requires |data| + 2048 <= BUFFERSIZE
    ensures var p := BuildRequestData(sequence, UserInfo(uid, gid, []), data);
            Storable(p.request) && |EncodeRequest(p.request)| == |data| + 16 == p.header.payloadSize
  {
    EncodedSize(BuildRequestData(sequence, UserInfo(uid, gid, []), data).request);
  }

  /** The payload size `build_request_data` computes over a packet in host memory with `n` supplementary gids. */
  function DataPayloadSize(n: u32, size: nat): u32 {
    Truncated(size + RequestBaseSize(n))
  }

  /**
   * `do_write` builds its data packet over the buffer that still holds the write command in network
   * order, so the count of gids is read byte-swapped: the data is framed right exactly when there are none.
   */
  lemma {:induction false} DataFramedIffNoGids(numSgids: u32, size: nat)
    requires numSgids <= MAX_COREFS_GIDS && size + RequestBaseSize(MAX_COREFS_GIDS) < 0x1_0000_0000
    ensures DataPayloadSize(SwapBytes(numSgids), size) == size + RequestBaseSize(numSgids) <==> numSgids == 0
  {
    SwapSmall(numSgids);
    var excess := numSgids * (4 * 0x100_0000 - 4);
    assert 4 * SwapBytes(numSgids) == 4 * numSgids + excess;
    assert 0 <= excess < 0x1_0000_0000;
  }

  lemma SwapSmall(w: u32)
    requires w < 0x100
    ensures SwapBytes(w) == w * 0x100_0000
  {
    assert BigEndian(w) == [0, 0, 0, w];
    LittleWordIs(BigEndian(w), 0);
  }

  lemma SwappedWord(s: seq<byte>, pos: nat)
    requires pos + 4 <= |s|
    ensures LittleWord(s, pos) == SwapBytes(BigWord(s, pos))
  {
    BigWordInverse(s, pos);
    assert s[pos..pos + 4][0] == s[pos] && s[pos..pos + 4][1] == s[pos + 1];
    assert s[pos..pos + 4][2] == s[pos + 2] && s[pos..pos + 4][3] == s[pos + 3];
    LittleWordIs(s, pos);
    LittleWordIs(BigEndian(BigWord(s, pos)), 0);
  }

  /** A plain load of a word that lies in the buffer in network order. */
  method LoadWord(buf: array<byte>, pos: nat) returns (w: u32)
    requires pos + 4 <= buf.Length
    ensures w == SwapBytes(BigWord(buf[..], pos))
  {
    w := Word(buf[pos + 3], buf[pos + 2], buf[pos + 1], buf[pos]);
    LittleWordIs(buf[..], pos);
    SwappedWord(buf[..], pos);
  }

  /** Encapsulation and `send_packet` for a request; bytes framed but not written stay zero. */
  method SendRequest(pipe: Pipe, buffer: array<byte>, p: RequestPacket) returns (sent: bool)
    requires Storable(p.request)
    requires |EncodeRequest(p.request)| <= p.header.payloadSize && HEADER_SIZE + p.header.payloadSize <= buffer.Length
    requires buffer[..] == Zeros(buffer.Length)
    modifies pipe, buffer
    ensures Wrote(old(pipe.stream), pipe.stream, Framed(p), sent) && (!pipe.breaks ==> sent)
    ensures buffer[..] == SentRequest(p) + Zeros(buffer.Length - |SentRequest(p)|)
  {
    ghost var written := SentRequest(p);
    var size := HEADER_SIZE + p.header.payloadSize;
    var ret := EncapHeader(buffer, 0, p.header);
    ret := EncapRequest(buffer, ret, p.request);
    SpliceAppend(Zeros(buffer.Length), 0, EncodeHeader(p.header), EncodeRequest(p.request));
    assert buffer[..] == written + Zeros(buffer.Length - |written|);
    assert buffer[..size] == Framed(p);
    ret := SocketWrite(pipe, buffer, size);
    sent := ret == size;
  }

  const WRITE: u32 := 28

  function WriteCommand(sequence: u32, user: UserInfo, offset: u32, size: u32, path: seq<byte>): RequestPacket {
    BuildFileop(sequence, user, WRITE, offset, size, path)
  }

  /** The data packet as it leaves the client: the fields taken over from the command are byte-swapped. */
  function WriteData(sequence: u32, user: UserInfo, data: seq<byte>): RequestPacket {
    BuildRequestData(SwapBytes(sequence), UserInfo(SwapBytes(user.uid), SwapBytes(user.gid), []), data)
  }

  /** `build_request_data` over the buffer of the command, and the second send. */
  method SendWriteData(pipe: Pipe, buffer: array<byte>, ghost command: RequestPacket, data: seq<byte>)
    returns (sent: Option<bool>)
    requires Storable(command.request) && |data| + 2048 <= BUFFERSIZE
    requires |SentRequest(command)| <= buffer.Length
    requires buffer[..] == SentRequest(command) + Zeros(buffer.Length - |SentRequest(command)|)
    modifies pipe
    ensures sent.Some? <==> command.request.user.sgids == []
    ensures sent.None? ==> pipe.stream == old(pipe.stream)
    ensures var p := WriteData(command.header.sequence, command.request.user, data);
            && Storable(p.request)
            && (sent.Some? ==> Wrote(old(pipe.stream), pipe.stream, SentRequest(p), sent.value))
    ensures !pipe.breaks ==> sent != Some(false)
  {
    var seqno, uid, gid, numSgids := ReadBack(buffer, command);
    ghost var expected := WriteData(command.header.sequence, command.request.user, data);
    WriteDataSize(command.header.sequence, command.request.user, data);
    SwapSmall(|command.request.user.sgids|);
    if MAX_COREFS_GIDS < numSgids {
      return None;
    }
    var payloadSize := DataPayloadSize(numSgids, |data|);
    var p := RequestPacket(Header(COREFS_MAGIC, COREFS_REQUEST, seqno, payloadSize),
                           Request(UserInfo(uid, gid, []), Raw(data)));
    assert p == expected;
    var outBuffer := new byte[HEADER_SIZE + payloadSize](_ => 0);
    assert outBuffer[..] == Zeros(outBuffer.Length);
    FramedExactly(p);
    var ok := SendRequest(pipe, outBuffer, p);
    sent := Some(ok);
  }

  /** The user fields of the packet a buffer holds in network order, read as the host reads its structure. */
  method ReadBack(buffer: array<byte>, ghost p: RequestPacket) returns (seqno: u32, uid: u32, gid: u32, numSgids: u32)
    requires Storable(p.request) && |SentRequest(p)| <= buffer.Length
    requires buffer[..] == SentRequest(p) + Zeros(buffer.Length - |SentRequest(p)|)
    ensures seqno == SwapBytes(p.header.sequence) && uid == SwapBytes(p.request.user.uid)
    ensures gid == SwapBytes(p.request.user.gid) && numSgids == SwapBytes(|p.request.user.sgids|)
  {
    ghost var s, tail := buffer[..], Zeros(buffer.Length - |SentRequest(p)|);
    UserFieldsSent(p, tail);
    seqno := LoadWord(buffer, 8);
    uid := LoadWord(buffer, 20);
    gid := LoadWord(buffer, 24);
    numSgids := LoadWord(buffer, 28);
  }

  lemma UserFieldsSent(p: RequestPacket, tail: seq<byte>)
    requires Storable(p.request)
    ensures var s := SentRequest(p) + tail;
            && 32 <= |s| && BigWord(s, 8) == p.header.sequence && BigWord(s, 20) == p.request.user.uid
            && BigWord(s, 24) == p.request.user.gid && BigWord(s, 28) == |p.request.user.sgids|
  {
    var h, e := EncodeHeader(p.header), EncodeRequest(p.request) + tail;
    assert SentRequest(p) + tail == h + e;
    HeaderRoundTrip(p.header, e);
    UserFields(p.request, e, tail);
    ShiftedWord(h, e, 4);
    ShiftedWord(h, e, 8);
    ShiftedWord(h, e, 12);
  }

  lemma ShiftedWord(h: seq<byte>, e: seq<byte>, pos: nat)
    requires |h| == HEADER_SIZE && pos + 4 <= |e|
    ensures BigWord(h + e, HEADER_SIZE + pos) == BigWord(e, pos)
  {
    SameWord(h + e, HEADER_SIZE + pos, e, pos);
  }

  /** The server cuts the data packet out whole, finds its type and size as announced, and the bytes written. */
  lemma WriteDataArrives(sequence: u32, user: UserInfo, data: seq<byte>, tail: seq<byte>)
    requires |data| + 2048 <= BUFFERSIZE
    ensures var p := WriteData(sequence, user, data);
            && Storable(p.request) && IsPacket(SentRequest(p))
            && p.header.payloadSize - RequestBaseSize(0) == |data|
            && DecodeRequest(EncodeRequest(p.request) + tail, p.header.payloadSize)
               == Some((p.request, p.header.payloadSize)) && p.request.op == Raw(data)
  {
    var p := WriteData(sequence, user, data);
    EncodedSize(p.request);
    HeaderRoundTrip(p.header, EncodeRequest(p.request));
    RequestRoundTrip(p.request, tail, p.header.payloadSize);
  }
}
