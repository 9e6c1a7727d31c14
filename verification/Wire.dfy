/** The CoreFS packets (protocol.h) and their network form (common.c). */
module Wire {
  import opened Bytes

  const COREFS_MAGIC: u32 := 0xDEADBEEF
  const HEADER_SIZE := 16
  const BUFFERSIZE := 133120
  const MAX_COREFS_GIDS := 32
  const MAX_COREFS_PATH := 4096

  // header types
  const COREFS_REQUEST: u32 := 0xBA
  const COREFS_RESPONSE: u32 := 0xBB
  // request types
  const REQUEST_DATA: u32 := 0xAA
  const REQUEST_FILEOP: u32 := 0xAB
  const REQUEST_SIMPLE: u32 := 0xAC
  const REQUEST_XATTR: u32 := 0xAD
  // response types
  const RESPONSE_DATA: u32 := 0xA
  const RESPONSE_STATUS: u32 := 0xB
  const RESPONSE_ATTR: u32 := 0xC
  const RESPONSE_ERROR: u32 := 0xD
  const RESPONSE_MOREDATA: u32 := 0xE

  datatype Header = Header(magic: u32, kind: u32, sequence: u32, payloadSize: u32)

  datatype UserInfo = UserInfo(uid: u32, gid: u32, sgids: seq<u32>)

  /** The operation union; `Other` is a request type the code has no branch for. */
  datatype Operation =
    | Raw(data: seq<byte>)
    | Simple(kind: u32, offset: u32, mode: u32, path1: seq<byte>, path2: seq<byte>)
    | Fileop(kind: u32, offset: u32, size: u32, path: seq<byte>)
    | Xattr(kind: u32, flags: u32, valueSize: u32, pathLen: u32, nameLen: u32, params: seq<byte>)
    | Other(tag: u32)

  datatype Request = Request(user: UserInfo, op: Operation)

  datatype Attr = Attr(mode: u32, uid: u32, gid: u32, size: u32, mtime: u32, atime: u32, ctime: u32, nlinks: u32)

  datatype Result =
    | Data(data: seq<byte>)
    | MoreData(data: seq<byte>)
    | Status(bits: u32)
    | Error(bits: u32)
    | Attributes(attr: Attr)
    | Unknown(tag: u32)

  datatype Response = Response(moreOffset: u32, result: Result)

  function RequestTag(op: Operation): u32 {
    match op
    case Raw(_) => REQUEST_DATA
    case Simple(_, _, _, _, _) => REQUEST_SIMPLE
    case Fileop(_, _, _, _) => REQUEST_FILEOP
    case Xattr(_, _, _, _, _, _) => REQUEST_XATTR
    case Other(tag) => tag
  }

  function ResultTag(r: Result): u32 {
    match r
    case Data(_) => RESPONSE_DATA
    case MoreData(_) => RESPONSE_MOREDATA
    case Status(_) => RESPONSE_STATUS
    case Error(_) => RESPONSE_ERROR
    case Attributes(_) => RESPONSE_ATTR
    case Unknown(tag) => tag
  }

  /** `pathlen + 1 + namelen` in unsigned arithmetic. */
  function ParamsSize(pathLen: u32, nameLen: u32): nat {
    var n := pathLen + 1 + nameLen;
    if n < 0x1_0000_0000 then n else n - 0x1_0000_0000
  }

  /** What the C structures can hold: the fixed arrays and the lengths stored next to the data. */
  ghost predicate Storable(r: Request) {
    |r.user.sgids| <= MAX_COREFS_GIDS && StorableOp(r.op)
  }

  ghost predicate StorableOp(op: Operation) {
    match op
    case Raw(_) => true
    case Simple(_, _, _, path1, path2) => |path1| < MAX_COREFS_PATH && |path2| < MAX_COREFS_PATH
    case Fileop(_, _, _, path) => |path| < MAX_COREFS_PATH
    case Xattr(_, _, _, pathLen, nameLen, params) => |params| == ParamsSize(pathLen, nameLen)
    case Other(tag) => tag !in {REQUEST_DATA, REQUEST_SIMPLE, REQUEST_FILEOP, REQUEST_XATTR}
  }

  ghost predicate StorableResult(r: Result) {
    r.Unknown? ==>
      r.tag !in {RESPONSE_DATA, RESPONSE_MOREDATA, RESPONSE_STATUS, RESPONSE_ERROR, RESPONSE_ATTR}
  }

  // ---------------------------------------------------------------- encoding

  function HeaderWords(h: Header): seq<u32> {
    [h.magic, h.kind, h.sequence, h.payloadSize]
  }

  function EncodeHeader(h: Header): (s: seq<byte>)
    ensures |s| == HEADER_SIZE
  {
    BigEndianWords(HeaderWords(h))
  }

  function OpWords(op: Operation): seq<u32>
    requires StorableOp(op)
  {
    match op
    case Simple(kind, offset, mode, path1, path2) => [kind, offset, mode, |path1|, |path2|]
    case Fileop(kind, offset, size, path) => [kind, offset, size, |path|]
    case Xattr(kind, flags, valueSize, pathLen, nameLen, _) => [kind, flags, valueSize, pathLen, nameLen]
    case _ => []
  }

  function OpTail(op: Operation): seq<byte> {
    match op
    case Raw(data) => data
    case Simple(_, _, _, path1, path2) => path1 + path2
    case Fileop(_, _, _, path) => path
    case Xattr(_, _, _, _, _, params) => params
    case Other(_) => []
  }

  ghost function UserWords(r: Request): seq<u32>
    requires Storable(r)
  {
    [RequestTag(r.op), r.user.uid, r.user.gid, |r.user.sgids|] + r.user.sgids
  }

  ghost function RequestWords(r: Request): seq<u32>
    requires Storable(r)
  {
    UserWords(r) + OpWords(r.op)
  }

  ghost function EncodeRequest(r: Request): (s: seq<byte>)
    requires Storable(r)
  {
    BigEndianWords(RequestWords(r)) + OpTail(r.op)
  }

  function ResponseWords(r: Response): seq<u32> {
    [ResultTag(r.result), r.moreOffset] +
    match r.result
    case Status(bits) => [bits]
    case Error(bits) => [bits]
    case Attributes(a) => [a.mode, a.uid, a.gid, a.size, a.mtime, a.atime, a.ctime, a.nlinks]
    case _ => []
  }

  function ResultTail(r: Result): seq<byte> {
    match r
    case Data(data) => data
    case MoreData(data) => data
    case _ => []
  }

  function EncodeResponse(r: Response): seq<byte> {
    BigEndianWords(ResponseWords(r)) + ResultTail(r.result)
  }

  // ---------------------------------------------------------------- decoding
  // `None` stands for a message whose lengths lead the C code outside the buffer or the packet structure.

  function DecodeHeader(s: seq<byte>): Header
    requires HEADER_SIZE <= |s|
  {
    Header(BigWord(s, 0), BigWord(s, 4), BigWord(s, 8), BigWord(s, 12))
  }

  function DecodeSimple(s: seq<byte>, pos: nat): Option<(Operation, nat)> {
    if |s| < pos + 20 then None else
    var l1, l2 := BigWord(s, pos + 12), BigWord(s, pos + 16);
    var mid := pos + 20 + l1;
    if MAX_COREFS_PATH <= l1 || MAX_COREFS_PATH <= l2 || |s| < mid + l2 then None else
    Some((Simple(BigWord(s, pos), BigWord(s, pos + 4), BigWord(s, pos + 8),
                 s[pos + 20..mid], s[mid..mid + l2]), mid + l2))
  }

  function DecodeFileop(s: seq<byte>, pos: nat): Option<(Operation, nat)> {
    if |s| < pos + 16 then None else
    var l := BigWord(s, pos + 12);
    if MAX_COREFS_PATH <= l || |s| < pos + 16 + l then None else
    Some((Fileop(BigWord(s, pos), BigWord(s, pos + 4), BigWord(s, pos + 8),
                 s[pos + 16..pos + 16 + l]), pos + 16 + l))
  }

  function DecodeXattr(s: seq<byte>, pos: nat): Option<(Operation, nat)> {
    if |s| < pos + 20 then None else
    var pathLen, nameLen := BigWord(s, pos + 12), BigWord(s, pos + 16);
    var end := pos + 20 + ParamsSize(pathLen, nameLen);
    if |s| < end then None else
    Some((Xattr(BigWord(s, pos), BigWord(s, pos + 4), BigWord(s, pos + 8), pathLen, nameLen,
                s[pos + 20..end]), end))
  }

  function DecodeOp(tag: u32, s: seq<byte>, pos: nat, payloadSize: nat): Option<(Operation, nat)> {
    if tag == REQUEST_DATA then
      if pos <= payloadSize <= |s| then Some((Raw(s[pos..payloadSize]), payloadSize)) else None
    else if tag == REQUEST_SIMPLE then DecodeSimple(s, pos)
    else if tag == REQUEST_FILEOP then DecodeFileop(s, pos)
    else if tag == REQUEST_XATTR then DecodeXattr(s, pos)
    else Some((Other(tag), pos))
  }

  function DecodeRequest(s: seq<byte>, payloadSize: nat): Option<(Request, nat)> {
    if |s| < 16 then None else
    var n := BigWord(s, 12);
    if MAX_COREFS_GIDS < n || |s| < 16 + 4 * n then None else
    var user := UserInfo(BigWord(s, 4), BigWord(s, 8), ReadWords(s, 16, n));
    match DecodeOp(BigWord(s, 0), s, 16 + 4 * n, payloadSize)
    case None => None
    case Some((op, pos)) => Some((Request(user, op), pos))
  }

  function DecodeResult(tag: u32, s: seq<byte>, payloadSize: nat): Option<(Result, nat)> {
    if tag == RESPONSE_DATA || tag == RESPONSE_MOREDATA then
      if 8 <= payloadSize <= |s| then
        var data := s[8..payloadSize];
        Some((if tag == RESPONSE_DATA then Data(data) else MoreData(data), payloadSize))
      else None
    else if tag == RESPONSE_STATUS || tag == RESPONSE_ERROR then
      if |s| < 12 then None else
      var bits := BigWord(s, 8);
      Some((if tag == RESPONSE_STATUS then Status(bits) else Error(bits), 12))
    else if tag == RESPONSE_ATTR then
      if |s| < 40 then None else
      Some((Attributes(Attr(BigWord(s, 8), BigWord(s, 12), BigWord(s, 16), BigWord(s, 20), BigWord(s, 24),
                            BigWord(s, 28), BigWord(s, 32), BigWord(s, 36))), 40))
    else
      Some((Unknown(tag), 8))
  }

  function DecodeResponse(s: seq<byte>, payloadSize: nat): Option<(Response, nat)> {
    if |s| < 8 then None else
    match DecodeResult(BigWord(s, 0), s, payloadSize)
    case None => None
    case Some((result, pos)) => Some((Response(BigWord(s, 4), result), pos))
  }

  // ---------------------------------------------------------------- round trips

  lemma HeaderRoundTrip(h: Header, tail: seq<byte>)
    ensures DecodeHeader(EncodeHeader(h) + tail) == h
  {
    BigWordAt(HeaderWords(h), tail, 0);
    BigWordAt(HeaderWords(h), tail, 1);
    BigWordAt(HeaderWords(h), tail, 2);
    BigWordAt(HeaderWords(h), tail, 3);
  }

  /** Every word of an encoded request sits at its own offset, whatever follows. */
  lemma RequestWordAt(r: Request, tail: seq<byte>, i: nat)
    requires Storable(r) && i < |RequestWords(r)|
    ensures BigWord(EncodeRequest(r) + tail, 4 * i) == RequestWords(r)[i]
  {
    BigWordAt(RequestWords(r), OpTail(r.op) + tail, i);
    assert EncodeRequest(r) + tail == BigEndianWords(RequestWords(r)) + (OpTail(r.op) + tail);
  }

  lemma UserFields(r: Request, s: seq<byte>, tail: seq<byte>)
    requires Storable(r) && s == EncodeRequest(r) + tail
    ensures 16 + 4 * |r.user.sgids| <= |s|
    ensures BigWord(s, 0) == RequestTag(r.op)
    ensures BigWord(s, 4) == r.user.uid
    ensures BigWord(s, 8) == r.user.gid
    ensures BigWord(s, 12) == |r.user.sgids|
    ensures ReadWords(s, 16, |r.user.sgids|) == r.user.sgids
  {
    var ws := RequestWords(r);
    assert ws[0] == RequestTag(r.op) && ws[1] == r.user.uid && ws[2] == r.user.gid && ws[3] == |r.user.sgids|;
    RequestWordAt(r, tail, 0);
    RequestWordAt(r, tail, 1);
    RequestWordAt(r, tail, 2);
    RequestWordAt(r, tail, 3);
    GidsAt(r, s, tail);
  }

  lemma GidsAt(r: Request, s: seq<byte>, tail: seq<byte>)
    requires Storable(r) && s == EncodeRequest(r) + tail
    ensures 16 + 4 * |r.user.sgids| <= |s| && ReadWords(s, 16, |r.user.sgids|) == r.user.sgids
  {
    var n := |r.user.sgids|;
    forall i | 0 <= i < n ensures ReadWords(s, 16, n)[i] == r.user.sgids[i] {
      ReadWordsAt(s, 16, n, i);
      assert RequestWords(r)[4 + i] == r.user.sgids[i];
      RequestWordAt(r, tail, 4 + i);
    }
  }

  /** The fixed fields of the operation follow the supplementary gids, in declaration order. */
  lemma OpFieldAt(r: Request, s: seq<byte>, tail: seq<byte>, i: nat)
    requires Storable(r) && s == EncodeRequest(r) + tail && i < |OpWords(r.op)|
    ensures BigWord(s, 16 + 4 * |r.user.sgids| + 4 * i) == OpWords(r.op)[i]
  {
    RequestWordAt(r, tail, 4 + |r.user.sgids| + i);
  }

  lemma OpTailAt(r: Request, s: seq<byte>, tail: seq<byte>)
    requires Storable(r) && s == EncodeRequest(r) + tail
    ensures var at := 16 + 4 * |r.user.sgids| + 4 * |OpWords(r.op)|;
            at + |OpTail(r.op)| == |EncodeRequest(r)| && s[at..at + |OpTail(r.op)|] == OpTail(r.op)
  {
  }

  // ---------------------------------------------------------------- the layout, word by word

  lemma HeaderLayout(h: Header, tail: seq<byte>)
    ensures var s := EncodeHeader(h) + tail;
            && BigWord(s, 0) == h.magic && BigWord(s, 4) == h.kind
            && BigWord(s, 8) == h.sequence && BigWord(s, 12) == h.payloadSize
  {
    HeaderRoundTrip(h, tail);
  }

  /** Type, user, group and number of supplementary groups, and these. */
  lemma UserLayout(r: Request, tail: seq<byte>)
    requires Storable(r)
    ensures var s := EncodeRequest(r) + tail;
            && 16 + 4 * |r.user.sgids| <= |s|
            && BigWord(s, 0) == (match r.op
                                 case Raw(_) => 0xAA
                                 case Fileop(_, _, _, _) => 0xAB
                                 case Simple(_, _, _, _, _) => 0xAC
                                 case Xattr(_, _, _, _, _, _) => 0xAD
                                 case Other(tag) => tag)
            && BigWord(s, 4) == r.user.uid && BigWord(s, 8) == r.user.gid && BigWord(s, 12) == |r.user.sgids|
            && forall i | 0 <= i < |r.user.sgids| :: BigWord(s, 16 + 4 * i) == r.user.sgids[i]
  {
    UserFields(r, EncodeRequest(r) + tail, tail);
    forall i | 0 <= i < |r.user.sgids| ensures BigWord(EncodeRequest(r) + tail, 4 * (4 + i)) == r.user.sgids[i] {
      RequestWordAt(r, tail, 4 + i);
    }
  }

  /** The words from `at` on. */
  ghost predicate WordsAt(s: seq<byte>, at: nat, ws: seq<u32>) {
    at + 4 * |ws| <= |s| && forall i | 0 <= i < |ws| :: BigWord(s, at + 4 * i) == ws[i]
  }

  ghost predicate BytesAt(s: seq<byte>, at: nat, bytes: seq<byte>) {
    at + |bytes| <= |s| && s[at..at + |bytes|] == bytes
  }

  /** Behind them the fields of the operation in the order of the structure, and its bytes. */
  lemma OpLayout(r: Request, tail: seq<byte>)
    requires Storable(r)
    ensures var s, at := EncodeRequest(r) + tail, 16 + 4 * |r.user.sgids|;
            match r.op
            case Raw(data) => BytesAt(s, at, data) && |EncodeRequest(r)| == at + |data|
            case Fileop(kind, offset, size, path) =>
              && WordsAt(s, at, [kind, offset, size, |path|]) && BytesAt(s, at + 16, path)
              && |EncodeRequest(r)| == at + 16 + |path|
            case Simple(kind, offset, mode, path1, path2) =>
              && WordsAt(s, at, [kind, offset, mode, |path1|, |path2|]) && BytesAt(s, at + 20, path1 + path2)
              && |EncodeRequest(r)| == at + 20 + |path1| + |path2|
            case Xattr(kind, flags, valueSize, pathLen, nameLen, params) =>
              && WordsAt(s, at, [kind, flags, valueSize, pathLen, nameLen]) && BytesAt(s, at + 20, params)
              && |EncodeRequest(r)| == at + 20 + |params|
            case Other(_) => |EncodeRequest(r)| == at
  {
    var s := EncodeRequest(r) + tail;
    OpTailAt(r, s, tail);
    OpWordsAt(r, tail);
  }

  lemma OpWordsAt(r: Request, tail: seq<byte>)
    requires Storable(r)
    ensures WordsAt(EncodeRequest(r) + tail, 16 + 4 * |r.user.sgids|, OpWords(r.op))
  {
    var s := EncodeRequest(r) + tail;
    OpTailAt(r, s, tail);
    forall i | 0 <= i < |OpWords(r.op)| ensures BigWord(s, 16 + 4 * |r.user.sgids| + 4 * i) == OpWords(r.op)[i] {
      OpFieldAt(r, s, tail, i);
    }
  }

  /** `op` lies in `s` at `pos`: its words, then its bytes. */
  ghost predicate OpAt(op: Operation, s: seq<byte>, pos: nat, end: nat)
    requires StorableOp(op)
  {
    var at := pos + 4 * |OpWords(op)|;
    && end == at + |OpTail(op)| <= |s|
    && (forall i | 0 <= i < |OpWords(op)| :: BigWord(s, pos + 4 * i) == OpWords(op)[i])
    && s[at..end] == OpTail(op)
  }

  lemma FiveWordsAt(op: Operation, s: seq<byte>, pos: nat, end: nat)
    requires StorableOp(op) && (op.Simple? || op.Xattr?)
    requires OpAt(op, s, pos, end)
    ensures var ws := OpWords(op);
            && BigWord(s, pos) == ws[0] && BigWord(s, pos + 4) == ws[1] && BigWord(s, pos + 8) == ws[2]
            && BigWord(s, pos + 12) == ws[3] && BigWord(s, pos + 16) == ws[4]
  {
    assert BigWord(s, pos + 4 * 0) == OpWords(op)[0];
    assert BigWord(s, pos + 4 * 1) == OpWords(op)[1];
    assert BigWord(s, pos + 4 * 2) == OpWords(op)[2];
    assert BigWord(s, pos + 4 * 3) == OpWords(op)[3];
    assert BigWord(s, pos + 4 * 4) == OpWords(op)[4];
  }

  lemma DecodeSimpleAt(op: Operation, s: seq<byte>, pos: nat, end: nat)
    requires op.Simple? && StorableOp(op)
    requires OpAt(op, s, pos, end)
    ensures DecodeSimple(s, pos) == Some((op, end))
  {
    FiveWordsAt(op, s, pos, end);
    var at, mid := pos + 20, pos + 20 + |op.path1|;
    assert s[at..mid] == s[at..end][..|op.path1|] == op.path1;
    assert s[mid..end] == s[at..end][|op.path1|..] == op.path2;
  }

  lemma DecodeFileopAt(op: Operation, s: seq<byte>, pos: nat, end: nat)
    requires op.Fileop? && StorableOp(op)
    requires OpAt(op, s, pos, end)
    ensures DecodeFileop(s, pos) == Some((op, end))
  {
    assert BigWord(s, pos + 4 * 0) == OpWords(op)[0];
    assert BigWord(s, pos + 4 * 1) == OpWords(op)[1];
    assert BigWord(s, pos + 4 * 2) == OpWords(op)[2];
    assert BigWord(s, pos + 4 * 3) == OpWords(op)[3];
  }

  lemma DecodeOpAt(op: Operation, s: seq<byte>, pos: nat, end: nat, payloadSize: nat)
    requires StorableOp(op) && OpAt(op, s, pos, end)
    requires op.Raw? ==> payloadSize == end
    ensures DecodeOp(RequestTag(op), s, pos, payloadSize) == Some((op, end))
  {
    match op {
      case Raw(_) => DecodeRaw(op, s, pos, end);
      case Simple(_, _, _, _, _) => DecodeSimpleAt(op, s, pos, end);
      case Fileop(_, _, _, _) => DecodeFileopAt(op, s, pos, end);
      case Xattr(_, _, _, _, _, _) => DecodeXattrAt(op, s, pos, end);
      case Other(_) =>
    }
  }

  /** Decoding an encoded request restores every field and stops where the encoder stopped. */
  lemma RequestRoundTrip(r: Request, tail: seq<byte>, payloadSize: nat)
    requires Storable(r)
    requires r.op.Raw? ==> payloadSize == |EncodeRequest(r)|
    ensures DecodeRequest(EncodeRequest(r) + tail, payloadSize) == Some((r, |EncodeRequest(r)|))
  {
    var s := EncodeRequest(r) + tail;
    UserFields(r, s, tail);
    EncodedOpDecodes(r, s, tail, payloadSize);
    AssembleRequest(s, payloadSize, r, |EncodeRequest(r)|);
  }

  lemma AssembleRequest(s: seq<byte>, payloadSize: nat, r: Request, end: nat)
    requires |r.user.sgids| <= MAX_COREFS_GIDS && 16 + 4 * |r.user.sgids| <= |s|
    requires BigWord(s, 4) == r.user.uid && BigWord(s, 8) == r.user.gid && BigWord(s, 12) == |r.user.sgids|
    requires ReadWords(s, 16, |r.user.sgids|) == r.user.sgids
    requires DecodeOp(BigWord(s, 0), s, 16 + 4 * |r.user.sgids|, payloadSize) == Some((r.op, end))
    ensures DecodeRequest(s, payloadSize) == Some((r, end))
  {
  }

  lemma EncodedOpDecodes(r: Request, s: seq<byte>, tail: seq<byte>, payloadSize: nat)
    requires Storable(r) && s == EncodeRequest(r) + tail
    requires r.op.Raw? ==> payloadSize == |EncodeRequest(r)|
    ensures DecodeOp(RequestTag(r.op), s, 16 + 4 * |r.user.sgids|, payloadSize) == Some((r.op, |EncodeRequest(r)|))
  {
    EncodedOpAt(r, s, tail);
    DecodeOpAt(r.op, s, 16 + 4 * |r.user.sgids|, |EncodeRequest(r)|, payloadSize);
  }

  lemma DecodeXattrAt(op: Operation, s: seq<byte>, pos: nat, end: nat)
    requires op.Xattr? && StorableOp(op)
    requires OpAt(op, s, pos, end)
    ensures DecodeXattr(s, pos) == Some((op, end))
  {
    FiveWordsAt(op, s, pos, end);
  }

  lemma DecodeRaw(op: Operation, s: seq<byte>, pos: nat, end: nat)
    requires op.Raw? && OpAt(op, s, pos, end)
    ensures DecodeOp(REQUEST_DATA, s, pos, end) == Some((op, end))
  {
  }

  lemma EncodedOpAt(r: Request, s: seq<byte>, tail: seq<byte>)
    requires Storable(r) && s == EncodeRequest(r) + tail
    ensures OpAt(r.op, s, 16 + 4 * |r.user.sgids|, |EncodeRequest(r)|)
  {
    OpTailAt(r, s, tail);
    forall i | 0 <= i < |OpWords(r.op)|
      ensures BigWord(s, 16 + 4 * |r.user.sgids| + 4 * i) == OpWords(r.op)[i]
    {
      OpFieldAt(r, s, tail, i);
    }
  }

  lemma DecodedSimpleAt(s: seq<byte>, pos: nat)
    requires DecodeSimple(s, pos).Some?
    ensures var (op, end) := DecodeSimple(s, pos).value;
            op.Simple? && StorableOp(op) && OpAt(op, s, pos, end)
  {
    var (op, end) := DecodeSimple(s, pos).value;
    var at, mid := pos + 20, pos + 20 + |op.path1|;
    assert s[at..end] == s[at..mid] + s[mid..end];
  }

  lemma DecodedFileopAt(s: seq<byte>, pos: nat)
    requires DecodeFileop(s, pos).Some?
    ensures var (op, end) := DecodeFileop(s, pos).value;
            op.Fileop? && StorableOp(op) && OpAt(op, s, pos, end)
  {
  }

  lemma DecodedXattrAt(s: seq<byte>, pos: nat)
    requires DecodeXattr(s, pos).Some?
    ensures var (op, end) := DecodeXattr(s, pos).value;
            op.Xattr? && StorableOp(op) && OpAt(op, s, pos, end)
  {
  }

  lemma DecodedOpAt(tag: u32, s: seq<byte>, pos: nat, payloadSize: nat)
    requires DecodeOp(tag, s, pos, payloadSize).Some? && pos <= |s|
    ensures var (op, end) := DecodeOp(tag, s, pos, payloadSize).value;
            RequestTag(op) == tag && StorableOp(op) && OpAt(op, s, pos, end)
  {
    if tag == REQUEST_SIMPLE {
      DecodedSimpleAt(s, pos);
    } else if tag == REQUEST_FILEOP {
      DecodedFileopAt(s, pos);
    } else if tag == REQUEST_XATTR {
      DecodedXattrAt(s, pos);
    } else {
      assert s[pos..pos] == [];
    }
  }

  /** What the decoder accepts is the encoding of what it returns: no two messages are confused. */
  lemma DecodedRequestReencodes(s: seq<byte>, payloadSize: nat)
    requires DecodeRequest(s, payloadSize).Some?
    ensures var (r, pos) := DecodeRequest(s, payloadSize).value;
            Storable(r) && pos <= |s| && EncodeRequest(r) == s[..pos]
  {
    var n := BigWord(s, 12);
    var (r, end) := DecodeRequest(s, payloadSize).value;
    DecodedUser(s, payloadSize, r, end);
    DecodedOpAt(BigWord(s, 0), s, 16 + 4 * n, payloadSize);
    DecodedWords(r, s, n, end);
    EncodedPrefix(r, s, 4 + n + |OpWords(r.op)|, end);
  }

  lemma DecodedUser(s: seq<byte>, payloadSize: nat, r: Request, end: nat)
    requires DecodeRequest(s, payloadSize) == Some((r, end))
    ensures |s| >= 16 && var n := BigWord(s, 12);
            && n <= MAX_COREFS_GIDS && 16 + 4 * n <= |s| && ReadWords(s, 16, n) == r.user.sgids
            && BigWord(s, 4) == r.user.uid && BigWord(s, 8) == r.user.gid
            && DecodeOp(BigWord(s, 0), s, 16 + 4 * n, payloadSize) == Some((r.op, end))
  {
  }

  lemma EncodedPrefix(r: Request, s: seq<byte>, m: nat, end: nat)
    requires Storable(r) && 4 * m <= end <= |s|
    requires ReadWords(s, 0, m) == RequestWords(r) && OpTail(r.op) == s[4 * m..end]
    ensures EncodeRequest(r) == s[..end]
  {
    ReadWordsInverse(s, 0, m);
    assert s[..end] == s[..4 * m] + s[4 * m..end];
  }

  lemma DecodedWords(r: Request, s: seq<byte>, n: nat, end: nat)
    requires Storable(r) && n == |r.user.sgids| && 16 + 4 * n <= |s|
    requires BigWord(s, 0) == RequestTag(r.op) && BigWord(s, 4) == r.user.uid && BigWord(s, 8) == r.user.gid
    requires BigWord(s, 12) == n && ReadWords(s, 16, n) == r.user.sgids
    requires OpAt(r.op, s, 16 + 4 * n, end)
    ensures ReadWords(s, 0, 4 + n + |OpWords(r.op)|) == RequestWords(r)
  {
    var m := 4 + n + |OpWords(r.op)|;
    forall i | 0 <= i < m ensures ReadWords(s, 0, m)[i] == RequestWords(r)[i] {
      ReadWordsAt(s, 0, m, i);
      if 4 <= i < 4 + n {
        ReadWordsAt(s, 16, n, i - 4);
      } else if 4 + n <= i {
        var j := i - 4 - n;
        assert BigWord(s, 16 + 4 * n + 4 * j) == OpWords(r.op)[j];
      }
    }
  }

  lemma ResponseWordAt(r: Response, tail: seq<byte>, i: nat)
    requires i < |ResponseWords(r)|
    ensures BigWord(EncodeResponse(r) + tail, 4 * i) == ResponseWords(r)[i]
  {
    BigWordAt(ResponseWords(r), ResultTail(r.result) + tail, i);
    assert EncodeResponse(r) + tail == BigEndianWords(ResponseWords(r)) + (ResultTail(r.result) + tail);
  }

  /** Type and resume offset, and then the variant. */
  lemma ResponseLayout(r: Response, tail: seq<byte>)
    ensures var s := EncodeResponse(r) + tail;
            && 8 <= |s| && BigWord(s, 4) == r.moreOffset
            && match r.result
               case Data(data) => BigWord(s, 0) == 0xA && BytesAt(s, 8, data)
               case MoreData(data) => BigWord(s, 0) == 0xE && BytesAt(s, 8, data)
               case Status(bits) => BigWord(s, 0) == 0xB && WordsAt(s, 8, [bits])
               case Error(bits) => BigWord(s, 0) == 0xD && WordsAt(s, 8, [bits])
               case Attributes(a) =>
                 BigWord(s, 0) == 0xC &&
                 WordsAt(s, 8, [a.mode, a.uid, a.gid, a.size, a.mtime, a.atime, a.ctime, a.nlinks])
               case Unknown(tag) => BigWord(s, 0) == tag
  {
    var s, ws := EncodeResponse(r) + tail, ResponseWords(r);
    ResponseWordAt(r, tail, 0);
    ResponseWordAt(r, tail, 1);
    assert s == BigEndianWords(ws) + (ResultTail(r.result) + tail);
    forall i | 0 <= i < |ws| - 2 ensures BigWord(s, 8 + 4 * i) == ws[2 + i] {
      ResponseWordAt(r, tail, 2 + i);
    }
  }

  /** Decoding an encoded response restores every field and stops where the encoder stopped. */
  lemma ResponseRoundTrip(r: Response, tail: seq<byte>, payloadSize: nat)
    requires StorableResult(r.result)
    requires r.result.Data? || r.result.MoreData? ==> payloadSize == |EncodeResponse(r)|
    ensures DecodeResponse(EncodeResponse(r) + tail, payloadSize) == Some((r, |EncodeResponse(r)|))
  {
    var s := EncodeResponse(r) + tail;
    ResponseWordAt(r, tail, 0);
    ResponseWordAt(r, tail, 1);
    match r.result
    case Data(data) => assert s[8..payloadSize] == data;
    case MoreData(data) => assert s[8..payloadSize] == data;
    case Status(_) => ResponseWordAt(r, tail, 2);
    case Error(_) => ResponseWordAt(r, tail, 2);
    case Attributes(_) =>
      forall i | 2 <= i < 10 ensures BigWord(s, 4 * i) == ResponseWords(r)[i] { ResponseWordAt(r, tail, i); }
      AttrFields(r, s);
    case Unknown(_) =>
  }

  lemma AttrFields(r: Response, s: seq<byte>)
    requires r.result.Attributes? && 40 <= |s|
    requires forall i | 2 <= i < 10 :: BigWord(s, 4 * i) == ResponseWords(r)[i]
    ensures DecodeResult(RESPONSE_ATTR, s, 0) == Some((r.result, 40))
    ensures forall n: nat :: DecodeResult(RESPONSE_ATTR, s, n) == Some((r.result, 40))
  {
    assert BigWord(s, 4 * 2) == r.result.attr.mode && BigWord(s, 4 * 3) == r.result.attr.uid;
    assert BigWord(s, 4 * 4) == r.result.attr.gid && BigWord(s, 4 * 5) == r.result.attr.size;
    assert BigWord(s, 4 * 6) == r.result.attr.mtime && BigWord(s, 4 * 7) == r.result.attr.atime;
    assert BigWord(s, 4 * 8) == r.result.attr.ctime && BigWord(s, 4 * 9) == r.result.attr.nlinks;
  }

  lemma DecodedResultWords(s: seq<byte>, payloadSize: nat)
    requires DecodeResponse(s, payloadSize).Some?
    ensures var (r, pos) := DecodeResponse(s, payloadSize).value;
            var n := |ResponseWords(r)|;
            && StorableResult(r.result) && 4 * n <= pos <= |s| && ResultTail(r.result) == s[4 * n..pos]
            && forall i | 0 <= i < n :: BigWord(s, 4 * i) == ResponseWords(r)[i]
  {
    var (r, pos) := DecodeResponse(s, payloadSize).value;
    if r.result.Attributes? {
      DecodedAttrWords(r, s);
    }
  }

  lemma DecodedAttrWords(r: Response, s: seq<byte>)
    requires 40 <= |s| && DecodeResponse(s, 0) == Some((r, 40)) && r.result.Attributes?
    ensures forall i | 0 <= i < 10 :: ResponseWords(r)[i] == BigWord(s, 4 * i)
  {
  }

  /** What the client accepts as a response is the encoding of what it returns. */
  lemma DecodedResponseReencodes(s: seq<byte>, payloadSize: nat)
    requires DecodeResponse(s, payloadSize).Some?
    ensures var (r, pos) := DecodeResponse(s, payloadSize).value;
            StorableResult(r.result) && pos <= |s| && EncodeResponse(r) == s[..pos]
  {
    var (r, pos) := DecodeResponse(s, payloadSize).value;
    var n := |ResponseWords(r)|;
    DecodedResultWords(s, payloadSize);
    ReadWordsFrom(s, ResponseWords(r));
    ReadWordsInverse(s, 0, n);
    assert s[..pos] == s[..4 * n] + s[4 * n..pos];
  }
}
