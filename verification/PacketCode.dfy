/** The buffer-level packet code of common.c: encap, decap and the build functions. */
module PacketCode {
  import opened Bytes
  import opened Sequences
  import opened Wire

  // ---------------------------------------------------------------- encap

  method EncapHeader(buf: array<byte>, off: nat, h: Header) returns (pos: nat)
    requires off + HEADER_SIZE <= buf.Length
    modifies buf
    ensures pos == HEADER_SIZE
    ensures buf[..] == Splice(old(buf[..]), off, EncodeHeader(h))
  {
    ghost var was := buf[..];
    StoresNone(was, off);
    pos := PutFour(buf, off, 0, h.magic, h.kind, h.sequence, h.payloadSize, was, []);
    assert [] + [h.magic, h.kind, h.sequence, h.payloadSize] == HeaderWords(h);
    StoresIs(buf[..], was, off, HeaderWords(h));
  }

  lemma EncodedSize(r: Request)
    requires Storable(r)
    ensures |EncodeRequest(r)| == RequestBaseSize(|r.user.sgids|) + 4 * |OpWords(r.op)| + |OpTail(r.op)|
  {
  }

  method EncapUser(buf: array<byte>, off: nat, r: Request, ghost was: seq<byte>) returns (pos: nat)
    requires Storable(r) && off + |EncodeRequest(r)| <= buf.Length
    requires was == buf[..]
    modifies buf
    ensures pos == 4 * |UserWords(r)| && Stores(buf[..], was, off, UserWords(r))
  {
    EncodedSize(r);
    StoresNone(was, off);
    var tag, uid, gid, n := RequestTag(r.op), r.user.uid, r.user.gid, |r.user.sgids|;
    pos := PutFour(buf, off, 0, tag, uid, gid, n, was, []);
    ghost var fixedWords := [tag, uid, gid, n];
    assert [] + fixedWords == fixedWords;
    NothingAfter(fixedWords);
    var i := 0;
    while i < n
      invariant 0 <= i <= n && pos == 4 * (4 + i)
      invariant Stores(buf[..], was, off, fixedWords + r.user.sgids[..i])
    {
      pos := PutWord(buf, off, pos, r.user.sgids[i], was, fixedWords + r.user.sgids[..i]);
      TakeOne(r.user.sgids, i);
      Associative(fixedWords, r.user.sgids[..i], [r.user.sgids[i]]);
      i := i + 1;
    }
    assert r.user.sgids[..n] == r.user.sgids;
  }

  method EncapRequest(buf: array<byte>, off: nat, r: Request) returns (pos: nat)
    requires Storable(r) && off + |EncodeRequest(r)| <= buf.Length
    modifies buf
    ensures pos == |EncodeRequest(r)|
    ensures buf[..] == Splice(old(buf[..]), off, EncodeRequest(r))
  {
    ghost var was := buf[..];
    EncodedSize(r);
    pos := EncapUser(buf, off, r, was);
    pos := EncapWords(buf, off, pos, r, was);
    pos := EncapTail(buf, off, pos, r, was);
  }

  /** The fixed fields of the operation. */
  method EncapWords(buf: array<byte>, off: nat, at: nat, r: Request, ghost was: seq<byte>) returns (pos: nat)
    requires Storable(r) && off + 4 * |RequestWords(r)| <= buf.Length == |was|
    requires at == 4 * |UserWords(r)| && Stores(buf[..], was, off, UserWords(r))
    modifies buf
    ensures pos == 4 * |RequestWords(r)| && Stores(buf[..], was, off, RequestWords(r))
  {
    ghost var ws := UserWords(r);
    pos := at;
    match r.op {
      case Simple(kind, offset, mode, path1, path2) =>
        pos := PutFour(buf, off, pos, kind, offset, mode, |path1|, was, ws);
        pos := PutWord(buf, off, pos, |path2|, was, ws + [kind, offset, mode, |path1|]);
        Associative(ws, [kind, offset, mode, |path1|], [|path2|]);
      case Fileop(kind, offset, size, path) =>
        pos := PutFour(buf, off, pos, kind, offset, size, |path|, was, ws);
      case Xattr(kind, flags, valueSize, pathLen, nameLen, params) =>
        pos := PutFour(buf, off, pos, kind, flags, valueSize, pathLen, was, ws);
        pos := PutWord(buf, off, pos, nameLen, was, ws + [kind, flags, valueSize, pathLen]);
        Associative(ws, [kind, flags, valueSize, pathLen], [nameLen]);
      case _ =>
        NothingAfter(ws);
    }
  }

  method EncapTail(buf: array<byte>, off: nat, at: nat, r: Request, ghost was: seq<byte>) returns (pos: nat)
    requires Storable(r) && off + |EncodeRequest(r)| <= buf.Length == |was| && at == 4 * |RequestWords(r)|
    requires Stores(buf[..], was, off, RequestWords(r))
    modifies buf
    ensures pos == |EncodeRequest(r)|
    ensures buf[..] == Splice(was, off, EncodeRequest(r))
  {
    ghost var words := BigEndianWords(RequestWords(r));
    StoresIs(buf[..], was, off, RequestWords(r));
    match r.op {
      case Simple(_, _, _, path1, path2) =>
        pos := PutBytes(buf, off, path1, was, words, at);
        pos := PutBytes(buf, off, path2, was, words + path1, pos);
        Associative(words, path1, path2);
      case _ =>
        pos := PutBytes(buf, off, OpTail(r.op), was, words, at);
    }
  }

  method PutFour(buf: array<byte>, off: nat, at: nat, a: u32, b: u32, c: u32, d: u32,
                 ghost was: seq<byte>, ghost ws: seq<u32>)
    returns (pos: nat)
    requires at == 4 * |ws| && off + at + 16 <= buf.Length == |was| && Stores(buf[..], was, off, ws)
    modifies buf
    ensures pos == at + 16 && Stores(buf[..], was, off, ws + [a, b, c, d])
  {
    pos := PutWord(buf, off, at, a, was, ws);
    pos := PutWord(buf, off, pos, b, was, ws + [a]);
    pos := PutWord(buf, off, pos, c, was, ws + [a] + [b]);
    pos := PutWord(buf, off, pos, d, was, ws + [a] + [b] + [c]);
    assert ws + [a] + [b] + [c] + [d] == ws + [a, b, c, d];
  }

  method EncapResponse(buf: array<byte>, off: nat, r: Response) returns (pos: nat)
    requires off + |EncodeResponse(r)| <= buf.Length
    modifies buf
    ensures pos == |EncodeResponse(r)|
    ensures buf[..] == Splice(old(buf[..]), off, EncodeResponse(r))
  {
    ghost var was, words := buf[..], ResponseWords(r);
    StoresNone(was, off);
    var tag, more := ResultTag(r.result), r.moreOffset;
    pos := PutWord(buf, off, 0, tag, was, []);
    pos := PutWord(buf, off, pos, more, was, [] + [tag]);
    assert [] + [tag] + [more] == words[..2];
    pos := EncapResult(buf, off, r, was);
    StoresIs(buf[..], was, off, words);
    pos := PutBytes(buf, off, ResultTail(r.result), was, BigEndianWords(words), pos);
  }

  method EncapResult(buf: array<byte>, off: nat, r: Response, ghost was: seq<byte>) returns (pos: nat)
    requires off + 4 * |ResponseWords(r)| <= buf.Length == |was|
    requires Stores(buf[..], was, off, ResponseWords(r)[..2])
    modifies buf
    ensures pos == 4 * |ResponseWords(r)| && Stores(buf[..], was, off, ResponseWords(r))
  {
    pos := 8;
    ghost var ws := ResponseWords(r)[..2];
    match r.result {
      case Status(bits) =>
        pos := PutWord(buf, off, pos, bits, was, ws);
        assert ws + [bits] == ResponseWords(r);
      case Error(bits) =>
        pos := PutWord(buf, off, pos, bits, was, ws);
        assert ws + [bits] == ResponseWords(r);
      case Attributes(a) =>
        pos := PutFour(buf, off, pos, a.mode, a.uid, a.gid, a.size, was, ws);
        pos := PutFour(buf, off, pos, a.mtime, a.atime, a.ctime, a.nlinks, was, ws + [a.mode, a.uid, a.gid, a.size]);
        assert ws + [a.mode, a.uid, a.gid, a.size] + [a.mtime, a.atime, a.ctime, a.nlinks] == ResponseWords(r);
      case _ => assert ws == ResponseWords(r);
    }
  }

  // ---------------------------------------------------------------- decap

  method DecapHeader(buf: array<byte>, off: nat) returns (h: Header)
    requires off + HEADER_SIZE <= buf.Length
    ensures h == DecodeHeader(buf[off..])
  {
    var magic := GetWord(buf, off, 0);
    var kind := GetWord(buf, off, 4);
    var sequence := GetWord(buf, off, 8);
    var payloadSize := GetWord(buf, off, 12);
    h := Header(magic, kind, sequence, payloadSize);
  }

  /** `None` where the C code would run off the buffer or off the packet structure. */
  method DecapRequest(buf: array<byte>, off: nat, payloadSize: nat) returns (r: Option<(Request, nat)>)
    requires off <= buf.Length
    ensures r == DecodeRequest(buf[off..], payloadSize)
  {
    ghost var s := buf[off..];
    if buf.Length < off + 16 {
      return None;
    }
    var tag := GetWord(buf, off, 0);
    var uid := GetWord(buf, off, 4);
    var gid := GetWord(buf, off, 8);
    var n := GetWord(buf, off, 12);
    var pos := 16;
    if MAX_COREFS_GIDS < n || buf.Length < off + pos + 4 * n {
      return None;
    }
    var sgids: seq<u32> := [];
    var i := 0;
    while i < n
      invariant 0 <= i <= n && pos == 16 + 4 * i
      invariant sgids == ReadWords(s, 16, i)
    {
      var sgid := GetWord(buf, off, pos);
      sgids := sgids + [sgid];
      pos := pos + 4;
      i := i + 1;
    }
    var op := DecapOp(tag, buf, off, pos, payloadSize);
    match op
    case None => r := None;
    case Some((o, end)) => r := Some((Request(UserInfo(uid, gid, sgids), o), end));
  }

  method DecapOp(tag: u32, buf: array<byte>, off: nat, at: nat, payloadSize: nat) returns (r: Option<(Operation, nat)>)
    requires off + at <= buf.Length
    ensures r == DecodeOp(tag, buf[off..], at, payloadSize)
  {
    var size := buf.Length - off;
    r := None;
    if tag == REQUEST_DATA {
      if at <= payloadSize <= size {
        r := Some((Raw(buf[off..][at..payloadSize]), payloadSize));
      }
    } else if tag == REQUEST_SIMPLE {
      if at + 20 <= size {
        r := DecapSimple(buf, off, at);
      }
    } else if tag == REQUEST_FILEOP {
      if at + 16 <= size {
        r := DecapFileop(buf, off, at);
      }
    } else if tag == REQUEST_XATTR {
      if at + 20 <= size {
        r := DecapXattr(buf, off, at);
      }
    } else {
      r := Some((Other(tag), at));
    }
  }

  method DecapSimple(buf: array<byte>, off: nat, at: nat) returns (r: Option<(Operation, nat)>)
    requires off + at + 20 <= buf.Length
    ensures r == DecodeSimple(buf[off..], at)
  {
    var kind := GetWord(buf, off, at);
    var offset := GetWord(buf, off, at + 4);
    var mode := GetWord(buf, off, at + 8);
    var path1len := GetWord(buf, off, at + 12);
    var path2len := GetWord(buf, off, at + 16);
    var pos := at + 20;
    if MAX_COREFS_PATH <= path1len || MAX_COREFS_PATH <= path2len || buf.Length < off + pos + path1len + path2len {
      return None;
    }
    var path1 := buf[off..][pos..pos + path1len];
    pos := pos + path1len;
    var path2 := buf[off..][pos..pos + path2len];
    pos := pos + path2len;
    r := Some((Simple(kind, offset, mode, path1, path2), pos));
  }

  method DecapFileop(buf: array<byte>, off: nat, at: nat) returns (r: Option<(Operation, nat)>)
    requires off + at + 16 <= buf.Length
    ensures r == DecodeFileop(buf[off..], at)
  {
    var kind := GetWord(buf, off, at);
    var offset := GetWord(buf, off, at + 4);
    var size := GetWord(buf, off, at + 8);
    var pathlen := GetWord(buf, off, at + 12);
    var pos := at + 16;
    if MAX_COREFS_PATH <= pathlen || buf.Length < off + pos + pathlen {
      return None;
    }
    var path := buf[off..][pos..pos + pathlen];
    pos := pos + pathlen;
    r := Some((Fileop(kind, offset, size, path), pos));
  }

  method DecapXattr(buf: array<byte>, off: nat, at: nat) returns (r: Option<(Operation, nat)>)
    requires off + at + 20 <= buf.Length
    ensures r == DecodeXattr(buf[off..], at)
  {
    var kind := GetWord(buf, off, at);
    var flags := GetWord(buf, off, at + 4);
    var valueSize := GetWord(buf, off, at + 8);
    var pathlen := GetWord(buf, off, at + 12);
    var namelen := GetWord(buf, off, at + 16);
    var pos := at + 20;
    var n := ParamsSize(pathlen, namelen);
    if buf.Length - off < pos + n {
      return None;
    }
    var params := buf[off..][pos..pos + n];
    pos := pos + n;
    r := Some((Xattr(kind, flags, valueSize, pathlen, namelen, params), pos));
  }

  method DecapResponse(buf: array<byte>, off: nat, payloadSize: nat) returns (r: Option<(Response, nat)>)
    requires off <= buf.Length
    ensures r == DecodeResponse(buf[off..], payloadSize)
  {
    var size := buf.Length - off;
    if size < 8 {
      return None;
    }
    var tag := GetWord(buf, off, 0);
    var more := GetWord(buf, off, 4);
    if tag == RESPONSE_DATA || tag == RESPONSE_MOREDATA {
      if !(8 <= payloadSize <= size) {
        return None;
      }
      var data := buf[off..][8..payloadSize];
      r := Some((Response(more, if tag == RESPONSE_DATA then Data(data) else MoreData(data)), payloadSize));
    } else if tag == RESPONSE_STATUS || tag == RESPONSE_ERROR {
      if size < 12 {
        return None;
      }
      var bits := GetWord(buf, off, 8);
      r := Some((Response(more, if tag == RESPONSE_STATUS then Status(bits) else Error(bits)), 12));
    } else if tag == RESPONSE_ATTR {
      if size < 40 {
        return None;
      }
      var attr := DecapAttr(buf, off);
      r := Some((Response(more, Attributes(attr)), 40));
    } else {
      r := Some((Response(more, Unknown(tag)), 8));
    }
  }

  method DecapAttr(buf: array<byte>, off: nat) returns (a: Attr)
    requires off + 40 <= buf.Length
    ensures a == Attr(BigWord(buf[off..], 8), BigWord(buf[off..], 12), BigWord(buf[off..], 16), BigWord(buf[off..], 20),
                      BigWord(buf[off..], 24), BigWord(buf[off..], 28), BigWord(buf[off..], 32), BigWord(buf[off..], 36))
  {
    var mode := GetWord(buf, off, 8);
    var uid := GetWord(buf, off, 12);
    var gid := GetWord(buf, off, 16);
    var size := GetWord(buf, off, 20);
    var mtime := GetWord(buf, off, 24);
    var atime := GetWord(buf, off, 28);
    var ctime := GetWord(buf, off, 32);
    var nlinks := GetWord(buf, off, 36);
    a := Attr(mode, uid, gid, size, mtime, atime, ctime, nlinks);
  }

  // ---------------------------------------------------------------- sizes and builders

  datatype RequestPacket = RequestPacket(header: Header, request: Request)

  datatype ResponsePacket = ResponsePacket(header: Header, response: Response)

  /** `REQUEST_BASE_SIZE`. */
  function RequestBaseSize(numSgids: nat): nat { 16 + 4 * numSgids }

  /** `RESPONSE_BASE_SIZE`. */
  const RESPONSE_BASE_SIZE := 8

  function SizeofFileop(pathLen: nat): nat { 16 + pathLen }

  function SizeofSimple(path1Len: nat, path2Len: nat): nat { 20 + path1Len + 1 + path2Len }

  function SizeofXattr(pathLen: nat, nameLen: nat): nat { 20 + pathLen + 1 + nameLen }

  /** An unsigned field holding a size. */
  function Truncated(n: nat): u32 { if n < 0x1_0000_0000 then n else n % 0x1_0000_0000 }

  function RequestHeader(sequence: u32, payloadSize: nat): Header {
    Header(COREFS_MAGIC, COREFS_REQUEST, sequence, Truncated(payloadSize))
  }

  function ResponseHeader(sequence: u32, payloadSize: nat): Header {
    Header(COREFS_MAGIC, COREFS_RESPONSE, sequence, Truncated(payloadSize))
  }

  function BuildFileop(sequence: u32, user: UserInfo, kind: u32, offset: u32, size: u32, path: seq<byte>): RequestPacket {
    RequestPacket(RequestHeader(sequence, RequestBaseSize(|user.sgids|) + SizeofFileop(|path|)),
                  Request(user, Fileop(kind, offset, size, path)))
  }

  function BuildSimple(sequence: u32, user: UserInfo, kind: u32, path1: seq<byte>, offset: u32, mode: u32,
                       optPath: Option<seq<byte>>): RequestPacket {
    var path2 := if optPath.Some? then optPath.value else [];
    RequestPacket(RequestHeader(sequence, RequestBaseSize(|user.sgids|) + SizeofSimple(|path1|, |path2|)),
                  Request(user, Simple(kind, offset, mode, path1, path2)))
  }

  function BuildXattr(sequence: u32, user: UserInfo, kind: u32, name: Option<seq<byte>>, path: seq<byte>,
                      size: u32, flags: u32): RequestPacket {
    var attr := if name.Some? then name.value else [];
    RequestPacket(RequestHeader(sequence, RequestBaseSize(|user.sgids|) + SizeofXattr(|path|, |attr|)),
                  Request(user, Xattr(kind, flags, size, Truncated(|path|), Truncated(|attr|), path + [0] + attr)))
  }

  function BuildRequestData(sequence: u32, user: UserInfo, data: seq<byte>): RequestPacket {
    RequestPacket(RequestHeader(sequence, |data| + RequestBaseSize(|user.sgids|)), Request(user, Raw(data)))
  }

  function BuildResponseData(sequence: u32, data: seq<byte>): ResponsePacket {
    ResponsePacket(ResponseHeader(sequence, |data| + RESPONSE_BASE_SIZE), Response(0, Data(data)))
  }

  function BuildMoreData(sequence: u32, data: seq<byte>, offset: u32): ResponsePacket {
    ResponsePacket(ResponseHeader(sequence, |data| + RESPONSE_BASE_SIZE), Response(offset, MoreData(data)))
  }

  /** `build_status` leaves `more_offset` at whatever the packet held before. */
  function BuildStatus(sequence: u32, status: u32, isError: bool, moreOffset: u32): ResponsePacket {
    ResponsePacket(ResponseHeader(sequence, 4 + RESPONSE_BASE_SIZE),
                   Response(moreOffset, if isError then Error(status) else Status(status)))
  }

  function BuildAttr(sequence: u32, attr: Attr, moreOffset: u32): ResponsePacket {
    ResponsePacket(ResponseHeader(sequence, 32 + RESPONSE_BASE_SIZE), Response(moreOffset, Attributes(attr)))
  }

  /** The framed length of a file operation is exactly its encoding. */
  lemma FileopSize(sequence: u32, user: UserInfo, kind: u32, offset: u32, size: u32, path: seq<byte>)
    requires |user.sgids| <= MAX_COREFS_GIDS && |path| < MAX_COREFS_PATH
    ensures var p := BuildFileop(sequence, user, kind, offset, size, path);
            Storable(p.request) && p.header.payloadSize == |EncodeRequest(p.request)|
  {
    EncodedSize(BuildFileop(sequence, user, kind, offset, size, path).request);
  }

  /** The framed length of an attribute operation is exactly its encoding, with or without a name. */
  lemma XattrSize(sequence: u32, user: UserInfo, kind: u32, name: Option<seq<byte>>, path: seq<byte>, size: u32, flags: u32)
    requires |user.sgids| <= MAX_COREFS_GIDS && |path| < MAX_COREFS_PATH
    requires name.Some? ==> |name.value| < MAX_COREFS_PATH
    ensures var p := BuildXattr(sequence, user, kind, name, path, size, flags);
            Storable(p.request) && p.header.payloadSize == |EncodeRequest(p.request)|
  {
    EncodedSize(BuildXattr(sequence, user, kind, name, path, size, flags).request);
  }

  /** A simple operation is framed with one byte to spare, which no encoder writes. */
  lemma SimpleSize(sequence: u32, user: UserInfo, kind: u32, path1: seq<byte>, offset: u32, mode: u32, opt: Option<seq<byte>>)
    requires |user.sgids| <= MAX_COREFS_GIDS && |path1| < MAX_COREFS_PATH
    requires opt.Some? ==> |opt.value| < MAX_COREFS_PATH
    ensures var p := BuildSimple(sequence, user, kind, path1, offset, mode, opt);
            Storable(p.request) && p.header.payloadSize == |EncodeRequest(p.request)| + 1
  {
    EncodedSize(BuildSimple(sequence, user, kind, path1, offset, mode, opt).request);
  }

  /** A data packet of any size the 32-bit length field can hold is framed exactly. */
  lemma DataSize(sequence: u32, user: UserInfo, data: seq<byte>)
    requires |user.sgids| <= MAX_COREFS_GIDS
    ensures var p := BuildRequestData(sequence, user, data);
            Storable(p.request) &&
            (p.header.payloadSize == |EncodeRequest(p.request)| <==>
             |data| + RequestBaseSize(|user.sgids|) < 0x1_0000_0000)
  {
    var n := |data| + RequestBaseSize(|user.sgids|);
    assert |EncodeRequest(BuildRequestData(sequence, user, data).request)| == n;
  }

  /** Every response is framed exactly. */
  lemma ResponseSizes(p: ResponsePacket, sequence: u32, data: seq<byte>, w: u32, e: bool, more: u32, attr: Attr)
    requires |data| + RESPONSE_BASE_SIZE < 0x1_0000_0000
    requires p in {BuildResponseData(sequence, data), BuildMoreData(sequence, data, w),
                   BuildStatus(sequence, w, e, more), BuildAttr(sequence, attr, more)}
    ensures StorableResult(p.response.result)
    ensures p.header.payloadSize == |EncodeResponse(p.response)|
  {
  }
}
