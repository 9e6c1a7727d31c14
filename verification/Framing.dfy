/** Packets over a byte stream: the read and write loops of common.c and the framing of dummy_mod.c. */
module Framing {
  import opened Bytes
  import opened Wire
  import opened PacketCode
  import opened Sequences

  /**
   * One direction of a connection: the bytes its peer sends before closing that are still to be received.
   * A connection may be about to break, and then a send may fail.
   */
  class Pipe {
    var stream: seq<byte>
    const breaks: bool

    constructor (breaks: bool)
      ensures stream == [] && this.breaks == breaks
    {
      stream, this.breaks := [], breaks;
    }

    /** `recv`: any positive number of bytes up to `max`; none only when the peer is done. */
    method Recv(max: nat) returns (chunk: seq<byte>)
      requires max > 0
      modifies this
      ensures chunk + stream == old(stream) && |chunk| <= max
      ensures chunk == [] <==> old(stream) == []
    {
      if stream == [] {
        return [];
      }
      var n: nat :| 1 <= n <= max && n <= |stream|;
      chunk := stream[..n];
      stream := stream[n..];
    }

    /** `send`: takes any positive number of the bytes offered, or fails with -1. */
    method Send(data: seq<byte>) returns (n: int)
      requires data != []
      modifies this
      ensures n == -1 ==> breaks && stream == old(stream)
      ensures n != -1 ==> 1 <= n <= |data| && stream == old(stream) + data[..n]
    {
      var fails: bool := *;
      if breaks && fails {
        return -1;
      }
      n :| 1 <= n <= |data|;
      stream := stream + data[..n];
    }
  }

  /** `socket_read`: `size` bytes into `buf` from `off` on, or -1 after taking what there was. */
  method SocketRead(pipe: Pipe, buf: array<byte>, off: nat, size: nat) returns (ret: int)
    requires off + size <= buf.Length
    modifies pipe, buf
    ensures var s := old(pipe.stream);
            if size <= |s|
            then ret == size && pipe.stream == s[size..] && buf[..] == Splice(old(buf[..]), off, s[..size])
            else ret == -1 && pipe.stream == [] && buf[..] == Splice(old(buf[..]), off, s)
  {
    ghost var s, was := pipe.stream, buf[..];
    var read := 0;
    while read < size
      invariant 0 <= read <= size && read <= |s|
      invariant pipe.stream == s[read..]
      invariant buf[..] == Splice(was, off, s[..read])
    {
      var chunk := pipe.Recv(size - read);
      if chunk == [] {
        return -1;
      }
      ChunkTaken(s, read, chunk, pipe.stream);
      var next := PutBytes(buf, off, chunk, was, s[..read], read);
      read := read + |chunk|;
    }
    ret := read;
  }

  lemma ChunkTaken(s: seq<byte>, read: nat, chunk: seq<byte>, left: seq<byte>)
    requires read <= |s| && s[read..] == chunk + left
    ensures read + |chunk| <= |s|
    ensures s[..read] + chunk == s[..read + |chunk|] && left == s[read + |chunk|..]
  {
    TakeAndDrop(s, read);
    Associative(s[..read], chunk, left);
    Halves(s[..read] + chunk, left);
  }

  /** A send that got through, or one that a broken connection has stopped after some of the bytes. */
  ghost predicate Wrote(before: seq<byte>, after: seq<byte>, data: seq<byte>, done: bool) {
    if done then after == before + data else exists k :: 0 <= k < |data| && after == before + data[..k]
  }

  lemma WroteBoth(before: seq<byte>, after: seq<byte>, a: seq<byte>, b: seq<byte>, done: bool)
    requires Wrote(before + a, after, b, done)
    ensures Wrote(before, after, a + b, done)
  {
    Associative(before, a, b);
    if !done {
      var k :| 0 <= k < |b| && after == before + a + b[..k];
      assert (a + b)[..|a| + k] == a + b[..k];
      Associative(before, a, b[..k]);
    }
  }

  lemma WroteFirst(before: seq<byte>, after: seq<byte>, a: seq<byte>, b: seq<byte>)
    requires Wrote(before, after, a, false)
    ensures Wrote(before, after, a + b, false)
  {
    var k :| 0 <= k < |a| && after == before + a[..k];
    assert (a + b)[..k] == a[..k];
  }

  /** `socket_write`. */
  method SocketWrite(pipe: Pipe, buf: array<byte>, size: nat) returns (ret: int)
    requires size <= buf.Length
    modifies pipe
    ensures ret == size || (ret == -1 && pipe.breaks)
    ensures Wrote(old(pipe.stream), pipe.stream, buf[..size], ret == size)
  {
    ghost var s, all := pipe.stream, buf[..size];
    var written := 0;
    while written < size
      invariant 0 <= written <= size
      invariant pipe.stream == s + all[..written]
    {
      var n := pipe.Send(buf[written..size]);
      if n == -1 {
        return -1;
      }
      assert all[..written] + buf[written..size][..n] == all[..written + n];
      Associative(s, all[..written], buf[written..size][..n]);
      written := written + n;
    }
    assert all[..size] == all;
    ret := written;
  }

  /** A header as the host keeps it in memory. */
  function HostHeader(h: Header): (s: seq<byte>)
    ensures |s| == HEADER_SIZE
  {
    LittleEndianWords(HeaderWords(h))
  }

  /** A header read back from host memory. */
  function ReadHostHeader(s: seq<byte>): Header
    requires HEADER_SIZE <= |s|
  {
    Header(LittleWord(s, 0), LittleWord(s, 4), LittleWord(s, 8), LittleWord(s, 12))
  }

  lemma {:induction false} HostHeaderRoundTrip(h: Header, tail: seq<byte>)
    ensures ReadHostHeader(HostHeader(h) + tail) == h
  {
    LittleWordAt(HeaderWords(h), tail, 0);
    LittleWordAt(HeaderWords(h), tail, 1);
    LittleWordAt(HeaderWords(h), tail, 2);
    LittleWordAt(HeaderWords(h), tail, 3);
  }

  /** The length of the packet whose header starts `s`. */
  function PacketLength(s: seq<byte>): nat
    requires HEADER_SIZE <= |s|
  {
    HEADER_SIZE + DecodeHeader(s).payloadSize
  }

  /** The packet at the front of the stream, if a header is there, fits a buffer of `size` bytes. */
  predicate FitsIn(s: seq<byte>, size: nat) {
    HEADER_SIZE <= |s| ==> PacketLength(s) <= size
  }

  /** What one `my_receive` leaves in a buffer that held `was`, and what it returns. */
  function Received(s: seq<byte>, was: seq<byte>): (r: (int, seq<byte>))
    requires HEADER_SIZE <= |was| && FitsIn(s, |was|)
    ensures |r.1| == |was|
  {
    if |s| < HEADER_SIZE then (-1, Splice(was, 0, s)) else
    var n := PacketLength(s);
    var m := if n <= |s| then n else |s|;
    (if n <= |s| then n else -1, Splice(was, 0, HostHeader(DecodeHeader(s)) + s[HEADER_SIZE..m]))
  }

  /** What `my_receive` leaves on the stream. */
  function Rest(s: seq<byte>): seq<byte> {
    if |s| < HEADER_SIZE || |s| < PacketLength(s) then [] else s[PacketLength(s)..]
  }

  /** The four words of the header, as the host has them in its buffer. */
  ghost predicate HeaderStored(s: seq<byte>, now: seq<byte>)
    requires 16 <= |s| && 16 <= |now|
  {
    && LittleWord(now, 0) == BigWord(s, 0) && LittleWord(now, 4) == BigWord(s, 4)
    && LittleWord(now, 8) == BigWord(s, 8) && LittleWord(now, 12) == BigWord(s, 12)
  }

  /**
   * One packet is taken from the stream `s` into a buffer that held `was`: the header in host order and as much
   * of the payload as there is; -1 when that is not all of it.
   */
  ghost predicate PacketTaken(s: seq<byte>, was: seq<byte>, ret: int, now: seq<byte>, left: seq<byte>) {
    && |now| == |was| && 16 <= |was|
    && if |s| < 16 then ret == -1 && now == s + was[|s|..] && left == []
       else
         var n := 16 + BigWord(s, 12);
         var m := if n <= |s| then n else |s|;
         && n <= |was| && HeaderStored(s, now) && now[16..m] == s[16..m] && now[m..] == was[m..]
         && ret == (if n <= |s| then n else -1) && left == s[m..]
  }

  lemma ReceivedTakes(s: seq<byte>, was: seq<byte>)
    requires HEADER_SIZE <= |was| && FitsIn(s, |was|)
    ensures PacketTaken(s, was, Received(s, was).0, Received(s, was).1, Rest(s))
  {
    if HEADER_SIZE <= |s| {
      var n := PacketLength(s);
      var m := if n <= |s| then n else |s|;
      var h, payload := HostHeader(DecodeHeader(s)), s[HEADER_SIZE..m];
      HostHeaderRoundTrip(DecodeHeader(s), payload + was[m..]);
      assert Received(s, was).1 == h + (payload + was[m..]);
    }
  }

  /**
   * `my_receive`: the header, decoded in place, then as many bytes as it announces. The size announced is not
   * checked: `ok` is false when it drives the second read out of the buffer.
   */
  method MyReceive(pipe: Pipe, buf: array<byte>) returns (ok: bool, ret: int)
    requires HEADER_SIZE <= buf.Length
    modifies pipe, buf
    ensures ok <==> FitsIn(old(pipe.stream), buf.Length)
    ensures ok ==> (ret, buf[..]) == Received(old(pipe.stream), old(buf[..]))
    ensures ok ==> pipe.stream == Rest(old(pipe.stream))
    ensures ok <==> |old(pipe.stream)| >= 16 ==> 16 + BigWord(old(pipe.stream), 12) <= buf.Length
    ensures ok ==> PacketTaken(old(pipe.stream), old(buf[..]), ret, buf[..], pipe.stream)
  {
    ghost var s, was := pipe.stream, buf[..];
    if FitsIn(s, |was|) {
      ReceivedTakes(s, was);
    }
    var got := SocketRead(pipe, buf, 0, HEADER_SIZE);
    if got < 0 {
      return true, -1;
    }
    var h := DecapHeader(buf, 0);
    HeaderInBuffer(s, was, h);
    StoreHostHeader(buf, h);
    SpliceOver(was, s[..HEADER_SIZE], HostHeader(h));
    if buf.Length < HEADER_SIZE + h.payloadSize {
      return false, 0;
    }
    got := SocketRead(pipe, buf, HEADER_SIZE, h.payloadSize);
    PayloadInBuffer(s, was, h);
    ok, ret := true, if got < 0 then -1 else HEADER_SIZE + h.payloadSize;
  }

  lemma HeaderInBuffer(s: seq<byte>, was: seq<byte>, h: Header)
    requires HEADER_SIZE <= |s| && HEADER_SIZE <= |was|
    requires h == DecodeHeader(Splice(was, 0, s[..HEADER_SIZE]))
    ensures h == DecodeHeader(s)
  {
    assert Splice(was, 0, s[..HEADER_SIZE])[..HEADER_SIZE] == s[..HEADER_SIZE];
    SameHeader(Splice(was, 0, s[..HEADER_SIZE]), s);
  }

  /** The second read behind a header that is already stored. */
  lemma PayloadInBuffer(s: seq<byte>, was: seq<byte>, h: Header)
    requires HEADER_SIZE <= |s| && h == DecodeHeader(s) && HEADER_SIZE + h.payloadSize <= |was|
    ensures var rest := s[HEADER_SIZE..];
            var m := if h.payloadSize <= |rest| then h.payloadSize else |rest|;
            && Splice(Splice(was, 0, HostHeader(h)), HEADER_SIZE, rest[..m]) == Received(s, was).1
            && (h.payloadSize <= |rest| ==> rest[h.payloadSize..] == Rest(s))
            && (m == |rest| ==> rest[..m] == rest)
  {
    var rest := s[HEADER_SIZE..];
    var m := if h.payloadSize <= |rest| then h.payloadSize else |rest|;
    SpliceAppend(was, 0, HostHeader(h), rest[..m]);
    assert rest[..m] == s[HEADER_SIZE..HEADER_SIZE + m];
    if h.payloadSize <= |rest| {
      DropDrop(s, HEADER_SIZE, h.payloadSize);
    }
  }

  /** A packet with its header as the host keeps it. */
  function Hosted(p: seq<byte>): seq<byte>
    requires HEADER_SIZE <= |p|
  {
    HostHeader(DecodeHeader(p)) + p[HEADER_SIZE..]
  }

  /** One call on a stream that starts with a packet takes that packet and no byte more. */
  lemma {:induction false} FirstPacketReceived(p: seq<byte>, rest: seq<byte>, was: seq<byte>)
    requires IsPacket(p) && |p| <= |was|
    ensures PacketLength(p + rest) == |p| && Rest(p + rest) == rest
    ensures Received(p + rest, was) == (|p|, Splice(was, 0, Hosted(p)))
  {
    SameHeader(p + rest, p);
    Halves(p, rest);
    assert (p + rest)[HEADER_SIZE..|p|] == p[HEADER_SIZE..];
  }

  /** The same for a packet given as header and payload, and for one whose payload is cut short. */
  lemma PayloadReceived(h: Header, payload: seq<byte>, rest: seq<byte>, was: seq<byte>)
    requires HEADER_SIZE + h.payloadSize <= |was|
    requires h.payloadSize == |payload| || (|payload| < h.payloadSize && rest == [])
    ensures var s, n := EncodeHeader(h) + payload + rest, HEADER_SIZE + |payload|;
            && PacketLength(s) == HEADER_SIZE + h.payloadSize
            && Received(s, was).0 == (if h.payloadSize == |payload| then n else -1)
            && Received(s, was).1 == HostHeader(h) + (payload + was[n..])
  {
    var s, n := EncodeHeader(h) + payload + rest, HEADER_SIZE + |payload|;
    HeaderRoundTrip(h, payload + rest);
    assert s == EncodeHeader(h) + (payload + rest);
    assert DecodeHeader(s) == h;
    assert s[HEADER_SIZE..n] == payload;
    assert Splice(was, 0, HostHeader(h) + payload) == HostHeader(h) + (payload + was[n..]);
  }

  lemma SameWordIn(a: seq<byte>, b: seq<byte>, pos: nat)
    requires pos + 4 <= |a| && pos + 4 <= |b| && a[..pos + 4] == b[..pos + 4]
    ensures BigWord(a, pos) == BigWord(b, pos)
  {
    TakenAt(a, b, pos + 4, pos);
    TakenAt(a, b, pos + 4, pos + 1);
    TakenAt(a, b, pos + 4, pos + 2);
    TakenAt(a, b, pos + 4, pos + 3);
    SameWord(a, pos, b, pos);
  }

  lemma SameHeader(a: seq<byte>, b: seq<byte>)
    requires HEADER_SIZE <= |a| && HEADER_SIZE <= |b| && a[..HEADER_SIZE] == b[..HEADER_SIZE]
    ensures DecodeHeader(a) == DecodeHeader(b)
  {
    SamePrefix(a, b, HEADER_SIZE, 4);
    SamePrefix(a, b, HEADER_SIZE, 8);
    SamePrefix(a, b, HEADER_SIZE, 12);
    SameWordIn(a, b, 0);
    SameWordIn(a, b, 4);
    SameWordIn(a, b, 8);
    SameWordIn(a, b, 12);
  }

  lemma SpliceOver(was: seq<byte>, a: seq<byte>, b: seq<byte>)
    requires |a| == |b| <= |was|
    ensures Splice(Splice(was, 0, a), 0, b) == Splice(was, 0, b)
  {
  }

  method StoreHostHeader(buf: array<byte>, h: Header)
    requires HEADER_SIZE <= buf.Length
    modifies buf
    ensures buf[..] == Splice(old(buf[..]), 0, HostHeader(h))
  {
    ghost var was := buf[..];
    var host := HostHeader(h);
    forall i | 0 <= i < HEADER_SIZE {
      buf[i] := host[i];
    }
    assert buf[..] == Splice(was, 0, host);
  }

  // ---------------------------------------------------------------- every interleaving of both ends

  /** A byte string that announces its own length. */
  ghost predicate IsPacket(p: seq<byte>) {
    HEADER_SIZE <= |p| && |p| == PacketLength(p)
  }

  function Flatten(ps: seq<seq<byte>>): seq<byte> {
    if ps == [] then [] else ps[0] + Flatten(ps[1..])
  }

  lemma {:induction false} FlattenAppend(ps: seq<seq<byte>>, p: seq<byte>)
    ensures Flatten(ps + [p]) == Flatten(ps) + p
  {
    if ps == [] {
      assert [p][1..] == [];
    } else {
      FlattenAppend(ps[1..], p);
      assert (ps + [p])[1..] == ps[1..] + [p];
    }
  }

  /**
   * A sender in the middle of its write loop and a receiver in the middle of `my_receive`:
   * bytes not yet sent, bytes under way, the packet being read, and the packets returned so far.
   */
  datatype Link = Link(unsent: seq<byte>, inFlight: seq<byte>, partial: seq<byte>, delivered: seq<seq<byte>>)

  /** How many bytes the receiver asks the socket for. */
  function Wanted(partial: seq<byte>): int {
    if |partial| < HEADER_SIZE then HEADER_SIZE - |partial| else PacketLength(partial) - |partial|
  }

  ghost predicate SendStep(l: Link, l': Link) {
    exists n :: 1 <= n <= |l.unsent| &&
      l' == l.(unsent := l.unsent[n..], inFlight := l.inFlight + l.unsent[..n])
  }

  ghost predicate RecvStep(l: Link, l': Link) {
    exists n :: 1 <= n <= |l.inFlight| && n <= Wanted(l.partial) && l' == Taken(l, n)
  }

  function Taken(l: Link, n: nat): Link
    requires n <= |l.inFlight|
  {
    var p := l.partial + l.inFlight[..n];
    var rest := l.inFlight[n..];
    if HEADER_SIZE <= |p| && |p| == PacketLength(p)
    then Link(l.unsent, rest, [], l.delivered + [p])
    else Link(l.unsent, rest, p, l.delivered)
  }

  ghost predicate Step(l: Link, l': Link) {
    SendStep(l, l') || RecvStep(l, l')
  }

  ghost predicate Run(ls: seq<Link>, packets: seq<seq<byte>>) {
    && |ls| > 0
    && ls[0] == Link(Flatten(packets), [], [], [])
    && forall i | 0 <= i < |ls| - 1 :: Step(ls[i], ls[i + 1])
  }

  ghost predicate LinkInv(l: Link, packets: seq<seq<byte>>) {
    && LinkBytes(l) == Flatten(packets)
    && ArePackets(l.delivered)
    && Wanted(l.partial) > 0
  }

  lemma SendKeepsInv(l: Link, n: nat, packets: seq<seq<byte>>)
    requires LinkInv(l, packets) && n <= |l.unsent|
    ensures LinkInv(l.(unsent := l.unsent[n..], inFlight := l.inFlight + l.unsent[..n]), packets)
  {
    var before, a, b := Flatten(l.delivered) + l.partial, l.unsent[..n], l.unsent[n..];
    TakeAndDrop(l.unsent, n);
    Associative(before, l.inFlight, a);
    Associative(before + l.inFlight, a, b);
  }

  lemma TakenPartial(partial: seq<byte>, chunk: seq<byte>)
    requires 1 <= |chunk| <= Wanted(partial)
    ensures var p := partial + chunk;
            IsPacket(p) || Wanted(p) > 0
  {
    if HEADER_SIZE <= |partial| {
      SameHeader(partial + chunk, partial);
    }
  }

  function LinkBytes(l: Link): seq<byte> {
    Flatten(l.delivered) + l.partial + l.inFlight + l.unsent
  }

  lemma TakenKeepsBytes(l: Link, n: nat)
    requires n <= |l.inFlight|
    ensures LinkBytes(Taken(l, n)) == LinkBytes(l)
  {
    var done, a, rest := Flatten(l.delivered), l.inFlight[..n], l.inFlight[n..];
    var p := l.partial + a;
    FlattenAppend(l.delivered, p);
    TakeAndDrop(l.inFlight, n);
    Associative(done, l.partial, a);
    Associative(done + l.partial, a, rest);
    NothingAfter(done + p);
  }

  lemma RecvKeepsInv(l: Link, n: nat, packets: seq<seq<byte>>)
    requires LinkInv(l, packets) && 1 <= n <= |l.inFlight| && n <= Wanted(l.partial)
    ensures LinkInv(Taken(l, n), packets)
  {
    TakenPartial(l.partial, l.inFlight[..n]);
    TakenKeepsBytes(l, n);
  }

  lemma StepKeepsInv(l: Link, l': Link, packets: seq<seq<byte>>)
    requires LinkInv(l, packets) && Step(l, l')
    ensures LinkInv(l', packets)
  {
    if SendStep(l, l') {
      var n :| 1 <= n <= |l.unsent| && l' == l.(unsent := l.unsent[n..], inFlight := l.inFlight + l.unsent[..n]);
      SendKeepsInv(l, n, packets);
    } else {
      var n :| 1 <= n <= |l.inFlight| && n <= Wanted(l.partial) && l' == Taken(l, n);
      RecvKeepsInv(l, n, packets);
    }
  }

  lemma {:induction false} RunKeepsInv(ls: seq<Link>, packets: seq<seq<byte>>, i: nat)
    requires Run(ls, packets) && i < |ls|
    ensures LinkInv(ls[i], packets)
  {
    if i > 0 {
      RunKeepsInv(ls, packets, i - 1);
      StepKeepsInv(ls[i - 1], ls[i], packets);
    }
  }

  /** Two streams that are the same begin with the same packet. */
  lemma FirstPacketAgrees(d: seq<byte>, x: seq<byte>, p: seq<byte>, y: seq<byte>)
    requires IsPacket(d) && IsPacket(p) && d + x == p + y
    ensures d == p && x == y
  {
    SameHeader(d + x, d);
    SameHeader(p + y, p);
    Halves(d, x);
    Halves(p, y);
  }

  ghost predicate ArePackets(ps: seq<seq<byte>>) {
    forall i | 0 <= i < |ps| :: IsPacket(ps[i])
  }

  lemma TailPackets(ps: seq<seq<byte>>)
    requires ArePackets(ps) && ps != []
    ensures IsPacket(ps[0]) && ArePackets(ps[1..]) && Flatten(ps) == ps[0] + Flatten(ps[1..])
  {
  }

  /** Self-delimiting packets can be cut from a common stream in one way only. */
  lemma {:induction false} CutsAgree(delivered: seq<seq<byte>>, rest: seq<byte>, packets: seq<seq<byte>>)
    requires ArePackets(delivered) && ArePackets(packets)
    requires Flatten(delivered) + rest == Flatten(packets)
    ensures delivered <= packets
    ensures rest == Flatten(packets[|delivered|..])
  {
    if delivered == [] {
      assert Flatten(delivered) + rest == rest;
      assert packets[0..] == packets;
    } else {
      var d, ds := delivered[0], delivered[1..];
      TailPackets(delivered);
      Associative(d, Flatten(ds), rest);
      assert packets != [] by {
        assert |Flatten(packets)| > 0;
      }
      TailPackets(packets);
      FirstPacketAgrees(d, Flatten(ds) + rest, packets[0], Flatten(packets[1..]));
      CutsAgree(ds, rest, packets[1..]);
      DropDrop(packets, 1, |ds|);
      assert delivered == [d] + ds && packets == [d] + packets[1..];
    }
  }

  /**
   * However the two ends interleave and however send and recv split the bytes: what has been received is
   * a prefix of what was sent, and once every byte has arrived it is all of it, with nothing left over.
   */
  lemma PacketsArriveInOrder(ls: seq<Link>, packets: seq<seq<byte>>, i: nat)
    requires Run(ls, packets) && i < |ls|
    requires ArePackets(packets)
    ensures ls[i].delivered <= packets
    ensures ls[i].unsent == [] && ls[i].inFlight == [] ==> ls[i].delivered == packets && ls[i].partial == []
  {
    var l := ls[i];
    RunKeepsInv(ls, packets, i);
    var rest := l.partial + (l.inFlight + l.unsent);
    Associative(Flatten(l.delivered), l.partial, l.inFlight + l.unsent);
    Associative(Flatten(l.delivered) + l.partial, l.inFlight, l.unsent);
    CutsAgree(l.delivered, rest, packets);
    if l.unsent == [] && l.inFlight == [] {
      assert rest == l.partial;
      var left := packets[|l.delivered|..];
      if left != [] {
        assert left[0] == packets[|l.delivered|];
        PacketIsWhole(l.partial, left[0], Flatten(left[1..]));
      }
    }
  }

  lemma PacketIsWhole(partial: seq<byte>, p: seq<byte>, tail: seq<byte>)
    requires IsPacket(p) && partial == p + tail
    ensures Wanted(partial) <= 0
  {
    SameHeader(partial, p);
  }

  /** No run stops early: while bytes are left, some step is possible. */
  lemma LinkNotStuck(ls: seq<Link>, packets: seq<seq<byte>>, i: nat) returns (next: Link)
    requires Run(ls, packets) && i < |ls| && (ls[i].unsent != [] || ls[i].inFlight != [])
    ensures Step(ls[i], next)
  {
    RunKeepsInv(ls, packets, i);
    next := NextLink(ls[i]);
  }

  lemma NextLink(l: Link) returns (next: Link)
    requires Wanted(l.partial) > 0 && (l.unsent != [] || l.inFlight != [])
    ensures Step(l, next)
  {
    if l.unsent != [] {
      next := l.(unsent := l.unsent[1..], inFlight := l.inFlight + l.unsent[..1]);
      assert SendStep(l, next);
    } else {
      next := Taken(l, 1);
    }
  }

  /** A run of `n` packets ends within two steps per byte. */
  lemma {:induction false} RunsAreShort(ls: seq<Link>, packets: seq<seq<byte>>, i: nat)
    requires Run(ls, packets) && i < |ls|
    ensures i + 2 * |ls[i].unsent| + |ls[i].inFlight| <= 2 * |Flatten(packets)|
  {
    if i > 0 {
      RunsAreShort(ls, packets, i - 1);
      assert Step(ls[i - 1], ls[i]);
    }
  }

  // ---------------------------------------------------------------- the receiver of the machine is `my_receive`

  /** From a packet boundary, the two reads that the socket serves in full take the packet that `my_receive` returns. */
  lemma LinkTakesAsMyReceive(l: Link, p: seq<byte>, rest: seq<byte>, was: seq<byte>)
    requires l.partial == [] && l.inFlight == p + rest && IsPacket(p) && |p| <= |was|
    ensures var half := Taken(l, HEADER_SIZE);
            && HEADER_SIZE <= |p| && |half.inFlight| == |p| - HEADER_SIZE + |rest|
            && var whole := if |p| == HEADER_SIZE then half else Taken(half, |p| - HEADER_SIZE);
            && RecvStep(l, half) && (|p| == HEADER_SIZE || RecvStep(half, whole))
            && whole == Link(l.unsent, Rest(l.inFlight), [], l.delivered + [p])
            && FitsIn(l.inFlight, |was|) && Received(l.inFlight, was) == (|p|, Splice(was, 0, Hosted(p)))
  {
    FirstPacketReceived(p, rest, was);
    var header := p[..HEADER_SIZE];
    assert l.partial + l.inFlight[..HEADER_SIZE] == header;
    SameHeader(header, p);
    if |p| == HEADER_SIZE {
      assert header == p;
    } else {
      var half := Taken(l, HEADER_SIZE);
      assert half == Link(l.unsent, l.inFlight[HEADER_SIZE..], header, l.delivered);
      assert half.partial + half.inFlight[..|p| - HEADER_SIZE] == p;
      DropDrop(l.inFlight, HEADER_SIZE, |p| - HEADER_SIZE);
    }
  }

  /** As many calls of `my_receive` as packets were sent return exactly these packets, in order, and leave nothing. */
  method ReceiveAll(pipe: Pipe, buf: array<byte>, n: nat, ghost packets: seq<seq<byte>>) returns (got: seq<seq<byte>>)
    requires HEADER_SIZE <= buf.Length && |packets| == n && pipe.stream == Flatten(packets)
    requires ArePackets(packets) && forall i | 0 <= i < n :: |packets[i]| <= buf.Length
    modifies pipe, buf
    ensures pipe.stream == [] && |got| == n
    ensures forall i | 0 <= i < n :: IsPacket(packets[i]) && got[i] == Hosted(packets[i])
  {
    got := [];
    for i := 0 to n
      invariant |got| == i && pipe.stream == Flatten(packets[i..])
      invariant forall j | 0 <= j < i :: IsPacket(packets[j]) && got[j] == Hosted(packets[j])
    {
      var p := ReceiveOne(pipe, buf, packets[i], Flatten(packets[i..][1..]));
      DropDrop(packets, i, 1);
      got := got + [p];
    }
  }

  method ReceiveOne(pipe: Pipe, buf: array<byte>, ghost p: seq<byte>, ghost rest: seq<byte>) returns (got: seq<byte>)
    requires HEADER_SIZE <= buf.Length && IsPacket(p) && |p| <= buf.Length && pipe.stream == p + rest
    modifies pipe, buf
    ensures pipe.stream == rest && got == Hosted(p)
  {
    ghost var was := buf[..];
    FirstPacketReceived(p, rest, was);
    SpliceStart(was, Hosted(p));
    var ok, ret := MyReceive(pipe, buf);
    got := Front(buf, ret);
  }

  lemma SpliceStart(was: seq<byte>, t: seq<byte>)
    requires |t| <= |was|
    ensures Splice(was, 0, t)[..|t|] == t
  {
  }

  method Front(buf: array<byte>, n: nat) returns (s: seq<byte>)
    requires n <= buf.Length
    ensures s == buf[..][..n]
  {
    s := buf[..n];
  }
}
