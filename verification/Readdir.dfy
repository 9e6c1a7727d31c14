/** Paging a directory: handle_readdir packs pages, do_readdir asks for them and unpacks them. */
module Readdir {
  import opened Bytes
  import opened Wire
  import opened PacketCode
  import opened Framing
  import opened Endpoint
  import opened Server
  import opened Client
  import opened Sequences

  /** A directory entry: its type byte, its name, and the offset `telldir` gives behind it. */
  datatype Dirent = Dirent(kind: byte, name: seq<byte>, next: u32)

  /** What the client hands to the filler. */
  datatype Entry = Entry(name: seq<byte>, mode: u32)

  ghost predicate IsCString(s: seq<byte>) {
    forall i | 0 <= i < |s| :: s[i] != 0
  }

  /** Names are C strings, type bytes are small, and resume offsets are nonzero and tell positions apart. */
  ghost predicate ValidDir(dir: seq<Dirent>) {
    && (forall i | 0 <= i < |dir| :: IsCString(dir[i].name) && dir[i].kind < 0x80 && dir[i].next != 0)
    && (forall i, j | 0 <= i < j < |dir| :: dir[i].next != dir[j].next)
  }

  /** `st_mode = type << 12`. */
  function ModeOf(kind: byte): u32 { kind * 0x1000 }

  function Shown(e: Dirent): Entry { Entry(e.name, ModeOf(e.kind)) }

  /** The entries `i` to `j`, in order. */
  function Listed(dir: seq<Dirent>, i: nat, j: nat): (es: seq<Entry>)
    requires i <= j <= |dir|
    ensures |es| == j - i
  {
    if i == j then [] else Listed(dir, i, j - 1) + [Shown(dir[j - 1])]
  }

  lemma {:induction false} ListedAppend(dir: seq<Dirent>, i: nat, j: nat, k: nat)
    requires i <= j <= k <= |dir|
    ensures Listed(dir, i, j) + Listed(dir, j, k) == Listed(dir, i, k)
  {
    if j < k {
      ListedAppend(dir, i, j, k - 1);
    }
  }

  lemma {:induction false} ListedAt(dir: seq<Dirent>, i: nat, j: nat, k: nat)
    requires i <= j <= |dir| && k < j - i
    ensures Listed(dir, i, j)[k] == Entry(dir[i + k].name, dir[i + k].kind * 0x1000)
  {
    if k < j - i - 1 {
      ListedAt(dir, i, j - 1, k);
    }
  }

  /** An entry takes its type byte, its name and a terminating zero. */
  function PackedSize(e: Dirent): nat { |e.name| + 2 }

  function Packed(e: Dirent): seq<byte> { [e.kind] + e.name + [0] }

  /** The entries `i` to `j` one after the other, each as `pack` writes it. */
  function PackedBy(pack: Dirent -> seq<byte>, dir: seq<Dirent>, i: nat, j: nat): seq<byte>
    requires i <= j <= |dir|
  {
    if i == j then [] else PackedBy(pack, dir, i, j - 1) + pack(dir[j - 1])
  }

  function Pack(dir: seq<Dirent>, i: nat, j: nat): seq<byte>
    requires i <= j <= |dir|
  {
    PackedBy(Packed, dir, i, j)
  }

  /** `o` is where `seekdir` may be sent: the start, or behind some entry. */
  ghost predicate IsOffset(dir: seq<Dirent>, o: u32) {
    o == 0 || exists i :: 0 <= i < |dir| && dir[i].next == o
  }

  /** The entry that `readdir` returns first after `seekdir(o)`. */
  ghost function Position(dir: seq<Dirent>, o: u32): (p: nat)
    requires IsOffset(dir, o)
    ensures p <= |dir|
  {
    if o == 0 then 0 else var i :| 0 <= i < |dir| && dir[i].next == o; i + 1
  }

  /** Offset 0 is in front of the first entry, and the offset that `telldir` gives behind an entry in front of the next. */
  ghost predicate StartsAt(dir: seq<Dirent>, o: u32, p: nat) {
    p <= |dir| && o == if p == 0 then 0 else dir[p - 1].next
  }

  /** There is just one such place. */
  lemma PositionIs(dir: seq<Dirent>, o: u32, p: nat)
    requires ValidDir(dir) && StartsAt(dir, o, p)
    ensures IsOffset(dir, o) && Position(dir, o) == p
  {
  }

  lemma PositionStarts(dir: seq<Dirent>, o: u32)
    requires IsOffset(dir, o)
    ensures StartsAt(dir, o, Position(dir, o))
  {
  }

  method Seek(dir: seq<Dirent>, o: u32) returns (p: nat)
    requires ValidDir(dir) && IsOffset(dir, o)
    ensures p == Position(dir, o)
    ensures p <= |dir| && o == if p == 0 then 0 else dir[p - 1].next
  {
    if o == 0 {
      return 0;
    }
    p := 0;
    while dir[p].next != o
      invariant 0 <= p < |dir|
      invariant forall i | 0 <= i < p :: dir[i].next != o
      invariant exists i :: 0 <= i < |dir| && dir[i].next == o
      decreases |dir| - p
    {
      p := p + 1;
    }
    p := p + 1;
  }

  /** Entries from `start` on that fit a page of `room` bytes together. */
  function PageEnd(dir: seq<Dirent>, start: nat, room: int): (end: nat)
    requires start <= |dir|
    ensures start <= end <= |dir|
    decreases |dir| - start
  {
    if start == |dir| || room < PackedSize(dir[start]) then start
    else PageEnd(dir, start + 1, room - PackedSize(dir[start]))
  }

  /** The packing loop of `handle_readdir`. */
  method PackPage(dir: seq<Dirent>, start: nat, limit: nat) returns (raw: seq<byte>, more: u32)
    requires start <= |dir|
    ensures var end := PageEnd(dir, start, limit);
            && raw == Pack(dir, start, end) && |raw| <= limit
            && more == if end == |dir| || end == start then 0 else dir[end - 1].next
  {
    raw, more := [], 0;
    var prev: u32 := 0;
    var i := start;
    while i < |dir|
      invariant start <= i <= |dir|
      invariant raw == Pack(dir, start, i) && |raw| <= limit
      invariant prev == if i == start then 0 else dir[i - 1].next
      invariant PageEnd(dir, start, limit) == PageEnd(dir, i, limit - |raw|)
    {
      if |dir[i].name| + 1 + 1 + |raw| > limit {
        more := prev;
        break;
      }
      raw := raw + Packed(dir[i]);
      prev := dir[i].next;
      i := i + 1;
    }
  }

  /** Entry `j` of a page stands between two cuts: its type byte, its name and a zero. */
  ghost predicate EntryAt(dir: seq<Dirent>, p: nat, raw: seq<byte>, cuts: seq<nat>, j: nat) {
    && p + j < |dir| && j + 1 < |cuts| && cuts[j] <= cuts[j + 1] <= |raw|
    && cuts[j + 1] == cuts[j] + |dir[p + j].name| + 2
    && raw[cuts[j]..cuts[j + 1]] == [dir[p + j].kind] + dir[p + j].name + [0]
  }

  /** `raw` holds `n` entries from entry `p` on, one behind the other and nothing else. */
  ghost predicate HoldsEntries(dir: seq<Dirent>, p: nat, n: nat, raw: seq<byte>, cuts: seq<nat>) {
    && p + n <= |dir| && |cuts| == n + 1 && cuts[0] == 0 && cuts[n] == |raw|
    && forall j: nat | j < n :: EntryAt(dir, p, raw, cuts, j)
  }

  /** The page of at most `limit` bytes from entry `p` on: as many entries as fit, and the offset to go on from. */
  ghost predicate IsPage(dir: seq<Dirent>, p: nat, limit: nat, raw: seq<byte>, more: u32, n: nat, cuts: seq<nat>) {
    && HoldsEntries(dir, p, n, raw, cuts) && |raw| <= limit
    && (p + n < |dir| ==> limit < |raw| + |dir[p + n].name| + 2)
    && more == if n == 0 || p + n == |dir| then 0 else dir[p + n - 1].next
  }

  lemma {:induction false} PackHolds(dir: seq<Dirent>, p: nat, j: nat) returns (cuts: seq<nat>)
    requires p <= j <= |dir|
    ensures HoldsEntries(dir, p, j - p, Pack(dir, p, j), cuts)
  {
    if j == p {
      cuts := [0];
    } else {
      var before := PackHolds(dir, p, j - 1);
      var raw := Pack(dir, p, j - 1);
      cuts := before + [|raw| + |dir[j - 1].name| + 2];
      HoldsOneMore(dir, p, j - 1 - p, raw, before, cuts);
      assert Pack(dir, p, j) == raw + Packed(dir[j - 1]);
    }
  }

  lemma {:induction false} HoldsOneMore(dir: seq<Dirent>, p: nat, n: nat, raw: seq<byte>, before: seq<nat>, cuts: seq<nat>)
    requires p + n < |dir| && HoldsEntries(dir, p, n, raw, before)
    requires cuts == before + [|raw| + |dir[p + n].name| + 2]
    ensures HoldsEntries(dir, p, n + 1, raw + Packed(dir[p + n]), cuts)
  {
    var e := Packed(dir[p + n]);
    var all := raw + e;
    forall j: nat | j < n + 1 ensures EntryAt(dir, p, all, cuts, j) {
      if j < n {
        assert EntryAt(dir, p, raw, before, j);
        assert cuts[j] == before[j] && cuts[j + 1] == before[j + 1];
        assert all[cuts[j]..cuts[j + 1]] == raw[cuts[j]..cuts[j + 1]];
      } else {
        assert all[|raw|..|raw| + |e|] == e;
      }
    }
  }

  lemma {:induction false} PageEndStops(dir: seq<Dirent>, first: nat, at: nat, limit: nat)
    requires first <= at <= |dir| && |Pack(dir, first, at)| <= limit
    ensures var end := PageEnd(dir, at, limit - |Pack(dir, first, at)|);
            && |Pack(dir, first, end)| <= limit
            && (end < |dir| ==> limit < |Pack(dir, first, end)| + |dir[end].name| + 2)
    decreases |dir| - at
  {
    if at < |dir| && PackedSize(dir[at]) <= limit - |Pack(dir, first, at)| {
      PageEndStops(dir, first, at + 1, limit);
    }
  }

  /** What the packing loop makes is the page. */
  lemma {:induction false} PackIsPage(dir: seq<Dirent>, p: nat, limit: nat, raw: seq<byte>, more: u32)
    returns (n: nat, cuts: seq<nat>)
    requires p <= |dir|
    requires var end := PageEnd(dir, p, limit);
             raw == Pack(dir, p, end) && more == if end == |dir| || end == p then 0 else dir[end - 1].next
    ensures IsPage(dir, p, limit, raw, more, n, cuts) && n == PageEnd(dir, p, limit) - p
  {
    var end := PageEnd(dir, p, limit);
    n := end - p;
    cuts := PackHolds(dir, p, end);
    assert Pack(dir, p, p) == [];
    PageEndStops(dir, p, p, limit);
  }

  /** `handle_readdir`: the page that starts at `offset`, and where to go on, 0 if the listing is done. */
  method HandleReaddir(dir: seq<Dirent>, offset: u32, limit: nat) returns (raw: seq<byte>, more: u32)
    requires ValidDir(dir) && IsOffset(dir, offset)
    ensures var start := Position(dir, offset);
            var end := PageEnd(dir, start, limit);
            && raw == Pack(dir, start, end) && |raw| <= limit
            && more == if end == |dir| || end == start then 0 else dir[end - 1].next
    ensures exists p: nat, n: nat, cuts ::
              StartsAt(dir, offset, p) && IsPage(dir, p, limit, raw, more, n, cuts)
  {
    var start := Seek(dir, offset);
    raw, more := PackPage(dir, start, limit);
    ghost var n, cuts := PackIsPage(dir, start, limit, raw, more);
    assert StartsAt(dir, offset, start) && IsPage(dir, start, limit, raw, more, n, cuts);
  }

  // ---------------------------------------------------------------- unpacking

  /** `strlen` of the string that starts at `pos`. */
  function StrEnd(raw: seq<byte>, pos: nat): (end: nat)
    requires pos <= |raw|
    ensures pos <= end <= |raw|
    decreases |raw| - pos
  {
    if pos == |raw| || raw[pos] == 0 then pos else StrEnd(raw, pos + 1)
  }

  function Unpack(raw: seq<byte>, pos: nat): seq<Entry>
    decreases |raw| - pos
  {
    if |raw| <= pos then [] else
    var end := StrEnd(raw, pos + 1);
    [Entry(raw[pos + 1..end], ModeOf(raw[pos]))] + Unpack(raw, end + 1)
  }

  lemma {:induction false} StrEndOf(raw: seq<byte>, pos: nat, end: nat)
    requires pos <= end < |raw| && raw[end] == 0
    requires forall i | pos <= i < end :: raw[i] != 0
    ensures StrEnd(raw, pos) == end
    decreases end - pos
  {
    if pos < end {
      StrEndOf(raw, pos + 1, end);
    }
  }

  lemma {:induction false} HeadOfPacked(pack: Dirent -> seq<byte>, dir: seq<Dirent>, i: nat, j: nat)
    requires i < j <= |dir|
    ensures PackedBy(pack, dir, i, j) == pack(dir[i]) + PackedBy(pack, dir, i + 1, j)
  {
    var last := pack(dir[j - 1]);
    if i + 1 < j {
      HeadOfPacked(pack, dir, i, j - 1);
      Associative(pack(dir[i]), PackedBy(pack, dir, i + 1, j - 1), last);
    } else {
      assert PackedBy(pack, dir, i, i) == [] && PackedBy(pack, dir, j, j) == [];
      assert [] + last == last + [];
    }
  }

  lemma PackHead(dir: seq<Dirent>, i: nat, j: nat)
    requires i < j <= |dir|
    ensures Pack(dir, i, j) == Packed(dir[i]) + Pack(dir, i + 1, j)
  {
    HeadOfPacked(Packed, dir, i, j);
  }

  lemma {:induction false} UnpackEntry(before: seq<byte>, e: Dirent, rest: seq<byte>, raw: seq<byte>)
    requires IsCString(e.name) && raw == before + Packed(e) + rest
    ensures Unpack(raw, |before|) == [Shown(e)] + Unpack(raw, |before| + PackedSize(e))
  {
    var pos := |before|;
    var end := pos + 1 + |e.name|;
    assert raw[pos] == e.kind && raw[end] == 0;
    forall i | pos + 1 <= i < end ensures raw[i] != 0 {
      assert raw[i] == e.name[i - pos - 1];
    }
    StrEndOf(raw, pos + 1, end);
    assert raw[pos + 1..end] == e.name;
  }

  /** The client's parser undoes the server's packing. */
  lemma {:induction false} UnpackPack(before: seq<byte>, dir: seq<Dirent>, i: nat, j: nat)
    requires i <= j <= |dir| && forall k | i <= k < j :: IsCString(dir[k].name)
    ensures Unpack(before + Pack(dir, i, j), |before|) == Listed(dir, i, j)
    decreases j - i
  {
    var raw := before + Pack(dir, i, j);
    if i == j {
      NothingAfter(before);
    } else {
      PackHead(dir, i, j);
      UnpackPack(before + Packed(dir[i]), dir, i + 1, j);
      UnpackStep(before, dir[i], Pack(dir, i + 1, j), Listed(dir, i + 1, j));
      ListedHead(dir, i, j);
    }
  }

  lemma {:induction false} UnpackStep(before: seq<byte>, e: Dirent, rest: seq<byte>, es: seq<Entry>)
    requires IsCString(e.name) && Unpack(before + Packed(e) + rest, |before + Packed(e)|) == es
    ensures Unpack(before + (Packed(e) + rest), |before|) == [Shown(e)] + es
  {
    Associative(before, Packed(e), rest);
    UnpackEntry(before, e, rest, before + Packed(e) + rest);
  }

  lemma {:induction false} ListedHead(dir: seq<Dirent>, i: nat, j: nat)
    requires i < j <= |dir|
    ensures Listed(dir, i, j) == [Shown(dir[i])] + Listed(dir, i + 1, j)
  {
    ListedAppend(dir, i, i + 1, j);
    assert Listed(dir, i, i + 1) == [Shown(dir[i])];
  }

  // ---------------------------------------------------------------- the client's loop

  /** The FUSE buffer behind `filler`: it takes `room` entries and then says that it is full. */
  class Filler {
    const room: nat
    var entries: seq<Entry>

    constructor (room: nat)
      ensures this.room == room && entries == []
    {
      this.room := room;
      entries := [];
    }

    method Fill(e: Entry) returns (full: bool)
      modifies this
      ensures full == (|old(entries)| >= room)
      ensures entries == if full then old(entries) else old(entries) + [e]
    {
      full := |entries| >= room;
      if !full {
        entries := entries + [e];
      }
    }
  }

  function Upto<T>(s: seq<T>, n: nat): seq<T> {
    if |s| <= n then s else s[..n]
  }

  method StrLen(raw: seq<byte>, start: nat) returns (end: nat)
    requires start <= |raw|
    ensures end == StrEnd(raw, start)
    ensures start <= end <= |raw| && (end < |raw| ==> raw[end] == 0) && forall i | start <= i < end :: raw[i] != 0
  {
    end := start;
    while end < |raw| && raw[end] != 0
      invariant start <= end <= |raw|
      invariant StrEnd(raw, start) == StrEnd(raw, end) && forall i | start <= i < end :: raw[i] != 0
    {
      end := end + 1;
    }
  }

  /** The entries from `pos` on are `es`. */
  ghost predicate Left(raw: seq<byte>, pos: nat, es: seq<Entry>) {
    forall p: nat {:trigger Unpack(raw, p)} | p == pos :: Unpack(raw, p) == es
  }

  lemma {:induction false} UnpackIs(raw: seq<byte>, pos: nat, end: nat)
    requires pos < |raw| && end == StrEnd(raw, pos + 1)
    ensures Unpack(raw, pos) == [Entry(raw[pos + 1..end], ModeOf(raw[pos]))] + Unpack(raw, end + 1)
  {
  }

  lemma {:induction false} LeftNext(raw: seq<byte>, pos: nat, end: nat, e: Entry, es: seq<Entry>)
    returns (rest: seq<Entry>)
    requires Left(raw, pos, es) && pos < |raw| && end == StrEnd(raw, pos + 1)
    requires e == Entry(raw[pos + 1..end], ModeOf(raw[pos]))
    ensures es == [e] + rest && Left(raw, end + 1, rest)
  {
    UnpackIs(raw, pos, end);
    rest := Unpack(raw, end + 1);
  }

  lemma {:induction false} NothingLeft(raw: seq<byte>, pos: nat, es: seq<Entry>)
    requires Left(raw, pos, es) && |raw| <= pos
    ensures es == []
  {
    assert Unpack(raw, pos) == [];
  }

  /** The inner loop of `do_readdir`: all entries of one page, or until the filler is full. */
  method FillPage(filler: Filler, raw: seq<byte>) returns (full: bool)
    requires |filler.entries| <= filler.room
    modifies filler
    ensures filler.entries == Upto(old(filler.entries) + Unpack(raw, 0), filler.room)
    ensures full == (|old(filler.entries) + Unpack(raw, 0)| > filler.room)
  {
    ghost var left := Unpack(raw, 0);
    ghost var all := filler.entries + left;
    var pos := 0;
    full := false;
    while pos < |raw|
      invariant Left(raw, pos, left) && filler.entries + left == all && |filler.entries| <= filler.room
      decreases |raw| - pos
    {
      var kind := raw[pos];
      var start := pos + 1;
      var end := StrLen(raw, start);
      var e := Entry(raw[start..end], ModeOf(kind));
      ghost var before := filler.entries;
      ghost var rest := LeftNext(raw, pos, end, e, left);
      Associative(before, [e], rest);
      full := filler.Fill(e);
      if full {
        Halves(before, left);
        return;
      }
      pos, left := end + 1, rest;
    }
    NothingLeft(raw, pos, left);
    NothingAfter(filler.entries);
  }

  /** Where a listing from `start` ends: at the first entry too large for a page of its own. */
  function Reach(dir: seq<Dirent>, start: nat, limit: nat): (end: nat)
    requires start <= |dir|
    ensures start <= end <= |dir|
    decreases |dir| - start
  {
    if start == |dir| || limit < PackedSize(dir[start]) then start else Reach(dir, start + 1, limit)
  }

  lemma {:induction false} PageWithinReach(dir: seq<Dirent>, start: nat, room: int, limit: nat)
    requires start <= |dir| && room <= limit
    ensures Reach(dir, PageEnd(dir, start, room), limit) == Reach(dir, start, limit)
    decreases |dir| - start
  {
    if start < |dir| && PackedSize(dir[start]) <= room {
      PageWithinReach(dir, start + 1, room - PackedSize(dir[start]), limit);
    }
  }

  /** A listing reaches the end exactly when every entry fits a page of its own. */
  lemma {:induction false} ReachIsEnd(dir: seq<Dirent>, start: nat, limit: nat)
    requires start <= |dir|
    ensures Reach(dir, start, limit) == |dir| <==> forall i | start <= i < |dir| :: PackedSize(dir[i]) <= limit
    decreases |dir| - start
  {
    if start < |dir| {
      ReachIsEnd(dir, start + 1, limit);
    }
  }

  lemma PageListed(dir: seq<Dirent>, first: nat, at: nat, end: nat, raw: seq<byte>)
    requires ValidDir(dir) && first <= at <= end <= |dir| && raw == Pack(dir, at, end)
    ensures Listed(dir, first, at) + Unpack(raw, 0) == Listed(dir, first, end)
  {
    UnpackPack([], dir, at, end);
    assert [] + Pack(dir, at, end) == raw;
    ListedAppend(dir, first, at, end);
  }

  lemma ListedPrefix(dir: seq<Dirent>, first: nat, end: nat, reach: nat, room: nat)
    requires first <= end <= reach <= |dir| && room < end - first
    ensures Upto(Listed(dir, first, end), room) == Upto(Listed(dir, first, reach), room)
  {
    ListedAppend(dir, first, end, reach);
  }

  lemma PositionBehind(dir: seq<Dirent>, end: nat)
    requires ValidDir(dir) && 0 < end <= |dir|
    ensures IsOffset(dir, dir[end - 1].next) && Position(dir, dir[end - 1].next) == end
  {
  }

  // ---------------------------------------------------------------- requests and replies

  /** The page limit of `handle_readdir`: more than the buffers of both ends hold behind the two headers. */
  const PAGE_LIMIT := BUFFERSIZE + HEADER_SIZE + RESPONSE_BASE_SIZE

  /** Why the server refuses a request. */
  type Refusal = e: int | 0 <= e < 0x8000_0000

  datatype Exchange = Refused(ret: int) | TooLarge | Page(raw: seq<byte>, isMore: bool, more: u32)

  predicate FitsBuffers(raw: seq<byte>) {
    |raw| + HEADER_SIZE + RESPONSE_BASE_SIZE <= BUFFERSIZE
  }

  /** What the client gets for the page from entry `start` on. */
  function Exchanged(dir: seq<Dirent>, start: nat, limit: nat, refusal: Option<Refusal>): Exchange
    requires start <= |dir|
  {
    var end := PageEnd(dir, start, limit);
    var raw := Pack(dir, start, end);
    if refusal.Some? then Refused(0 - refusal.value)
    else if !FitsBuffers(raw) then TooLarge
    else if end == |dir| || end == start then Page(raw, false, 0)
    else Page(raw, true, dir[end - 1].next)
  }

  /** One request and its reply, over the wire and back. */
  method DoExchange(dir: seq<Dirent>, user: UserInfo, path: seq<byte>, offset: u32, limit: nat, refusal: Option<Refusal>)
    returns (r: Exchange)
    requires ValidDir(dir) && IsOffset(dir, offset) && limit <= PAGE_LIMIT
    requires |user.sgids| <= MAX_COREFS_GIDS && |path| < MAX_COREFS_PATH
    ensures r == Exchanged(dir, Position(dir, offset), limit, refusal)
    ensures refusal.Some? ==> r == Refused(0 - refusal.value)
    ensures refusal.None? ==>
              exists p: nat, raw, more, n: nat, cuts ::
                && StartsAt(dir, offset, p) && IsPage(dir, p, limit, raw, more, n, cuts)
                && r == if |raw| + 24 <= BUFFERSIZE then Page(raw, more != 0, more) else TooLarge
  {
    var command := BuildFileop(0, user, READDIR, offset, 0, path);
    FileopSize(0, user, READDIR, offset, 0, path);
    assert IsFramed(command);
    var cmd := Deliver(command);
    if refusal.Some? {
      r := ReturnRefusal(refusal.value);
    } else {
      r := AnswerReaddir(dir, cmd.request.op.offset, limit);
    }
  }

  /** The reply to a request that is not refused. */
  method AnswerReaddir(dir: seq<Dirent>, offset: u32, limit: nat) returns (r: Exchange)
    requires ValidDir(dir) && IsOffset(dir, offset) && limit <= PAGE_LIMIT
    ensures r == Exchanged(dir, Position(dir, offset), limit, None)
    ensures exists p: nat, raw, more, n: nat, cuts ::
              && StartsAt(dir, offset, p) && IsPage(dir, p, limit, raw, more, n, cuts)
              && r == if |raw| + 24 <= BUFFERSIZE then Page(raw, more != 0, more) else TooLarge
  {
    PositionNext(dir, offset, limit);
    var page, resume := HandleReaddir(dir, offset, limit);
    ghost var p: nat, n: nat, cuts :|
      StartsAt(dir, offset, p) && IsPage(dir, p, limit, page, resume, n, cuts);
    r := ReturnPage(page, resume);
  }

  /** A resume offset tells pages that are not the last from those that are. */
  lemma PositionNext(dir: seq<Dirent>, offset: u32, limit: nat)
    requires ValidDir(dir) && IsOffset(dir, offset)
    ensures var start := Position(dir, offset);
            var end := PageEnd(dir, start, limit);
            end != |dir| && end != start ==> dir[end - 1].next != 0
  {
  }

  method ReturnPage(page: seq<byte>, resume: u32) returns (r: Exchange)
    requires |page| <= PAGE_LIMIT
    ensures r == if FitsBuffers(page) then Page(page, resume != 0, resume) else TooLarge
  {
    var p := if resume != 0 then BuildMoreData(0, page, resume) else BuildResponseData(0, page);
    ResponseSizes(p, 0, page, resume, false, 0, Attr(0, 0, 0, 0, 0, 0, 0, 0));
    NothingAfter(Sent(p));
    if FitsBuffers(page) {
      CompleteReply(p, [], RESPONSE_DATA);
    } else {
      ReplyTooLarge(p);
    }
    var got := Return(p, RESPONSE_DATA);
    if got.None? {
      return TooLarge;
    }
    var reply := got.value.reply.value;
    r := Page(reply.result.data, reply.result.MoreData?, reply.moreOffset);
  }

  lemma ReplyTooLarge(p: ResponsePacket)
    requires p.header.payloadSize == |EncodeResponse(p.response)| && |Sent(p)| > BUFFERSIZE
    ensures !FitsIn(Sent(p) + [], BUFFERSIZE)
  {
    HeaderRoundTrip(p.header, EncodeResponse(p.response));
    NothingAfter(Sent(p));
  }

  method ReturnRefusal(errno: Refusal) returns (r: Exchange)
    ensures r == Refused(0 - errno)
  {
    var down := new Pipe(false);
    var sent := ErrorReply(down, errno, 0, 0);
    ErrorReachesClient(errno, 0, 0, [], RESPONSE_DATA);
    assert down.stream == Sent(BuildStatus(0, errno, true, 0)) + [];
    var value := ReceiveValue(down);
    r := Refused(value.value);
  }

  method ReceiveValue(pipe: Pipe) returns (value: Option<int>)
    modifies pipe
    ensures value == ReturnedTo(old(pipe.stream), RESPONSE_DATA)
  {
    var got := ClientReceive(pipe, RESPONSE_DATA);
    match got
    case None => value := None;
    case Some(r) => value := Some(r.ret);
  }

  /** How far the entries of a listing go, and what `do_readdir` returns; `None` where a page leaves the buffers. */
  datatype Listing = Listing(upto: nat, ret: Option<int>)

  /** The pages from entry `at` on, where `refused` says of every request whether it is refused. */
  function Pages(dir: seq<Dirent>, at: nat, limit: nat, refused: nat -> Option<Refusal>, k: nat): (l: Listing)
    requires at <= |dir|
    ensures at <= l.upto <= |dir|
    decreases |dir| - at
  {
    var end := PageEnd(dir, at, limit);
    if refused(k).Some? then Listing(at, Some(0 - refused(k).value))
    else if !FitsBuffers(Pack(dir, at, end)) then Listing(at, None)
    else if end == |dir| || end == at then Listing(end, Some(0))
    else Pages(dir, end, limit, refused, k + 1)
  }

  lemma PagesStep(dir: seq<Dirent>, at: nat, limit: nat, refused: nat -> Option<Refusal>, k: nat)
    requires ValidDir(dir) && at <= |dir|
    ensures var end, l := PageEnd(dir, at, limit), Pages(dir, at, limit, refused, k);
            match Exchanged(dir, at, limit, refused(k))
            case Refused(ret) => l == Listing(at, Some(ret))
            case TooLarge => l == Listing(at, None)
            case Page(raw, isMore, more) =>
              && raw == Pack(dir, at, end)
              && if isMore
                 then at < end <= l.upto && IsOffset(dir, more) && Position(dir, more) == end &&
                      l == Pages(dir, end, limit, refused, k + 1)
                 else l == Listing(end, Some(0))
  {
    var end := PageEnd(dir, at, limit);
    if end != at {
      PositionBehind(dir, end);
    }
  }

  /**
   * When no request is refused and the pages are no larger than the buffers, a listing goes to the first entry
   * that no page can hold. (`PAGE_LIMIT` itself is larger than the buffers.)
   */
  lemma {:induction false} PagesReach(dir: seq<Dirent>, at: nat, limit: nat, refused: nat -> Option<Refusal>, k: nat)
    requires at <= |dir| && limit + HEADER_SIZE + RESPONSE_BASE_SIZE <= BUFFERSIZE
    requires forall i | k <= i :: refused(i).None?
    ensures Pages(dir, at, limit, refused, k) == Listing(Reach(dir, at, limit), Some(0))
    decreases |dir| - at
  {
    var end := PageEnd(dir, at, limit);
    PageFits(dir, at, at, limit);
    PageWithinReach(dir, at, limit, limit);
    if end != |dir| && end != at {
      PagesReach(dir, end, limit, refused, k + 1);
    }
  }

  lemma {:induction false} PageFits(dir: seq<Dirent>, first: nat, at: nat, limit: nat)
    requires first <= at <= |dir| && |Pack(dir, first, at)| <= limit
    ensures |Pack(dir, first, PageEnd(dir, at, limit - |Pack(dir, first, at)|))| <= limit
    decreases |dir| - at
  {
    if at < |dir| && PackedSize(dir[at]) <= limit - |Pack(dir, first, at)| {
      PageFits(dir, first, at + 1, limit);
    }
  }

  /** Entry `i` handed over is entry `p + i` of the directory, the type byte in the bits of a mode. */
  ghost predicate HandedOver(dir: seq<Dirent>, p: nat, entries: seq<Entry>) {
    p + |entries| <= |dir|
    && forall i | 0 <= i < |entries| :: entries[i] == Entry(dir[p + i].name, dir[p + i].kind * 0x1000)
  }

  lemma {:induction false} UptoHandedOver(dir: seq<Dirent>, p: nat, q: nat, room: nat)
    requires p <= q <= |dir|
    ensures var entries := Upto(Listed(dir, p, q), room);
            HandedOver(dir, p, entries) && |entries| == if q - p <= room then q - p else room
  {
    forall i: nat | i < q - p
      ensures Listed(dir, p, q)[i] == Entry(dir[p + i].name, dir[p + i].kind * 0x1000)
    {
      ListedAt(dir, p, q, i);
    }
  }

  /** The entries from `p` up to `q` fit a page each; at `q` the directory ends or stands one that does not. */
  ghost predicate FitUpTo(dir: seq<Dirent>, p: nat, q: nat, limit: nat) {
    && p <= q <= |dir|
    && (forall i | p <= i < q :: |dir[i].name| + 2 <= limit)
    && (q < |dir| ==> limit < |dir[q].name| + 2)
  }

  lemma {:induction false} ReachIs(dir: seq<Dirent>, p: nat, q: nat, limit: nat)
    requires FitUpTo(dir, p, q, limit)
    ensures Reach(dir, p, limit) == q
    decreases q - p
  {
    if p < q {
      ReachIs(dir, p + 1, q, limit);
    }
  }

  /** A listing that returns an error returns that of the first request refused. */
  lemma {:induction false} PagesRefused(dir: seq<Dirent>, at: nat, limit: nat, refused: nat -> Option<Refusal>, k: nat)
    returns (n: nat)
    requires at <= |dir|
    ensures var ret := Pages(dir, at, limit, refused, k).ret;
            ret.Some? && ret.value != 0 ==>
              k <= n && refused(n) == Some(-ret.value) && forall i | k <= i < n :: refused(i).None?
    decreases |dir| - at
  {
    var end := PageEnd(dir, at, limit);
    n := k;
    if refused(k).None? && FitsBuffers(Pack(dir, at, end)) && end != |dir| && end != at {
      n := PagesRefused(dir, end, limit, refused, k + 1);
    }
  }

  /** What a listing hands over and returns, from what its pages are. */
  lemma {:induction false} ListingIs(dir: seq<Dirent>, p: nat, q: nat, limit: nat, refused: nat -> Option<Refusal>)
    requires FitUpTo(dir, p, q, limit) && limit + 24 <= BUFFERSIZE && forall k: nat :: refused(k).None?
    ensures Pages(dir, p, limit, refused, 0) == Listing(q, Some(0))
  {
    PagesReach(dir, p, limit, refused, 0);
    ReachIs(dir, p, q, limit);
  }

  /**
   * `do_readdir`: the filler gets each entry once and in order, as far as the pages go or until it is full.
   */
  method DoReaddir(dir: seq<Dirent>, user: UserInfo, path: seq<byte>, start: u32, limit: nat,
                   refused: nat -> Option<Refusal>, filler: Filler)
    returns (ret: Option<int>)
    requires ValidDir(dir) && IsOffset(dir, start) && limit <= PAGE_LIMIT
    requires |user.sgids| <= MAX_COREFS_GIDS && |path| < MAX_COREFS_PATH
    requires filler.entries == []
    modifies filler
    ensures var first := Position(dir, start);
            var l := Pages(dir, first, limit, refused, 0);
            && filler.entries == Upto(Listed(dir, first, l.upto), filler.room)
            && ret == if l.upto - first <= filler.room then l.ret else Some(0)
    ensures exists p: nat :: StartsAt(dir, start, p) && HandedOver(dir, p, filler.entries)
    ensures forall p: nat, q: nat {:trigger StartsAt(dir, start, p), FitUpTo(dir, p, q, limit)} |
              && StartsAt(dir, start, p) && FitUpTo(dir, p, q, limit)
              && limit + 24 <= BUFFERSIZE && (forall k: nat :: refused(k).None?) ::
              ret == Some(0) && |filler.entries| == if q - p <= filler.room then q - p else filler.room
    ensures refused(0).Some? ==> filler.entries == [] && ret == Some(0 - refused(0).value)
    ensures ret.Some? && ret.value != 0 ==>
              exists k: nat :: refused(k) == Some(-ret.value) && forall i: nat | i < k :: refused(i).None?
  {
    ret := ListPages(dir, user, path, start, limit, refused, filler);
    ghost var first := Position(dir, start);
    ghost var l := Pages(dir, first, limit, refused, 0);
    PositionStarts(dir, start);
    UptoHandedOver(dir, first, l.upto, filler.room);
    ghost var n := PagesRefused(dir, first, limit, refused, 0);
    forall p: nat, q: nat |
      && StartsAt(dir, start, p) && FitUpTo(dir, p, q, limit)
      && limit + 24 <= BUFFERSIZE && (forall k: nat :: refused(k).None?)
      ensures p == first && l == Listing(q, Some(0))
    {
      PositionIs(dir, start, p);
      ListingIs(dir, p, q, limit, refused);
    }
  }

  /** Its loop, in terms of the pages. */
  method ListPages(dir: seq<Dirent>, user: UserInfo, path: seq<byte>, start: u32, limit: nat,
                   refused: nat -> Option<Refusal>, filler: Filler)
    returns (ret: Option<int>)
    requires ValidDir(dir) && IsOffset(dir, start) && limit <= PAGE_LIMIT
    requires |user.sgids| <= MAX_COREFS_GIDS && |path| < MAX_COREFS_PATH
    requires filler.entries == []
    modifies filler
    ensures var first := Position(dir, start);
            var l := Pages(dir, first, limit, refused, 0);
            && filler.entries == Upto(Listed(dir, first, l.upto), filler.room)
            && ret == if l.upto - first <= filler.room then l.ret else Some(0)
  {
    var offset := start;
    ghost var first := Position(dir, start);
    ghost var at := first;
    ghost var l := Pages(dir, first, limit, refused, 0);
    var k := 0;
    while true
      invariant first <= at <= |dir| && IsOffset(dir, offset) && at == Position(dir, offset)
      invariant Pages(dir, at, limit, refused, k) == l
      invariant filler.entries == Listed(dir, first, at) && |filler.entries| <= filler.room
      decreases |dir| - at
    {
      var r := DoExchange(dir, user, path, offset, limit, refused(k));
      PagesStep(dir, at, limit, refused, k);
      if r.Refused? {
        return Some(r.ret);
      }
      if r.TooLarge? {
        return None;
      }
      ghost var end := PageEnd(dir, at, limit);
      PageListed(dir, first, at, end, r.raw);
      var full := FillPage(filler, r.raw);
      if full {
        ListedPrefix(dir, first, end, l.upto, filler.room);
        return Some(0);
      }
      if !r.isMore {
        return Some(0);
      }
      offset, at, k := r.more, end, k + 1;
    }
  }
}
