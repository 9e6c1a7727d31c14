/** Bytes, 32-bit words and buffers, as the packet code sees them. */
module Bytes {

  type byte = x: int | 0 <= x < 0x100
  type u32 = x: int | 0 <= x < 0x1_0000_0000

  datatype Option<+T> = None | Some(value: T)

  /** The word with the given four digits in base 256, most significant first. */
  function Word(b3: int, b2: int, b1: int, b0: int): (w: u32)
    requires 0 <= b3 < 0x100 && 0 <= b2 < 0x100 && 0 <= b1 < 0x100 && 0 <= b0 < 0x100
  {
    b3 * 0x100_0000 + b2 * 0x1_0000 + b1 * 0x100 + b0
  }

  lemma DigitsOfWord(b3: int, b2: int, b1: int, b0: int)
    requires 0 <= b3 < 0x100 && 0 <= b2 < 0x100 && 0 <= b1 < 0x100 && 0 <= b0 < 0x100
    ensures BigEndian(Word(b3, b2, b1, b0)) == [b3, b2, b1, b0]
  {
    var w := Word(b3, b2, b1, b0);
    assert w / 0x100_0000 == b3;
    assert w / 0x1_0000 == b3 * 0x100 + b2;
    assert w / 0x100 == b3 * 0x1_0000 + b2 * 0x100 + b1;
  }

  /** The bytes that `htonl` followed by a 4-byte store leaves in a buffer. */
  function BigEndian(w: u32): (s: seq<byte>)
    ensures |s| == 4
  {
    [w / 0x100_0000, w / 0x1_0000 % 0x100, w / 0x100 % 0x100, w % 0x100]
  }

  lemma WordOfDigits(w: u32)
    ensures Word(w / 0x100_0000, w / 0x1_0000 % 0x100, w / 0x100 % 0x100, w % 0x100) == w
  {
    var q, r := w / 0x100, w / 0x1_0000;
    assert w == q * 0x100 + w % 0x100;
    assert q == r * 0x100 + q % 0x100;
    assert r == w / 0x100_0000 * 0x100 + r % 0x100;
  }

  /** The bytes that a plain 4-byte store leaves on the (little-endian) host. */
  function LittleEndian(w: u32): (s: seq<byte>)
    ensures |s| == 4
  {
    [w % 0x100, w / 0x100 % 0x100, w / 0x1_0000 % 0x100, w / 0x100_0000]
  }

  function Bound(n: nat): nat {
    if n == 0 then 1 else if n == 1 then 0x100 else if n == 2 then 0x1_0000 else if n == 3 then 0x100_0000 else 0x1_0000_0000
  }

  /** The number that `n` bytes from `pos` on denote, most significant first. */
  function Number(s: seq<byte>, pos: nat, n: nat): (w: nat)
    requires pos + n <= |s| && n <= 4
    ensures w < Bound(n)
  {
    if n == 0 then 0 else 0x100 * Number(s, pos, n - 1) + s[pos + n - 1]
  }

  /** A 4-byte load followed by `ntohl`. */
  function BigWord(s: seq<byte>, pos: nat): (w: u32)
    requires pos + 4 <= |s|
  {
    Number(s, pos, 4)
  }

  lemma BigWordIs(s: seq<byte>, pos: nat)
    requires pos + 4 <= |s|
    ensures BigWord(s, pos) == Word(s[pos], s[pos + 1], s[pos + 2], s[pos + 3])
  {
    var b3: int, b2: int, b1: int := s[pos], s[pos + 1], s[pos + 2];
    assert Number(s, pos, 1) == b3;
    assert Number(s, pos, 2) == 0x100 * b3 + b2;
    assert Number(s, pos, 3) == 0x1_0000 * b3 + 0x100 * b2 + b1;
  }

  /** Network order: the most significant byte comes first. */
  lemma NetworkOrder(s: seq<byte>, pos: nat)
    requires pos + 4 <= |s|
    ensures var b3: int, b2: int, b1: int, b0: int := s[pos], s[pos + 1], s[pos + 2], s[pos + 3];
            BigWord(s, pos) == b3 * 0x100_0000 + b2 * 0x1_0000 + b1 * 0x100 + b0
  {
    BigWordIs(s, pos);
  }

  /** The same bytes denote the same word. */
  lemma SameWord(s: seq<byte>, i: nat, t: seq<byte>, j: nat)
    requires i + 4 <= |s| && j + 4 <= |t|
    requires s[i] == t[j] && s[i + 1] == t[j + 1] && s[i + 2] == t[j + 2] && s[i + 3] == t[j + 3]
    ensures BigWord(s, i) == BigWord(t, j)
  {
    BigWordIs(s, i);
    BigWordIs(t, j);
  }

  /** The number that `n` bytes from `pos` on denote, least significant first. */
  function HostNumber(s: seq<byte>, pos: nat, n: nat): (w: nat)
    requires pos + n <= |s| && n <= 4
    ensures w < Bound(n)
    decreases n
  {
    if n == 0 then 0 else s[pos] + 0x100 * HostNumber(s, pos + 1, n - 1)
  }

  /** A plain 4-byte load on the host. */
  function LittleWord(s: seq<byte>, pos: nat): (w: u32)
    requires pos + 4 <= |s|
  {
    HostNumber(s, pos, 4)
  }

  lemma LittleWordIs(s: seq<byte>, pos: nat)
    requires pos + 4 <= |s|
    ensures LittleWord(s, pos) == Word(s[pos + 3], s[pos + 2], s[pos + 1], s[pos])
  {
    var b0: int, b1: int, b2: int, b3: int := s[pos], s[pos + 1], s[pos + 2], s[pos + 3];
    assert HostNumber(s, pos + 3, 1) == b3;
    assert HostNumber(s, pos + 2, 2) == b2 + 0x100 * b3;
    assert HostNumber(s, pos + 1, 3) == b1 + 0x100 * b2 + 0x1_0000 * b3;
  }

  /** The host's order: the least significant byte comes first. */
  lemma HostOrder(s: seq<byte>, pos: nat)
    requires pos + 4 <= |s|
    ensures var b0: int, b1: int, b2: int, b3: int := s[pos], s[pos + 1], s[pos + 2], s[pos + 3];
            LittleWord(s, pos) == b3 * 0x100_0000 + b2 * 0x1_0000 + b1 * 0x100 + b0
  {
    LittleWordIs(s, pos);
  }

  /** The host's view of a word stored in network order. */
  function SwapBytes(w: u32): u32 {
    LittleWord(BigEndian(w), 0)
  }

  lemma SwappedIs(w: u32)
    ensures SwapBytes(w) == w % 0x100 * 0x100_0000 + w / 0x100 % 0x100 * 0x1_0000 + w / 0x1_0000 % 0x100 * 0x100
                            + w / 0x100_0000
  {
    LittleWordIs(BigEndian(w), 0);
  }

  lemma BigEndianInverse(w: u32, s: seq<byte>, pos: nat)
    requires pos + 4 <= |s| && s[pos..pos + 4] == BigEndian(w)
    ensures BigWord(s, pos) == w
  {
    WordOfDigits(w);
    BigWordIs(s, pos);
    assert s[pos] == s[pos..pos + 4][0];
    assert s[pos + 1] == s[pos..pos + 4][1];
    assert s[pos + 2] == s[pos..pos + 4][2];
    assert s[pos + 3] == s[pos..pos + 4][3];
  }

  lemma BigWordInverse(s: seq<byte>, pos: nat)
    requires pos + 4 <= |s|
    ensures BigEndian(BigWord(s, pos)) == s[pos..pos + 4]
  {
    BigWordIs(s, pos);
    DigitsOfWord(s[pos], s[pos + 1], s[pos + 2], s[pos + 3]);
  }

  lemma LittleEndianInverse(w: u32, s: seq<byte>, pos: nat)
    requires pos + 4 <= |s| && s[pos..pos + 4] == LittleEndian(w)
    ensures LittleWord(s, pos) == w
  {
    WordOfDigits(w);
    LittleWordIs(s, pos);
    assert s[pos] == s[pos..pos + 4][0];
    assert s[pos + 1] == s[pos..pos + 4][1];
    assert s[pos + 2] == s[pos..pos + 4][2];
    assert s[pos + 3] == s[pos..pos + 4][3];
  }

  /** A run of words, each in network order. */
  function BigEndianWords(ws: seq<u32>): (s: seq<byte>)
    ensures |s| == 4 * |ws|
  {
    if ws == [] then [] else BigEndianWords(ws[..|ws| - 1]) + BigEndian(ws[|ws| - 1])
  }

  /** A run of words as the host stores them. */
  function LittleEndianWords(ws: seq<u32>): (s: seq<byte>)
    ensures |s| == 4 * |ws|
  {
    if ws == [] then [] else LittleEndianWords(ws[..|ws| - 1]) + LittleEndian(ws[|ws| - 1])
  }

  lemma {:induction false} BigWordAt(ws: seq<u32>, tail: seq<byte>, i: nat)
    requires i < |ws|
    ensures BigWord(BigEndianWords(ws) + tail, 4 * i) == ws[i]
  {
    var front, last := ws[..|ws| - 1], BigEndian(ws[|ws| - 1]);
    assert BigEndianWords(ws) + tail == BigEndianWords(front) + (last + tail);
    if i == |ws| - 1 {
      var s := BigEndianWords(front) + (last + tail);
      assert s[4 * i..4 * i + 4] == last;
      BigEndianInverse(ws[i], s, 4 * i);
    } else {
      BigWordAt(front, last + tail, i);
    }
  }

  lemma {:induction false} LittleWordAt(ws: seq<u32>, tail: seq<byte>, i: nat)
    requires i < |ws|
    ensures LittleWord(LittleEndianWords(ws) + tail, 4 * i) == ws[i]
  {
    var front, last := ws[..|ws| - 1], LittleEndian(ws[|ws| - 1]);
    assert LittleEndianWords(ws) + tail == LittleEndianWords(front) + (last + tail);
    if i == |ws| - 1 {
      var s := LittleEndianWords(front) + (last + tail);
      assert s[4 * i..4 * i + 4] == last;
      LittleEndianInverse(ws[i], s, 4 * i);
    } else {
      LittleWordAt(front, last + tail, i);
    }
  }

  /** Words read one after the other from `pos` on. */
  function ReadWords(s: seq<byte>, pos: nat, n: nat): (ws: seq<u32>)
    requires pos + 4 * n <= |s|
    ensures |ws| == n
  {
    if n == 0 then [] else ReadWords(s, pos, n - 1) + [BigWord(s, pos + 4 * (n - 1))]
  }

  lemma {:induction false} ReadWordsAt(s: seq<byte>, pos: nat, n: nat, i: nat)
    requires pos + 4 * n <= |s| && i < n
    ensures ReadWords(s, pos, n)[i] == BigWord(s, pos + 4 * i)
  {
    if i < n - 1 {
      ReadWordsAt(s, pos, n - 1, i);
    }
  }

  /** What was read, written again, is the bytes that were read. */
  lemma {:induction false} ReadWordsInverse(s: seq<byte>, pos: nat, n: nat)
    requires pos + 4 * n <= |s|
    ensures BigEndianWords(ReadWords(s, pos, n)) == s[pos..pos + 4 * n]
  {
    if n > 0 {
      ReadWordsInverse(s, pos, n - 1);
      BigWordInverse(s, pos + 4 * (n - 1));
      var k := pos + 4 * (n - 1);
      assert ReadWords(s, pos, n)[..n - 1] == ReadWords(s, pos, n - 1);
      assert BigEndianWords(ReadWords(s, pos, n)) == s[pos..k] + s[k..k + 4];
      assert s[pos..k] + s[k..k + 4] == s[pos..k + 4];
    }
  }

  lemma {:induction false} ReadWordsFrom(s: seq<byte>, ws: seq<u32>)
    requires 4 * |ws| <= |s|
    requires forall i | 0 <= i < |ws| :: BigWord(s, 4 * i) == ws[i]
    ensures ReadWords(s, 0, |ws|) == ws
  {
    forall i | 0 <= i < |ws| ensures ReadWords(s, 0, |ws|)[i] == ws[i] {
      ReadWordsAt(s, 0, |ws|, i);
    }
  }

  /** `s` with `t` stored over it from `pos` on. */
  function Splice(s: seq<byte>, pos: nat, t: seq<byte>): (r: seq<byte>)
    requires pos + |t| <= |s|
    ensures |r| == |s|
  {
    s[..pos] + t + s[pos + |t|..]
  }

  lemma SpliceAppend(s: seq<byte>, pos: nat, a: seq<byte>, b: seq<byte>)
    requires pos + |a| + |b| <= |s|
    ensures Splice(Splice(s, pos, a), pos + |a|, b) == Splice(s, pos, a + b)
  {
  }

  /** `now` is `was` with the words `ws` stored over it in network order from `off` on. */
  ghost predicate Stores(now: seq<byte>, was: seq<byte>, off: nat, ws: seq<u32>) {
    && off + 4 * |ws| <= |was|
    && forall t {:trigger BigEndianWords(t)} | t == ws :: now == Splice(was, off, BigEndianWords(t))
  }

  lemma StoresNone(was: seq<byte>, off: nat)
    requires off <= |was|
    ensures Stores(was, was, off, [])
  {
    assert was == Splice(was, off, []);
  }

  lemma StoresIs(now: seq<byte>, was: seq<byte>, off: nat, ws: seq<u32>)
    requires Stores(now, was, off, ws)
    ensures now == Splice(was, off, BigEndianWords(ws))
  {
  }

  lemma OneMoreWord(ws: seq<u32>, w: u32)
    ensures BigEndianWords(ws + [w]) == BigEndianWords(ws) + BigEndian(w)
  {
    assert (ws + [w])[..|ws|] == ws;
  }

  /** Store one word in network order behind the words `ws` already stored at `off`. */
  method PutWord(buf: array<byte>, off: nat, pos: nat, w: u32, ghost was: seq<byte>, ghost ws: seq<u32>)
    returns (next: nat)
    requires pos == 4 * |ws| && off + pos + 4 <= buf.Length == |was| && Stores(buf[..], was, off, ws)
    modifies buf
    ensures next == pos + 4 && Stores(buf[..], was, off, ws + [w])
  {
    StoresIs(buf[..], was, off, ws);
    OneMoreWord(ws, w);
    next := PutBytes(buf, off, BigEndian(w), was, BigEndianWords(ws), pos);
  }

  /** `memcpy` of `data` to position `off + |done|`, where `done` is already stored at `off`. */
  method PutBytes(buf: array<byte>, off: nat, data: seq<byte>, ghost was: seq<byte>, ghost done: seq<byte>, pos: nat)
    returns (next: nat)
    requires pos == |done| && off + pos + |data| <= buf.Length == |was|
    requires buf[..] == Splice(was, off, done)
    modifies buf
    ensures next == pos + |data|
    ensures buf[..] == Splice(was, off, done + data)
  {
    ghost var before := buf[..];
    forall i | 0 <= i < |data| {
      buf[off + pos + i] := data[i];
    }
    assert buf[..] == Splice(before, off + pos, data);
    SpliceAppend(was, off, done, data);
    next := pos + |data|;
  }

  /** Load one word in network order from the message that starts at `off`. */
  method GetWord(buf: array<byte>, off: nat, pos: nat) returns (w: u32)
    requires off + pos + 4 <= buf.Length
    ensures w == BigWord(buf[off..], pos)
  {
    var at := off + pos;
    w := Word(buf[at], buf[at + 1], buf[at + 2], buf[at + 3]);
    BigWordIs(buf[off..], pos);
  }
}
