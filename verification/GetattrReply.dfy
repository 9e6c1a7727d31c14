/** The getattr reply of the data node: fifteen numbers, printed by one side and read by the other. */
module GetattrReply {
  import opened Bytes
  import opened Decimal
  import opened Sequences
  import opened Splitting

  datatype Stat = Stat(mode: int, ino: int, dev: int, rdev: int, nlink: int, uid: int, gid: int, size: int,
                       atime: int, mtime: int, ctime: int, blksize: int, blocks: int)

  function Values(st: Stat): seq<int> {
    [st.mode, st.ino, st.dev, st.rdev, st.nlink, st.uid, st.gid, st.size,
     st.atime, st.mtime, st.ctime, st.blksize, st.blocks]
  }

  function FromValues(v: seq<int>): Stat
    requires |v| == 13
  {
    Stat(v[0], v[1], v[2], v[3], v[4], v[5], v[6], v[7], v[8], v[9], v[10], v[11], v[12])
  }

  /** `%d` takes the low 32 bits of a wider value. */
  function Low(n: int): int {
    (n + 0x8000_0000) % 0x1_0000_0000 - 0x8000_0000
  }

  /** The one number of 32 bits that differs from the value by a multiple of 2 to the 32. */
  lemma LowIs(n: int)
    ensures -0x8000_0000 <= Low(n) < 0x8000_0000 && (n - Low(n)) % 0x1_0000_0000 == 0
  {
  }

  function Item(n: int): string { Clipped(Low(n)) }

  function Items(v: seq<int>): (s: seq<string>)
    ensures |s| == |v| && forall i | 0 <= i < |v| :: s[i] == Item(v[i])
  {
    seq(|v|, i requires 0 <= i < |v| => Item(v[i]))
  }

  /** Numbers joined by commas. */
  function Listed(v: seq<int>): string
    requires v != []
  {
    var f := Items(v);
    Terminated(f[..|v| - 1], ',') + f[|v| - 1]
  }

  /** The reply: two fields when `lstat` has failed, which prints -1 and the error number. */
  function Reply(res: int, errno: int, st: Stat): string {
    Listed(ReplyNumbers(res, errno, st))
  }

  function ReplyNumbers(res: int, errno: int, st: Stat): (v: seq<int>)
    ensures |v| == (if res == -1 then 2 else 15) && v[0] == res && v[1] == errno
  {
    if res == -1 then [-1, errno] else [res, errno] + Values(st)
  }

  /** What `my_getattr` makes of a reply: a negative error number, or attributes, or a null field. */
  datatype Outcome = Failed(ret: int) | Filled(st: Stat) | NullField

  function ReadFields(t: seq<string>): Outcome {
    if |t| < 2 then NullField
    else if Atoi(t[0]) == -1 then Failed(0 - Atoi(t[1]))
    else if |t| < 15 then NullField
    else Filled(FromValues(AtoiAll(t[2..15])))
  }

  // ---------------------------------------------------------------- the round trip

  /** A number arrives exactly when it prints in nine characters. */
  lemma ItemArrives(n: int)
    ensures Atoi(Item(n)) == n <==> Fits(n)
  {
    ClippedRoundTrip(Low(n));
  }

  lemma ItemSolid(n: int)
    ensures Solid(Item(n), IsComma)
  {
  }

  lemma TokensOfListed(v: seq<int>)
    requires v != []
    ensures Tokens(Listed(v), IsComma) == Items(v)
  {
    var f := Items(v);
    forall i | 0 <= i < |f| ensures Solid(f[i], IsComma) {
      ItemSolid(v[i]);
    }
    TokensOfTerminated(f[..|f| - 1], f[|f| - 1], ',', IsComma);
    LastApart(f);
  }

  lemma NumbersOfItems(v: seq<int>)
    ensures AtoiAll(Items(v)) == v <==> forall i | 0 <= i < |v| :: Fits(v[i])
  {
    forall i | 0 <= i < |v| ensures AtoiAll(Items(v))[i] == v[i] <==> Fits(v[i]) {
      ItemArrives(v[i]);
    }
  }

  lemma ValuesInverse(v: seq<int>, st: Stat)
    requires |v| == 13
    ensures FromValues(v) == st <==> v == Values(st)
  {
  }

  /** Reading the numbers of a successful reply. */
  lemma {:induction false} ReadFilled(v: seq<int>, w: seq<int>, st: Stat)
    requires |v| == 15 && v[0] == 0 && w == v[2..]
    ensures ReadFields(Items(v)) == Filled(st) <==> AtoiAll(Items(w)) == Values(st)
  {
    ItemArrives(0);
    var t := Items(v);
    assert t[2..15] == Items(w);
    ValuesInverse(AtoiAll(t[2..15]), st);
  }

  /**
   * The attributes of a successful call arrive exactly when all thirteen print in nine characters; a time
   * after September 2001 does not.
   */
  lemma {:induction false} AttributesArrive(errno: int, st: Stat)
    ensures ReadFields(Tokens(Reply(0, errno, st), IsComma)) == Filled(st)
            <==> forall i | 0 <= i < 13 :: Fits(Values(st)[i])
  {
    var v := [0, errno] + Values(st);
    TokensOfListed(v);
    ReadFilled(v, Values(st), st);
    NumbersOfItems(Values(st));
  }

  /** The reply of a failed call, and that of a successful one, written out. */
  lemma {:induction false} ReplyIs(res: int, errno: int, st: Stat)
    ensures res == -1 ==> Reply(res, errno, st) == Item(-1) + "," + Item(errno)
    ensures res != -1 ==>
              Reply(res, errno, st) ==
              Item(res) + "," + Item(errno) + "," + Item(st.mode) + "," + Item(st.ino) + "," + Item(st.dev) + "," +
              Item(st.rdev) + "," + Item(st.nlink) + "," + Item(st.uid) + "," + Item(st.gid) + "," +
              Item(st.size) + "," + Item(st.atime) + "," + Item(st.mtime) + "," + Item(st.ctime) + "," +
              Item(st.blksize) + "," + Item(st.blocks)
  {
    var f := Items(ReplyNumbers(res, errno, st));
    if res == -1 {
      OneField(f);
    } else {
      FieldsOfReply(f);
    }
  }

  lemma {:induction false} OneField(f: seq<string>)
    requires f != []
    ensures Terminated(f[..1], ',') == f[0] + ","
  {
    assert f[..0] == [] && "" + f[0] == f[0];
    TerminatedTakes(f, 0, ',');
  }

  lemma {:induction false} FieldsOfReply(f: seq<string>)
    requires |f| == 15
    ensures Terminated(f[..14], ',') ==
            f[0] + "," + f[1] + "," + f[2] + "," + f[3] + "," + f[4] + "," + f[5] + "," + f[6] + "," + f[7] + "," +
            f[8] + "," + f[9] + "," + f[10] + "," + f[11] + "," + f[12] + "," + f[13] + ","
  {
    assert f[..0] == [] && "" + f[0] == f[0];
    TerminatedThree(f, 0, "");
    TerminatedThree(f, 3, Terminated(f[..3], ','));
    TerminatedThree(f, 6, Terminated(f[..6], ','));
    TerminatedThree(f, 9, Terminated(f[..9], ','));
    TerminatedTakes(f, 12, ',');
    TerminatedTakes(f, 13, ',');
  }

  /** What the fields of a reply are read as, one by one. */
  lemma {:induction false} ReadIs(t: seq<string>)
    ensures |t| < 2 ==> ReadFields(t) == NullField
    ensures |t| >= 2 && Atoi(t[0]) == -1 ==> ReadFields(t) == Failed(-Atoi(t[1]))
    ensures 2 <= |t| < 15 && Atoi(t[0]) != -1 ==> ReadFields(t) == NullField
    ensures |t| >= 15 && Atoi(t[0]) != -1 ==>
              ReadFields(t) == Filled(Stat(Atoi(t[2]), Atoi(t[3]), Atoi(t[4]), Atoi(t[5]), Atoi(t[6]), Atoi(t[7]),
                                           Atoi(t[8]), Atoi(t[9]), Atoi(t[10]), Atoi(t[11]), Atoi(t[12]),
                                           Atoi(t[13]), Atoi(t[14])))
  {
    if |t| >= 15 {
      var v := AtoiAll(t[2..15]);
      assert forall i | 0 <= i < 13 :: v[i] == Atoi(t[2 + i]);
    }
  }

  /** The error of a failed call arrives exactly when its number prints in nine characters. */
  lemma {:induction false} ErrorArrives(errno: int, st: Stat)
    ensures ReadFields(Tokens(Reply(-1, errno, st), IsComma)) == Failed(0 - errno) <==> Fits(errno)
  {
    var t := Items([-1, errno]);
    TokensOfListed([-1, errno]);
    ItemArrives(errno);
    ItemArrives(-1);
    ReadIs(t);
  }

  // ---------------------------------------------------------------- the code

  /** The first `k` numbers have been printed. */
  ghost predicate Holding(buf: string, v: seq<int>, k: nat) {
    k <= |v| && forall g {:trigger Terminated(g, ',')} | g == Items(v)[..k] :: buf == Terminated(g, ',')
  }

  /** One `snprintf` and two `strcat`s. */
  method Append(buf: string, n: int, ghost v: seq<int>, ghost k: nat) returns (more: string)
    requires k < |v| && n == v[k] && Holding(buf, v, k)
    ensures Holding(more, v, k + 1)
  {
    assert buf == Terminated(Items(v)[..k], ',');
    TerminatedTakes(Items(v), k, ',');
    more := buf + Item(n) + ",";
  }

  /** The last number, without a comma. */
  method Close(buf: string, n: int, ghost v: seq<int>) returns (all: string)
    requires v != [] && n == v[|v| - 1] && Holding(buf, v, |v| - 1)
    ensures all == Listed(v)
  {
    assert buf == Terminated(Items(v)[..|v| - 1], ',');
    all := buf + Item(n);
  }

  lemma NothingPrinted(v: seq<int>)
    ensures Holding("", v, 0)
  {
    assert Items(v)[..0] == [];
  }

  method SendResponseGetattr(res: int, errno: int, st: Stat) returns (buf: string)
    ensures buf == Reply(res, errno, st)
  {
    ghost var v := ReplyNumbers(res, errno, st);
    NothingPrinted(v);
    buf := Append("", res, v, 0);
    if res == -1 {
      buf := Close(buf, errno, v);
    } else {
      buf := Append(buf, errno, v, 1);
      buf := PrintStat(buf, st, v);
    }
  }

  method PrintStat(was: string, st: Stat, ghost v: seq<int>) returns (buf: string)
    requires |v| == 15 && Holding(was, v, 2)
    requires v[2] == st.mode && v[3] == st.ino && v[4] == st.dev && v[5] == st.rdev && v[6] == st.nlink
    requires v[7] == st.uid && v[8] == st.gid && v[9] == st.size && v[10] == st.atime && v[11] == st.mtime
    requires v[12] == st.ctime && v[13] == st.blksize && v[14] == st.blocks
    ensures buf == Listed(v)
  {
    buf := PrintFile(was, st, v);
    buf := PrintTimes(buf, st, v);
    buf := Append(buf, st.blksize, v, 13);
    buf := Close(buf, st.blocks, v);
  }

  method PrintTimes(was: string, st: Stat, ghost v: seq<int>) returns (buf: string)
    requires |v| == 15 && Holding(was, v, 9)
    requires v[9] == st.size && v[10] == st.atime && v[11] == st.mtime && v[12] == st.ctime
    ensures Holding(buf, v, 13)
  {
    buf := Append(was, st.size, v, 9);
    buf := Append(buf, st.atime, v, 10);
    buf := Append(buf, st.mtime, v, 11);
    buf := Append(buf, st.ctime, v, 12);
  }

  method PrintFile(was: string, st: Stat, ghost v: seq<int>) returns (buf: string)
    requires |v| == 15 && Holding(was, v, 2)
    requires v[2] == st.mode && v[3] == st.ino && v[4] == st.dev && v[5] == st.rdev && v[6] == st.nlink
    requires v[7] == st.uid && v[8] == st.gid
    ensures Holding(buf, v, 9)
  {
    buf := Append(was, st.mode, v, 2);
    buf := Append(buf, st.ino, v, 3);
    buf := Append(buf, st.dev, v, 4);
    buf := Append(buf, st.rdev, v, 5);
    buf := Append(buf, st.nlink, v, 6);
    buf := Append(buf, st.uid, v, 7);
    buf := Append(buf, st.gid, v, 8);
  }

  /** The reading half of `my_getattr`. */
  method MyGetattr(buf: string) returns (o: Outcome)
    ensures o == ReadFields(Tokens(buf, IsComma))
  {
    ghost var t := Tokens(buf, IsComma);
    assert buf[0..] == buf && t[0..] == t;
    o := ReadReply(buf, t);
  }

  method ReadReply(buf: string, ghost t: seq<string>) returns (o: Outcome)
    requires Holds(buf, 0, t, 0)
    ensures o == ReadFields(t)
  {
    var start, pos := NextFields(buf, 0, 2, t, 0);
    if start.None? { return NullField; }
    if Atoi(start.value[0]) == -1 {
      return Failed(0 - Atoi(start.value[1]));
    }
    var rest;
    rest, pos := NextFields(buf, pos, 13, t, 2);
    if rest.None? { return NullField; }
    o := Filled(FromValues(AtoiAll(rest.value)));
  }
}
