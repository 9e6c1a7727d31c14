/** The text form of the namespace: one line a node, written by `recursestore` and read by `recoverlist`. */
module NamespaceText {
  import opened Bytes
  import opened Decimal
  import opened NamespaceSpec
  import opened Splitting

  // ---------------------------------------------------------------- one record

  predicate Shaped(d: Data) { |d.dname| == REP && |d.dsync| == REP }

  function ClippedAll(ns: seq<int>): (ss: seq<string>)
    ensures |ss| == |ns| && forall i | 0 <= i < |ns| :: ss[i] == Clipped(ns[i])
  {
    seq(|ns|, i requires 0 <= i < |ns| => Clipped(ns[i]))
  }

  function Fields(d: Data): seq<string> {
    [Clipped(d.nno), Clipped(d.pno), d.fname] + d.dname + [d.loc, Clipped(d.dflag)] + ClippedAll(d.dsync)
  }

  function Line(d: Data): string {
    Terminated(Fields(d), ',') + "ENDD"
  }

  /** The record in the fields of a line; a missing field is a null argument to `atoi` or `strcpy`. */
  function FromFields(t: seq<string>): (r: Option<Data>)
    ensures r.Some? ==> Shaped(r.value)
  {
    if |t| < 5 + 2 * REP then None
    else Some(Data(Atoi(t[0]), Atoi(t[1]), t[2], t[3..3 + REP], t[3 + REP], Atoi(t[4 + REP]),
                   AtoiAll(t[5 + REP..5 + 2 * REP])))
  }

  function Record(line: string): (r: Option<Data>)
    ensures r.Some? ==> Shaped(r.value)
  {
    FromFields(Tokens(line, IsComma))
  }

  /** The text fields of a record can stand in a line. */
  predicate Writable(s: string) {
    Solid(s, IsComma) && Solid(s, IsSpace)
  }

  ghost predicate PlainText(d: Data) {
    Shaped(d) && Writable(d.fname) && Writable(d.loc) && forall s | s in d.dname :: Writable(s)
  }

  ghost predicate NumbersFit(d: Data) {
    Fits(d.nno) && Fits(d.pno) && Fits(d.dflag) && forall n | n in d.dsync :: Fits(n)
  }

  lemma ClippedWritable(n: int)
    ensures Writable(Clipped(n))
  {
  }

  lemma FieldsWritable(d: Data, f: string)
    requires PlainText(d) && f in Fields(d)
    ensures Writable(f)
  {
    ClippedWritable(d.nno);
    ClippedWritable(d.pno);
    ClippedWritable(d.dflag);
    if f in ClippedAll(d.dsync) {
      var i :| 0 <= i < REP && ClippedAll(d.dsync)[i] == f;
      ClippedWritable(d.dsync[i]);
    }
  }

  lemma TokensOfLine(d: Data)
    requires PlainText(d)
    ensures Tokens(Line(d), IsComma) == Fields(d) + ["ENDD"]
  {
    forall i | 0 <= i < |Fields(d)| ensures Solid(Fields(d)[i], IsComma) {
      FieldsWritable(d, Fields(d)[i]);
    }
    TokensOfTerminated(Fields(d), "ENDD", ',', IsComma);
  }

  /** The fields of a line in their places. */
  lemma FieldPlaces(d: Data)
    requires Shaped(d)
    ensures var t := Fields(d) + ["ENDD"];
            && |t| == 16 && t[0] == Clipped(d.nno) && t[1] == Clipped(d.pno) && t[2] == d.fname
            && t[3..8] == d.dname && t[8] == d.loc && t[9] == Clipped(d.dflag) && t[10..15] == ClippedAll(d.dsync)
  {
  }

  /** The line, written out. */
  lemma {:induction false} LineIs(d: Data)
    requires Shaped(d)
    ensures Line(d) ==
            Clipped(d.nno) + "," + Clipped(d.pno) + "," + d.fname + "," +
            d.dname[0] + "," + d.dname[1] + "," + d.dname[2] + "," + d.dname[3] + "," + d.dname[4] + "," +
            d.loc + "," + Clipped(d.dflag) + "," +
            Clipped(d.dsync[0]) + "," + Clipped(d.dsync[1]) + "," + Clipped(d.dsync[2]) + "," +
            Clipped(d.dsync[3]) + "," + Clipped(d.dsync[4]) + "," + "ENDD"
  {
    FieldsAre(d);
    FifteenTerminated(Fields(d));
  }

  lemma {:induction false} FieldsAre(d: Data)
    requires Shaped(d)
    ensures Fields(d) == [Clipped(d.nno), Clipped(d.pno), d.fname,
                          d.dname[0], d.dname[1], d.dname[2], d.dname[3], d.dname[4], d.loc, Clipped(d.dflag),
                          Clipped(d.dsync[0]), Clipped(d.dsync[1]), Clipped(d.dsync[2]), Clipped(d.dsync[3]),
                          Clipped(d.dsync[4])]
  {
    var names, sync := d.dname, ClippedAll(d.dsync);
    assert names == [names[0], names[1], names[2], names[3], names[4]];
    assert sync == [sync[0], sync[1], sync[2], sync[3], sync[4]];
  }

  lemma {:induction false} FifteenTerminated(f: seq<string>)
    requires |f| == 15
    ensures Terminated(f, ',') ==
            f[0] + "," + f[1] + "," + f[2] + "," + f[3] + "," + f[4] + "," + f[5] + "," + f[6] + "," + f[7] + "," +
            f[8] + "," + f[9] + "," + f[10] + "," + f[11] + "," + f[12] + "," + f[13] + "," + f[14] + ","
  {
    NineTerminated(f);
    TerminatedThree(f, 9, Terminated(f[..9], ','));
    TerminatedThree(f, 12, Terminated(f[..12], ','));
    assert f[..15] == f;
  }

  lemma {:induction false} NineTerminated(f: seq<string>)
    requires |f| >= 9
    ensures Terminated(f[..9], ',') ==
            f[0] + "," + f[1] + "," + f[2] + "," + f[3] + "," + f[4] + "," + f[5] + "," + f[6] + "," + f[7] + "," +
            f[8] + ","
  {
    assert f[..0] == [] && "" + f[0] == f[0];
    TerminatedThree(f, 0, "");
    TerminatedThree(f, 3, Terminated(f[..3], ','));
    TerminatedThree(f, 6, Terminated(f[..6], ','));
  }

  /** The text is the lines one after the other, each with a newline behind it. */
  lemma {:induction false} TextGrows(ds: seq<Data>, d: Data)
    ensures Text([]) == "" && Text([d] + ds) == Line(d) + "\n" + Text(ds)
  {
    MappedJoins(Line, [d], ds);
    assert Lines([d]) == [Line(d)];
    TerminatedHead(Line(d), Lines(ds), '\n');
  }

  lemma NumbersReadBack(ns: seq<int>)
    ensures AtoiAll(ClippedAll(ns)) == ns <==> forall n | n in ns :: Fits(n)
  {
    forall i | 0 <= i < |ns| ensures Atoi(Clipped(ns[i])) == ns[i] <==> Fits(ns[i]) {
      ClippedRoundTrip(ns[i]);
    }
    if AtoiAll(ClippedAll(ns)) == ns {
      forall n | n in ns ensures Fits(n) {
        var i :| 0 <= i < |ns| && ns[i] == n;
        assert AtoiAll(ClippedAll(ns))[i] == ns[i];
      }
    }
  }

  /** A record is read back from its line exactly when its numbers print in nine characters. */
  lemma RecordRoundTrip(d: Data)
    requires PlainText(d)
    ensures Record(Line(d)) == Some(d) <==> NumbersFit(d)
  {
    TokensOfLine(d);
    FieldPlaces(d);
    ClippedRoundTrip(d.nno);
    ClippedRoundTrip(d.pno);
    ClippedRoundTrip(d.dflag);
    NumbersReadBack(d.dsync);
  }

  // ---------------------------------------------------------------- the file

  function Mapped<A, B>(f: A -> B, s: seq<A>): (t: seq<B>)
    ensures |t| == |s| && forall i | 0 <= i < |s| :: t[i] == f(s[i])
  {
    seq(|s|, i requires 0 <= i < |s| => f(s[i]))
  }

  lemma MappedJoins<A, B>(f: A -> B, s: seq<A>, t: seq<A>)
    ensures Mapped(f, s + t) == Mapped(f, s) + Mapped(f, t)
  {
  }

  function Lines(ds: seq<Data>): (ls: seq<string>)
    ensures |ls| == |ds| && forall i | 0 <= i < |ds| :: ls[i] == Line(ds[i])
  {
    Mapped(Line, ds)
  }

  function Text(ds: seq<Data>): string {
    Terminated(Lines(ds), '\n')
  }

  /** The text of the lines from the `k`-th on. */
  function TextFrom(lines: seq<string>, k: nat): string
    requires k <= |lines|
    decreases |lines| - k
  {
    if k == |lines| then "" else lines[k] + "\n" + TextFrom(lines, k + 1)
  }

  lemma {:induction false} TextFromIs(lines: seq<string>, k: nat)
    requires k <= |lines|
    ensures TextFrom(lines, k) == Terminated(lines[k..], '\n')
    decreases |lines| - k
  {
    if k < |lines| {
      TextFromIs(lines, k + 1);
      assert lines[k..][1..] == lines[k + 1..];
    }
  }

  lemma TextIs(ds: seq<Data>)
    ensures TextFrom(Lines(ds), 0) == Text(ds)
  {
    TextFromIs(Lines(ds), 0);
    assert Lines(ds)[0..] == Lines(ds);
  }

  function Records(lines: seq<string>): Option<seq<Data>> {
    Collected(Record, lines)
  }

  lemma LineSolid(d: Data)
    requires PlainText(d)
    ensures Solid(Line(d), IsSpace)
  {
    forall i | 0 <= i < |Fields(d)| ensures Solid(Fields(d)[i], IsSpace) {
      FieldsWritable(d, Fields(d)[i]);
    }
    TerminatedSolid(Fields(d), ',', IsSpace);
  }

  lemma TokensOfText(ds: seq<Data>)
    requires forall d | d in ds :: PlainText(d)
    ensures Tokens(Text(ds), IsSpace) == Lines(ds)
  {
    forall i | 0 <= i < |ds| ensures Solid(Lines(ds)[i], IsSpace) {
      LineSolid(ds[i]);
    }
    TokensOfTerminated(Lines(ds), "", '\n', IsSpace);
    assert Text(ds) + "" == Text(ds);
  }

  /** The records of a file are read back exactly when all their numbers print in nine characters. */
  lemma FileRoundTrip(ds: seq<Data>)
    requires forall d | d in ds :: PlainText(d)
    ensures Records(Tokens(Text(ds), IsSpace)) == Some(ds) <==> forall d | d in ds :: NumbersFit(d)
  {
    TokensOfText(ds);
    CollectedAre(Record, Lines(ds), ds);
    forall i | 0 <= i < |ds| ensures Record(Lines(ds)[i]) == Some(ds[i]) <==> NumbersFit(ds[i]) {
      RecordRoundTrip(ds[i]);
    }
    assert (forall d | d in ds :: NumbersFit(d)) <==> forall i | 0 <= i < |ds| :: NumbersFit(ds[i]);
  }

  /** `recoverlist` on these lines, in a process whose node counter stands at `nodeno`. */
  function RecoveredLines(lines: seq<string>, nodeno: int): Option<Tree> {
    var records := Records(lines);
    if records.None? then None else Rebuilt(records.value, nodeno)
  }

  function Recovered(text: string, nodeno: int): Option<Tree> {
    RecoveredLines(Tokens(text, IsSpace), nodeno)
  }

  /** What recovery makes of a dump is what a replay makes of the tree. */
  lemma RecoveredIsRebuilt(d: Tree, nodeno: int)
    requires forall x | x in d :: PlainText(x) && NumbersFit(x)
    ensures Recovered(Text(d), nodeno) == Rebuilt(d, nodeno)
  {
    FileRoundTrip(d);
  }

  /** Dump and recovery: what comes back is the tree, renumbered. */
  lemma DumpRecovers(d: Tree, nodeno: int)
    requires Replayable(d) && forall x | x in d :: PlainText(x) && NumbersFit(x)
    ensures Recovered(Text(d), nodeno) == Some(Renumbered(d, nodeno))
  {
    RecoveredIsRebuilt(d, nodeno);
    RebuildsTheTree(d, nodeno);
  }
}
