/** Rebuilding the namespace from its text: the records of the lines, hung one after the other. */
module NamespaceRecovery {
  import opened Bytes
  import opened Decimal
  import opened NamespaceSpec
  import opened NamespaceText
  import opened Namespace
  import opened Sequences
  import opened Splitting

  // ---------------------------------------------------------------- reading

  /** One record of the file. */
  method ParseRecord(line: string) returns (r: Option<Data>)
    ensures r == Record(line)
  {
    ghost var t := Tokens(line, IsComma);
    assert line[0..] == line && t[0..] == t;
    r := ParseFields(line, t);
  }

  method ParseFields(line: string, ghost t: seq<string>) returns (r: Option<Data>)
    requires Holds(line, 0, t, 0)
    ensures r == FromFields(t)
  {
    var start, pos := NextFields(line, 0, 3, t, 0);
    if start.None? { return None; }
    var dname, loc, dflag, dsync;
    dname, pos := NextFields(line, pos, REP, t, 3);
    if dname.None? { return None; }
    loc, pos := NextField(line, pos, t, 8);
    if loc.None? { return None; }
    dflag, pos := NextField(line, pos, t, 9);
    if dflag.None? { return None; }
    dsync, pos := NextFields(line, pos, REP, t, 10);
    if dsync.None? { return None; }
    r := Some(Data(Atoi(start.value[0]), Atoi(start.value[1]), start.value[2], dname.value, loc.value,
                   Atoi(dflag.value), AtoiAll(dsync.value)));
  }

  // ---------------------------------------------------------------- recovery

  // The proofs about the loop hold for any reader of records and any way to hang them.
  type Reader = string -> Option<Data>

  /** Stands for the point of a proof where the lines read are looked at. */
  predicate Looking(lines: seq<string>) { true }

  /** What recovery makes of the lines. */
  ghost predicate Recovers(read: Reader, hang: Hanger, lines: seq<string>, nodeno: int, e: Option<Tree>) {
    forall l {:trigger Looking(l)} | l == lines ::
      var records := Collected(read, l);
      e == if records.None? || l == [] then None else Replay(hang, records.value, |l|, nodeno)
  }

  lemma RecoversIs(lines: seq<string>, nodeno: int, e: Option<Tree>)
    requires Recovers(Record, HungAt, lines, nodeno, e)
    ensures RecoveredLines(lines, nodeno) == e
  {
    assert Looking(lines);
    var records := Records(lines);
    if records.Some? && lines != [] {
      assert RebuiltTo(records.value, |lines|, nodeno) == Replay(HungAt, records.value, |lines|, nodeno);
    }
  }

  lemma NothingRecovered(read: Reader, hang: Hanger, nodeno: int)
    ensures Recovers(read, hang, [], nodeno, None)
  {
  }

  /** A step that fails makes the whole recovery fail. */
  lemma RecoveryFails(read: Reader, hang: Hanger, lines: seq<string>, nodeno: int, n: nat)
    requires 1 <= n <= |lines|
    requires var records := Collected(read, lines[..n]);
             records.None? || Replay(hang, records.value, n, nodeno).None?
    ensures Recovers(read, hang, lines, nodeno, None)
  {
    CollectedPrefix(read, lines, n);
    if Collected(read, lines).Some? {
      var a, b := Collected(read, lines[..n]).value, Collected(read, lines).value;
      ReplayPrefix(hang, a, b, n, nodeno);
      ReplayFails(hang, b, n, |b|, nodeno);
    }
  }

  /** The records of the lines read so far are `r`, and `d` is the tree built from them. */
  ghost predicate Built(read: Reader, hang: Hanger, lines: seq<string>, r: Tree, nodeno: int, d: Tree, no: int) {
    && r != [] && |r| <= |lines| && no == nodeno + |r| - 1
    && forall l {:trigger Looking(l)} | l == lines ::
         Collected(read, l[..|r|]) == Some(r) && Replay(hang, r, |r|, nodeno) == Some(d)
  }

  lemma BuiltFirst(read: Reader, hang: Hanger, lines: seq<string>, nodeno: int, x: Option<Data>)
    requires lines != [] && x == read(lines[0])
    ensures x.None? ==> Recovers(read, hang, lines, nodeno, None)
    ensures x.Some? ==> Built(read, hang, lines, [x.value], nodeno, [x.value], nodeno)
  {
    assert lines[..0] == [];
    CollectedGrows(read, lines, 0, []);
    if x.Some? {
      assert [] + [x.value] == [x.value];
      assert Collected(read, lines[..|[x.value]|]) == Some([x.value]);
      assert Replay(hang, [x.value], 1, nodeno) == Some([x.value]);
    } else {
      RecoveryFails(read, hang, lines, nodeno, 1);
    }
  }

  lemma BuiltBad(read: Reader, hang: Hanger, lines: seq<string>, r: Tree, nodeno: int, d: Tree, no: int)
    requires Built(read, hang, lines, r, nodeno, d, no) && |r| < |lines| && read(lines[|r|]).None?
    ensures Recovers(read, hang, lines, nodeno, None)
  {
    assert Looking(lines);
    CollectedGrows(read, lines, |r|, r);
    RecoveryFails(read, hang, lines, nodeno, |r| + 1);
  }

  lemma BuiltNext(read: Reader, hang: Hanger, lines: seq<string>, r: Tree, nodeno: int, d: Tree, no: int,
                  x: Data, e: Option<Tree>)
    requires Built(read, hang, lines, r, nodeno, d, no) && |r| < |lines| && read(lines[|r|]) == Some(x)
    requires e == hang(d, x, no)
    ensures e.None? ==> Recovers(read, hang, lines, nodeno, None)
    ensures e.Some? ==> Built(read, hang, lines, r + [x], nodeno, e.value, no + 1)
  {
    assert Looking(lines);
    CollectedGrows(read, lines, |r|, r);
    ReplayGrows(hang, r, x, nodeno, d);
    if e.None? {
      RecoveryFails(read, hang, lines, nodeno, |r| + 1);
    }
  }

  lemma BuiltAll(read: Reader, hang: Hanger, lines: seq<string>, r: Tree, nodeno: int, d: Tree, no: int)
    requires Built(read, hang, lines, r, nodeno, d, no) && |r| == |lines|
    ensures Recovers(read, hang, lines, nodeno, Some(d))
  {
    assert Looking(lines);
    assert lines[..|r|] == lines;
  }

  /** One word read: what is left are the lines from the `n`-th on. */
  ghost predicate Word(text: string, word: Option<string>, pos: nat, lines: seq<string>, n: nat) {
    && pos <= |text| && n <= |lines|
    && (word.None? <==> n == |lines|)
    && (word.Some? ==> word.value == lines[n] && Leaves(text, pos, lines, n + 1))
  }

  ghost predicate Leaves(text: string, pos: nat, lines: seq<string>, n: nat)
    requires pos <= |text| && n <= |lines|
  {
    forall u {:trigger Tokens(u, IsSpace)} | u == text[pos..] :: Tokens(u, IsSpace) == lines[n..]
  }

  method NextWord(text: string, pos: nat, ghost lines: seq<string>, ghost n: nat)
    returns (word: Option<string>, next: nat)
    requires pos <= |text| && n <= |lines| && Leaves(text, pos, lines, n)
    ensures Word(text, word, next, lines, n)
  {
    assert Tokens(text[pos..], IsSpace) == lines[n..];
    word, next := NextToken(text, pos, IsSpace);
    if word.Some? {
      HeadAndTail(lines, n, word.value, Tokens(text[next..], IsSpace));
    } else {
      next := pos;
    }
  }

  /** One line added to the tree; `ok` is false when the process ends on a null pointer. */
  method RecoverLine(space: Space, line: string, ghost lines: seq<string>, ghost r: Tree, ghost nodeno: int)
    returns (ok: bool, ghost r': Tree)
    requires space.Valid() && |r| < |lines| && line == lines[|r|]
    requires Built(Record, HungAt, lines, r, nodeno, space.Contents(), space.nodeno)
    modifies space, space.repr
    ensures fresh(space.repr - old(space.repr))
    ensures !ok ==> Recovers(Record, HungAt, lines, nodeno, None)
    ensures ok ==> space.Valid() && |r'| == |r| + 1
                   && Built(Record, HungAt, lines, r', nodeno, space.Contents(), space.nodeno)
  {
    ghost var d, no := space.Contents(), space.nodeno;
    var data := ParseRecord(line);
    if data.None? {
      BuiltBad(Record, HungAt, lines, r, nodeno, d, no);
      return false, r;
    }
    ok := AddRecord(space, data.value);
    BuiltNext(Record, HungAt, lines, r, nodeno, d, no, data.value, HungAt(d, data.value, no));
    r' := r + [data.value];
  }

  method AddRecord(space: Space, x: Data) returns (ok: bool)
    requires space.Valid()
    modifies space, space.repr
    ensures space.Valid() && fresh(space.repr - old(space.repr))
    ensures var e := HungAt(old(space.Contents()), x, old(space.nodeno));
            ok == e.Some? && (ok ==> space.Contents() == e.value && space.nodeno == old(space.nodeno) + 1)
  {
    ok := space.AddNode(x.loc, x);
  }

  /** `recoverlist`; null stands for a null head or for a process that has ended on a null pointer. */
  method RecoverList(text: string, nodeno: int) returns (space: Space?)
    ensures space == null <==> Recovered(text, nodeno).None?
    ensures space != null ==> space.Valid() && Recovered(text, nodeno) == Some(space.Contents())
    ensures space != null ==> space.nodeno == nodeno + |Tokens(text, IsSpace)| - 1
  {
    ghost var lines := Tokens(text, IsSpace);
    assert text[0..] == text && lines[0..] == lines;
    space := RecoverLines(text, nodeno, lines);
    RecoversIs(lines, nodeno, if space == null then None else Some(space.Contents()));
  }

  method RecoverLines(text: string, nodeno: int, ghost lines: seq<string>) returns (space: Space?)
    requires Leaves(text, 0, lines, 0)
    ensures space == null ==> Recovers(Record, HungAt, lines, nodeno, None)
    ensures space != null ==> space.Valid() && Recovers(Record, HungAt, lines, nodeno, Some(space.Contents()))
    ensures space != null ==> space.nodeno == nodeno + |lines| - 1
  {
    var word, pos := NextWord(text, 0, lines, 0);
    if word.None? {
      NothingRecovered(Record, HungAt, nodeno);
      return null;
    }
    var data := ParseRecord(word.value);
    BuiltFirst(Record, HungAt, lines, nodeno, data);
    if data.None? {
      return null;
    }
    space := new Space(data.value, nodeno);
    ghost var r := [data.value];
    word, pos := NextWord(text, pos, lines, 1);
    var ok := RecoverRest(text, pos, word, space, lines, r, nodeno);
    if !ok {
      return null;
    }
  }

  /** The loop over the lines behind the first. */
  method RecoverRest(text: string, start: nat, first: Option<string>, space: Space,
                     ghost lines: seq<string>, ghost r: Tree, ghost nodeno: int)
    returns (ok: bool)
    requires Word(text, first, start, lines, |r|)
    requires space.Valid() && Built(Record, HungAt, lines, r, nodeno, space.Contents(), space.nodeno)
    modifies space, space.repr
    ensures !ok ==> Recovers(Record, HungAt, lines, nodeno, None)
    ensures ok ==> space.Valid() && Recovers(Record, HungAt, lines, nodeno, Some(space.Contents()))
    ensures ok ==> space.nodeno == nodeno + |lines| - 1
  {
    var word, pos := first, start;
    ghost var done := r;
    ok := true;
    while word.Some?
      invariant Word(text, word, pos, lines, |done|)
      invariant ok && space.Valid() && fresh(space.repr - old(space.repr))
      invariant Built(Record, HungAt, lines, done, nodeno, space.Contents(), space.nodeno)
      decreases |lines| - |done|
    {
      ok, done := RecoverLine(space, word.value, lines, done, nodeno);
      if !ok {
        return;
      }
      word, pos := NextWord(text, pos, lines, |done|);
    }
    BuiltAll(Record, HungAt, lines, done, nodeno, space.Contents(), space.nodeno);
  }
}
