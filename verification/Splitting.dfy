/** Text cut at separators, as `strtok` and `fscanf("%s")` do, and text put together for them. */
module Splitting {
  import opened Bytes
  import opened Sequences

  predicate IsComma(c: char) { c == ',' }

  predicate IsSpace(c: char) { c == ' ' || '\t' <= c <= '\r' }

  /** How many characters at the front are separators (`hit`) or are none. */
  function Run(s: string, sep: char -> bool, hit: bool): (n: nat)
    ensures n <= |s| && (forall i | 0 <= i < n :: sep(s[i]) == hit) && (n < |s| ==> sep(s[n]) != hit)
  {
    if s == "" || sep(s[0]) != hit then 0 else 1 + Run(s[1..], sep, hit)
  }

  /** What `strtok` returns one after the other, or `fscanf("%s")`: empty fields are skipped. */
  function Tokens(s: string, sep: char -> bool): seq<string>
    decreases |s|
  {
    var t := s[Run(s, sep, true)..];
    if t == "" then [] else
    var n := Run(t, sep, false);
    [t[..n]] + Tokens(t[n..], sep)
  }

  function Terminated(fields: seq<string>, c: char): string {
    if fields == [] then "" else fields[0] + [c] + Terminated(fields[1..], c)
  }

  /** The text can stand as one field. */
  predicate Solid(f: string, sep: char -> bool) {
    f != "" && forall i | 0 <= i < |f| :: !sep(f[i])
  }

  lemma {:induction false} RunIs(s: string, sep: char -> bool, hit: bool, n: nat)
    requires n <= |s| && (forall i | 0 <= i < n :: sep(s[i]) == hit) && (n < |s| ==> sep(s[n]) != hit)
    ensures Run(s, sep, hit) == n
  {
  }

  lemma {:induction false} TokensSkip(c: char, s: string, sep: char -> bool)
    requires sep(c)
    ensures Tokens([c] + s, sep) == Tokens(s, sep)
  {
    var t := [c] + s;
    assert t[1..] == s;
    assert t[Run(t, sep, true)..] == s[Run(s, sep, true)..];
  }

  lemma {:induction false} TokensOne(f: string, rest: string, sep: char -> bool)
    requires Solid(f, sep) && (rest == "" || sep(rest[0]))
    ensures Tokens(f + rest, sep) == [f] + Tokens(rest, sep)
  {
    var s := f + rest;
    assert s[0] == f[0];
    RunIs(s, sep, true, 0);
    forall i | 0 <= i < |f| ensures !sep(s[i]) {
      assert s[i] == f[i];
    }
    RunIs(s, sep, false, |f|);
    assert s[0..] == s && s[..|f|] == f && s[|f|..] == rest;
  }

  lemma {:induction false} TokensStep(f: string, c: char, rest: string, sep: char -> bool)
    requires Solid(f, sep) && sep(c)
    ensures Tokens(f + ([c] + rest), sep) == [f] + Tokens(rest, sep)
  {
    TokensSkip(c, rest, sep);
    TokensOne(f, [c] + rest, sep);
  }

  lemma {:induction false} TerminatedStep(fields: seq<string>, c: char, last: string)
    requires fields != []
    ensures Terminated(fields, c) + last == fields[0] + ([c] + (Terminated(fields[1..], c) + last))
  {
  }

  lemma {:induction false} TokensOfLast(last: string, sep: char -> bool)
    requires last == "" || Solid(last, sep)
    ensures Tokens(last, sep) == if last == "" then [] else [last]
  {
    if last != "" {
      TokensOne(last, "", sep);
      assert last + "" == last;
    }
  }

  /** Fields that are neither empty nor contain a separator are read back as they were written. */
  lemma {:induction false} TokensOfTerminated(fields: seq<string>, last: string, c: char, sep: char -> bool)
    requires sep(c) && (forall i | 0 <= i < |fields| :: Solid(fields[i], sep)) && (last == "" || Solid(last, sep))
    ensures Tokens(Terminated(fields, c) + last, sep) == fields + if last == "" then [] else [last]
  {
    if fields == [] {
      assert Terminated(fields, c) + last == last;
      TokensOfLast(last, sep);
    } else {
      var rest := Terminated(fields[1..], c) + last;
      TokensOfTerminated(fields[1..], last, c, sep);
      TerminatedStep(fields, c, last);
      TokensStep(fields[0], c, rest, sep);
      HeadFirst(fields, if last == "" then [] else [last]);
    }
  }

  lemma {:induction false} TerminatedSolid(fields: seq<string>, c: char, sep: char -> bool)
    requires (forall i | 0 <= i < |fields| :: Solid(fields[i], sep)) && !sep(c)
    ensures forall i | 0 <= i < |Terminated(fields, c)| :: !sep(Terminated(fields, c)[i])
  {
    if fields != [] {
      var f, rest := fields[0], Terminated(fields[1..], c);
      TerminatedSolid(fields[1..], c, sep);
      assert Solid(f, sep);
      var t := Terminated(fields, c);
      forall i | 0 <= i < |t| ensures !sep(t[i]) {
        assert t[i] == if i < |f| then f[i] else if i == |f| then c else rest[i - |f| - 1];
      }
    }
  }

  lemma {:induction false} TerminatedGrows(fields: seq<string>, f: string, c: char)
    ensures Terminated(fields + [f], c) == Terminated(fields, c) + f + [c]
  {
    if fields != [] {
      var rest := fields[1..];
      assert (fields + [f])[1..] == rest + [f];
      TerminatedGrows(rest, f, c);
    }
  }

  lemma TerminatedTakes(fs: seq<string>, k: nat, c: char)
    requires k < |fs|
    ensures Terminated(fs[..k + 1], c) == Terminated(fs[..k], c) + fs[k] + [c]
  {
    TakeOne(fs, k);
    TerminatedGrows(fs[..k], fs[k], c);
  }

  /** Three fields more. */
  lemma {:induction false} TerminatedThree(fs: seq<string>, k: nat, before: string)
    requires k + 3 <= |fs| && Terminated(fs[..k], ',') == before
    ensures Terminated(fs[..k + 3], ',') == before + fs[k] + "," + fs[k + 1] + "," + fs[k + 2] + ","
  {
    TerminatedTakes(fs, k, ',');
    TerminatedTakes(fs, k + 1, ',');
    TerminatedTakes(fs, k + 2, ',');
  }

  lemma {:induction false} TerminatedHead(f: string, fs: seq<string>, c: char)
    ensures Terminated([f] + fs, c) == f + [c] + Terminated(fs, c)
  {
    assert ([f] + fs)[1..] == fs;
  }

  lemma {:induction false} TerminatedJoins(a: seq<string>, b: seq<string>, c: char)
    ensures Terminated(a + b, c) == Terminated(a, c) + Terminated(b, c)
  {
    if a == [] {
      assert a + b == b;
    } else {
      TerminatedJoins(a[1..], b, c);
      HeadFirst(a, b);
      assert (a + b)[1..] == a[1..] + b;
    }
  }

  // ---------------------------------------------------------------- reading one after the other

  /** From `pos` on come separators up to `a`, and then a field up to the next separator or the end. */
  ghost predicate FieldAt(s: string, pos: nat, a: nat, next: nat, sep: char -> bool) {
    && pos <= a < next <= |s|
    && (forall i | pos <= i < a :: sep(s[i])) && (forall i | a <= i < next :: !sep(s[i]))
    && (next < |s| ==> sep(s[next]))
  }

  /** `strtok` or `fscanf("%s")` from position `pos`. */
  method NextToken(s: string, pos: nat, sep: char -> bool) returns (token: Option<string>, next: nat)
    requires pos <= |s|
    ensures token.None? ==> Tokens(s[pos..], sep) == []
    ensures token.Some? ==> pos < next <= |s| && Tokens(s[pos..], sep) == [token.value] + Tokens(s[next..], sep)
    ensures token.None? ==> forall i | pos <= i < |s| :: sep(s[i])
    ensures token.Some? ==> exists a: nat :: FieldAt(s, pos, a, next, sep) && token.value == s[a..next]
  {
    var a := pos;
    while a < |s| && sep(s[a])
      invariant pos <= a <= |s| && forall i | pos <= i < a :: sep(s[i])
    {
      a := a + 1;
    }
    next := a;
    while next < |s| && !sep(s[next])
      invariant a <= next <= |s| && forall i | a <= i < next :: !sep(s[i])
    {
      next := next + 1;
    }
    TokenBetween(s, pos, a, next, sep);
    assert a < |s| ==> FieldAt(s, pos, a, next, sep);
    token := if a == |s| then None else Some(s[a..next]);
  }

  lemma {:induction false} TokenBetween(s: string, pos: nat, a: nat, next: nat, sep: char -> bool)
    requires pos <= a <= next <= |s| && (a == next ==> a == |s|)
    requires (forall i | pos <= i < a :: sep(s[i])) && (forall i | a <= i < next :: !sep(s[i]))
    requires next < |s| ==> sep(s[next])
    ensures Tokens(s[pos..], sep) == if a == |s| then [] else [s[a..next]] + Tokens(s[next..], sep)
  {
    BetweenSlices(s, pos, a, next, sep);
    if a == |s| {
      NoToken(s[pos..], sep);
    } else {
      FirstToken(s[pos..], a - pos, s[a..next], s[next..], sep);
    }
  }

  lemma {:induction false} BetweenSlices(s: string, pos: nat, a: nat, next: nat, sep: char -> bool)
    requires pos <= a <= next <= |s|
    requires (forall i | pos <= i < a :: sep(s[i])) && (forall i | a <= i < next :: !sep(s[i]))
    ensures var t, u := s[pos..], s[a..];
            && t[a - pos..] == u && u == s[a..next] + s[next..]
            && (forall i | 0 <= i < a - pos :: sep(t[i])) && (forall i | 0 <= i < next - a :: !sep(s[a..next][i]))
  {
    DropDrop(s, pos, a - pos);
  }

  lemma {:induction false} FirstToken(t: string, skip: nat, token: string, rest: string, sep: char -> bool)
    requires skip <= |t| && t[skip..] == token + rest && Solid(token, sep) && (rest != "" ==> sep(rest[0]))
    requires forall i | 0 <= i < skip :: sep(t[i])
    ensures Tokens(t, sep) == [token] + Tokens(rest, sep)
  {
    SkipAll(t, sep, skip);
    TokensOne(token, rest, sep);
  }

  lemma {:induction false} NoToken(t: string, sep: char -> bool)
    requires forall i | 0 <= i < |t| :: sep(t[i])
    ensures Tokens(t, sep) == []
  {
    SkipAll(t, sep, |t|);
    assert t[|t|..] == "";
  }

  lemma {:induction false} SkipAll(t: string, sep: char -> bool, n: nat)
    requires n <= |t| && forall i | 0 <= i < n :: sep(t[i])
    ensures Tokens(t, sep) == Tokens(t[n..], sep)
  {
    if n == 0 {
      assert t[0..] == t;
    } else {
      DropOne(t, 0);
      TokensSkip(t[0], t[1..], sep);
      SkipAll(t[1..], sep, n - 1);
      DropDrop(t, 1, n - 1);
    }
  }

  /** From `pos` on, a line holds the fields of `t` from the `k`-th on. */
  ghost predicate Holds(line: string, pos: nat, t: seq<string>, k: nat) {
    && pos <= |line| && k <= |t|
    && forall u {:trigger Tokens(u, IsComma)} | u == line[pos..] :: Tokens(u, IsComma) == t[k..]
  }

  method NextField(line: string, pos: nat, ghost t: seq<string>, ghost k: nat) returns (f: Option<string>, next: nat)
    requires Holds(line, pos, t, k)
    ensures f.None? <==> k == |t|
    ensures f.Some? ==> f.value == t[k] && Holds(line, next, t, k + 1)
  {
    assert Tokens(line[pos..], IsComma) == t[k..];
    f, next := NextToken(line, pos, IsComma);
    if f.Some? {
      HeadAndTail(t, k, f.value, Tokens(line[next..], IsComma));
    }
  }

  /** A run of fields, as the loops over the replicas read them. */
  method NextFields(line: string, pos: nat, n: nat, ghost t: seq<string>, ghost k: nat)
    returns (fs: Option<seq<string>>, next: nat)
    requires Holds(line, pos, t, k)
    ensures fs.None? <==> |t| < k + n
    ensures fs.Some? ==> fs.value == t[k..k + n] && Holds(line, next, t, k + n)
  {
    var read: seq<string> := [];
    next := pos;
    for i := 0 to n
      invariant Holds(line, next, t, k + i) && read == t[k..k + i]
    {
      var f: Option<string>;
      f, next := NextField(line, next, t, k + i);
      if f.None? {
        return None, next;
      }
      assert t[k..k + i + 1] == t[k..k + i] + [f.value];
      read := read + [f.value];
    }
    fs := Some(read);
  }

  // ---------------------------------------------------------------- reading all of them

  /** What `f` gives for every element, or nothing when it gives nothing for one. */
  function Collected<A, B>(f: A -> Option<B>, s: seq<A>): (r: Option<seq<B>>)
    ensures r.Some? ==> |r.value| == |s| && forall i | 0 <= i < |s| :: f(s[i]) == Some(r.value[i])
    ensures r.None? ==> exists i :: 0 <= i < |s| && f(s[i]) == None
  {
    if s == [] then Some([]) else
    var rest := Collected(f, s[..|s| - 1]);
    var last := f(s[|s| - 1]);
    if rest.Some? && last.Some? then Some(rest.value + [last.value]) else None
  }

  lemma CollectedGrows<A, B>(f: A -> Option<B>, s: seq<A>, n: nat, r: seq<B>)
    requires n < |s| && Collected(f, s[..n]) == Some(r)
    ensures f(s[n]).None? ==> Collected(f, s[..n + 1]).None?
    ensures f(s[n]).Some? ==> Collected(f, s[..n + 1]) == Some(r + [f(s[n]).value])
  {
    assert s[..n + 1][..n] == s[..n];
  }

  lemma CollectedPrefix<A, B>(f: A -> Option<B>, s: seq<A>, n: nat)
    requires n <= |s|
    ensures Collected(f, s[..n]).None? ==> Collected(f, s).None?
    ensures Collected(f, s).Some? && Collected(f, s[..n]).Some? ==>
              Collected(f, s[..n]).value <= Collected(f, s).value
  {
    if Collected(f, s[..n]).None? {
      var i :| 0 <= i < n && f(s[..n][i]) == None;
      assert f(s[i]) == None;
    } else if Collected(f, s).Some? {
      var a, b := Collected(f, s[..n]).value, Collected(f, s).value;
      forall i | 0 <= i < n ensures a[i] == b[i] {
        assert f(s[..n][i]) == Some(a[i]) && f(s[i]) == Some(b[i]);
      }
    }
  }

  lemma CollectedAre<A, B>(f: A -> Option<B>, s: seq<A>, r: seq<B>)
    requires |s| == |r|
    ensures Collected(f, s) == Some(r) <==> forall i | 0 <= i < |r| :: f(s[i]) == Some(r[i])
  {
    var c := Collected(f, s);
    if c.Some? {
      assert c.value == r <==> forall i | 0 <= i < |r| :: c.value[i] == r[i];
    }
  }
}
