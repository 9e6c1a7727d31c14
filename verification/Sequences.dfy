/** Facts about sequences that the other modules share. */
module Sequences {

  predicate Distinct<A(==)>(s: seq<A>) {
    forall i, j | 0 <= i < j < |s| :: s[i] != s[j]
  }

  /** `s` without element `k`. */
  function Less<A>(s: seq<A>, k: nat): (d: seq<A>)
    requires k < |s|
    ensures |d| == |s| - 1
    ensures forall i | 0 <= i < |d| :: d[i] == if i < k then s[i] else s[i + 1]
  {
    s[..k] + s[k + 1..]
  }

  lemma DistinctLess<A>(s: seq<A>, k: nat)
    requires k < |s| && Distinct(s)
    ensures Distinct(Less(s, k)) && s[k] !in Less(s, k)
    ensures forall x | x in Less(s, k) :: x in s
  {
  }

  lemma TakeOne<A>(s: seq<A>, k: nat)
    requires k < |s|
    ensures s[..k + 1] == s[..k] + [s[k]]
  {
  }

  lemma DropOne<A>(s: seq<A>, k: nat)
    requires k < |s|
    ensures s[k..] == [s[k]] + s[k + 1..]
  {
  }

  lemma TakeTake<A>(s: seq<A>, i: nat, j: nat)
    requires i <= j <= |s|
    ensures s[..j][..i] == s[..i]
  {
  }

  lemma DropDrop<A>(s: seq<A>, i: nat, j: nat)
    requires i + j <= |s|
    ensures s[i..][j..] == s[i + j..]
  {
  }

  lemma Associative<A>(a: seq<A>, b: seq<A>, c: seq<A>)
    ensures (a + b) + c == a + (b + c)
  {
  }

  /** What a concatenation begins and ends with. */
  lemma Halves<A>(a: seq<A>, b: seq<A>)
    ensures (a + b)[..|a|] == a && (a + b)[|a|..] == b
  {
  }

  lemma HeadFirst<A>(s: seq<A>, t: seq<A>)
    requires s != []
    ensures s + t == [s[0]] + (s[1..] + t)
  {
    assert s == [s[0]] + s[1..];
  }

  lemma HeadAndTail<A>(s: seq<A>, k: nat, h: A, t: seq<A>)
    requires k <= |s| && s[k..] == [h] + t
    ensures k < |s| && s[k] == h && s[k + 1..] == t
  {
    assert s[k..][0] == h;
    assert s[k..][1..] == t;
  }

  lemma LastApart<A>(s: seq<A>)
    requires s != []
    ensures s[..|s| - 1] + [s[|s| - 1]] == s
  {
  }

  lemma TakeAndDrop<A>(s: seq<A>, n: nat)
    requires n <= |s|
    ensures s[..n] + s[n..] == s
  {
  }

  lemma NothingAfter<A>(s: seq<A>)
    ensures s + [] == s
  {
  }

  /** Sequences that begin alike are alike there. */
  lemma TakenAt<A>(a: seq<A>, b: seq<A>, n: nat, i: nat)
    requires i < n <= |a| && n <= |b| && a[..n] == b[..n]
    ensures a[i] == b[i]
  {
    assert a[..n][i] == b[..n][i];
  }

  lemma SamePrefix<A>(a: seq<A>, b: seq<A>, n: nat, m: nat)
    requires m <= n <= |a| && n <= |b| && a[..n] == b[..n]
    ensures a[..m] == b[..m]
  {
    TakeTake(a, m, n);
    TakeTake(b, m, n);
  }
}
