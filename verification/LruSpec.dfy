/** The recency list of list.c as a sequence, most recently used first. */
module LruSpec {
  import opened Sequences

  type Key = seq<int>

  datatype Entry<T> = Entry(key: Key, data: T)

  /** Lookups compare whole keys; removal compares only as many bytes as it is given. */
  predicate Matches<T>(e: Entry<T>, key: Key, exact: bool) {
    if exact then e.key == key else key <= e.key
  }

  /** The first matching position, or the length. */
  function Find<T>(s: seq<Entry<T>>, key: Key, exact: bool): (i: nat)
    ensures i <= |s|
    ensures forall j | 0 <= j < i :: !Matches(s[j], key, exact)
    ensures i < |s| ==> Matches(s[i], key, exact)
  {
    if s == [] || Matches(s[0], key, exact) then 0 else 1 + Find(s[1..], key, exact)
  }

  function Dropped<T>(s: seq<Entry<T>>, i: nat): seq<Entry<T>>
    requires i < |s|
  {
    Less(s, i)
  }

  function Inserted<T>(s: seq<Entry<T>>, key: Key, data: T): seq<Entry<T>> {
    [Entry(key, data)] + s
  }

  /** A hit moves to the front. */
  function Touched<T>(s: seq<Entry<T>>, key: Key): seq<Entry<T>> {
    var i := Find(s, key, true);
    if i == |s| then s else [s[i]] + Dropped(s, i)
  }

  function Changed<T>(s: seq<Entry<T>>, key: Key, data: T): seq<Entry<T>> {
    var i := Find(s, key, true);
    if i == |s| then s else [Entry(s[i].key, data)] + Dropped(s, i)
  }

  function Removed<T>(s: seq<Entry<T>>, key: Key): seq<Entry<T>> {
    var i := Find(s, key, false);
    if i == |s| then s else Dropped(s, i)
  }

  /** The first `n` entries but those that carry `data`. */
  function Kept<T(==)>(s: seq<Entry<T>>, n: nat, data: T): seq<Entry<T>>
    requires n <= |s|
  {
    if n == 0 then [] else Kept(s, n - 1, data) + if s[n - 1].data == data then [] else [s[n - 1]]
  }

  function Without<T(==)>(s: seq<Entry<T>>, data: T): seq<Entry<T>> {
    Kept(s, |s|, data)
  }

  lemma TouchedAt<T>(s: seq<Entry<T>>, key: Key, k: nat)
    requires k == Find(s, key, true) < |s|
    ensures Touched(s, key) == [s[k]] + Dropped(s, k)
  {
  }

  lemma ChangedFront<T>(s: seq<Entry<T>>, key: Key, data: T)
    requires Find(s, key, true) < |s|
    ensures Touched(s, key)[0].key == key
    ensures Changed(s, key, data) == Touched(s, key)[0 := Entry(key, data)]
  {
  }

  lemma {:induction false} KeptDropped<T>(s: seq<Entry<T>>, k: nat, n: nat, data: T)
    requires k < |s| && s[k].data == data && n < |s|
    ensures Kept(Dropped(s, k), n, data) == Kept(s, if n <= k then n else n + 1, data)
  {
    if n > 0 {
      KeptDropped(s, k, n - 1, data);
    }
  }

  lemma {:induction false} KeptAll<T>(s: seq<Entry<T>>, n: nat, data: T)
    requires n <= |s| && forall i | 0 <= i < n :: s[i].data != data
    ensures Kept(s, n, data) == s[..n]
  {
    if n > 0 {
      KeptAll(s, n - 1, data);
    }
  }

  /** Dropping an entry that carries `data` does not change what is left without `data`. */
  lemma WithoutDropped<T>(s: seq<Entry<T>>, k: nat, data: T)
    requires k < |s| && s[k].data == data
    ensures Without(Dropped(s, k), data) == Without(s, data)
  {
    KeptDropped(s, k, |s| - 1, data);
  }

  lemma NothingToDrop<T>(s: seq<Entry<T>>, data: T)
    requires forall e | e in s :: e.data != data
    ensures Without(s, data) == s
  {
    KeptAll(s, |s|, data);
  }

  // ---------------------------------------------------------------- the operations, told by position

  /** Entry `i` is the first with just this key. */
  ghost predicate FirstWith<T>(s: seq<Entry<T>>, key: Key, i: nat) {
    i < |s| && s[i].key == key && forall j | 0 <= j < i :: s[j].key != key
  }

  ghost predicate Lacks<T>(s: seq<Entry<T>>, key: Key) {
    forall j | 0 <= j < |s| :: s[j].key != key
  }

  /** Entry `i` is the first whose key starts with the bytes given. */
  ghost predicate FirstStarting<T>(s: seq<Entry<T>>, key: Key, i: nat) {
    i < |s| && key <= s[i].key && forall j | 0 <= j < i :: !(key <= s[j].key)
  }

  /** The first entry with the key is in front with the data given, the others are as they were. */
  ghost predicate BroughtFront<T>(s: seq<Entry<T>>, t: seq<Entry<T>>, key: Key, i: nat, data: T) {
    FirstWith(s, key, i) && t == [Entry(key, data)] + (s[..i] + s[i + 1..])
  }

  lemma FirstIsFind<T>(s: seq<Entry<T>>, key: Key)
    ensures if Find(s, key, true) < |s| then FirstWith(s, key, Find(s, key, true)) else Lacks(s, key)
    ensures forall i: nat | FirstWith(s, key, i) :: i == Find(s, key, true)
  {
    var k := Find(s, key, true);
    forall j | 0 <= j < k ensures s[j].key != key {
      assert !Matches(s[j], key, true);
    }
  }

  /** Without an entry with the key nothing changes and -1 is returned; otherwise the length of the key is. */
  ghost predicate Answers<T>(s: seq<Entry<T>>, t: seq<Entry<T>>, key: Key, data: T, ret: int) {
    && (Lacks(s, key) ==> t == s && ret == -1)
    && (forall i: nat | FirstWith(s, key, i) :: BroughtFront(s, t, key, i, data) && ret == |key|)
  }

  lemma TouchedIs<T>(s: seq<Entry<T>>, key: Key, data: T, ret: int)
    requires var i := Find(s, key, true); if i == |s| then ret == -1 else ret == |key| && data == s[i].data
    ensures Answers(s, Touched(s, key), key, data, ret)
  {
    FirstIsFind(s, key);
  }

  lemma ChangedIs<T>(s: seq<Entry<T>>, key: Key, data: T, ret: int)
    requires ret == if Find(s, key, true) == |s| then -1 else |key|
    ensures Answers(s, Changed(s, key, data), key, data, ret)
  {
    FirstIsFind(s, key);
  }

  lemma RemovedIs<T>(s: seq<Entry<T>>, key: Key)
    ensures (forall j | 0 <= j < |s| :: !(key <= s[j].key)) ==> Removed(s, key) == s && Find(s, key, false) == |s|
    ensures forall i: nat | FirstStarting(s, key, i) :: Removed(s, key) == s[..i] + s[i + 1..] && Find(s, key, false) == i
  {
  }

  /** Entry `k` of `s` is left out when it carries `data`, and otherwise stands in `t` at `rank[k]`. */
  ghost predicate RankAt<T>(s: seq<Entry<T>>, t: seq<Entry<T>>, data: T, rank: seq<nat>, k: nat) {
    && k < |s| && k + 1 < |rank|
    && if s[k].data == data then rank[k + 1] == rank[k]
       else rank[k + 1] == rank[k] + 1 && rank[k] < |t| && t[rank[k]] == s[k]
  }

  /** `t` is `s` without the entries that carry `data`, in order; `rank` counts those that are kept. */
  ghost predicate LeavesOut<T>(s: seq<Entry<T>>, t: seq<Entry<T>>, data: T, rank: seq<nat>) {
    && |rank| == |s| + 1 && rank[0] == 0 && rank[|s|] == |t|
    && forall k: nat | k < |s| :: RankAt(s, t, data, rank, k)
  }

  lemma {:induction false} KeptRanks<T>(s: seq<Entry<T>>, n: nat, data: T) returns (rank: seq<nat>)
    requires n <= |s|
    ensures |rank| == n + 1 && rank[0] == 0 && rank[n] == |Kept(s, n, data)|
    ensures forall k: nat | k < n :: RankAt(s, Kept(s, n, data), data, rank, k)
  {
    if n == 0 {
      rank := [0];
    } else {
      var front := KeptRanks(s, n - 1, data);
      var t := Kept(s, n, data);
      rank := front + [|t|];
      forall k: nat | k < n ensures RankAt(s, t, data, rank, k) {
        assert k < n - 1 ==> RankAt(s, Kept(s, n - 1, data), data, front, k);
      }
    }
  }

  /** What is left without `data`. */
  lemma WithoutIs<T>(s: seq<Entry<T>>, data: T) returns (rank: seq<nat>)
    ensures LeavesOut(s, Without(s, data), data, rank)
  {
    rank := KeptRanks(s, |s|, data);
  }

  // ---------------------------------------------------------------- runs

  datatype Op<T> =
    | Insert(key: Key, data: T)
    | Get(key: Key)
    | Change(key: Key, data: T)
    | Remove(key: Key)

  function Apply<T>(s: seq<Entry<T>>, op: Op<T>): seq<Entry<T>> {
    match op
    case Insert(key, data) => Inserted(s, key, data)
    case Get(key) => Touched(s, key)
    case Change(key, data) => Changed(s, key, data)
    case Remove(key) => Removed(s, key)
  }

  /** An operation on a list that holds at most `cap` entries; a full list makes room as it is meant to. */
  function Capped<T>(s: seq<Entry<T>>, op: Op<T>, cap: nat): seq<Entry<T>>
    requires cap > 0
  {
    Apply(if op.Insert? && |s| >= cap then s[..cap - 1] else s, op)
  }

  function After<T>(ops: seq<Op<T>>, cap: nat): seq<Entry<T>>
    requires cap > 0
  {
    if ops == [] then [] else Capped(After(ops[..|ops| - 1], cap), ops[|ops| - 1], cap)
  }

  // ---------------------------------------------------------------- recency

  /** An entry, and the number of the operation that inserted it, looked it up or changed it last. */
  datatype Used<T> = Used(entry: Entry<T>, at: nat)

  function Erase<T>(s: seq<Used<T>>): (t: seq<Entry<T>>)
    ensures |t| == |s| && forall i | 0 <= i < |s| :: t[i] == s[i].entry
  {
    seq(|s|, i requires 0 <= i < |s| => s[i].entry)
  }

  /** Operation number `n` on entries that carry the number of their last use. */
  function Use<T>(s: seq<Used<T>>, op: Op<T>, n: nat): seq<Used<T>> {
    var i := Find(Erase(s), op.key, !op.Remove?);
    if op.Insert? then [Used(Entry(op.key, op.data), n)] + s
    else if i == |s| then s
    else match op
      case Get(_) => [Used(s[i].entry, n)] + Less(s, i)
      case Change(_, data) => [Used(Entry(s[i].entry.key, data), n)] + Less(s, i)
      case Remove(_) => Less(s, i)
  }

  function Uses<T>(ops: seq<Op<T>>, cap: nat): seq<Used<T>>
    requires cap > 0
  {
    if ops == [] then [] else
    var s, op := Uses(ops[..|ops| - 1], cap), ops[|ops| - 1];
    Use(Room(s, op, cap), op, |ops|)
  }

  /** From front to back every entry was used before the one in front of it, and none after operation `n`. */
  ghost predicate ByRecency<T>(s: seq<Used<T>>, n: nat) {
    && (forall i | 0 <= i < |s| :: s[i].at <= n)
    && (forall i, j | 0 <= i < j < |s| :: s[j].at < s[i].at)
  }

  /** The number names an operation on the key of the entry that is no removal. */
  ghost predicate DatedBy<T>(u: Used<T>, ops: seq<Op<T>>) {
    1 <= u.at <= |ops| && !ops[u.at - 1].Remove? && ops[u.at - 1].key == u.entry.key
  }

  ghost predicate Dated<T>(s: seq<Used<T>>, ops: seq<Op<T>>) {
    forall i | 0 <= i < |s| :: DatedBy(s[i], ops)
  }

  lemma EraseLess<T>(s: seq<Used<T>>, k: nat)
    requires k < |s|
    ensures Erase(Less(s, k)) == Less(Erase(s), k)
  {
  }

  lemma EraseFront<T>(u: Used<T>, s: seq<Used<T>>)
    ensures Erase([u] + s) == [u.entry] + Erase(s)
  {
  }

  lemma UseErases<T>(s: seq<Used<T>>, op: Op<T>, n: nat)
    ensures Erase(Use(s, op, n)) == Apply(Erase(s), op)
  {
    var i := Find(Erase(s), op.key, !op.Remove?);
    if op.Insert? {
      EraseFront(Used(Entry(op.key, op.data), n), s);
    } else if i < |s| {
      EraseLess(s, i);
      if op.Get? {
        EraseFront(Used(s[i].entry, n), Less(s, i));
      } else if op.Change? {
        EraseFront(Used(Entry(s[i].entry.key, op.data), n), Less(s, i));
      }
    }
  }

  lemma LessRecency<T>(s: seq<Used<T>>, k: nat, n: nat)
    requires ByRecency(s, n) && k < |s|
    ensures ByRecency(Less(s, k), n)
  {
  }

  lemma FrontRecency<T>(u: Used<T>, s: seq<Used<T>>, n: nat)
    requires ByRecency(s, n) && u.at == n + 1
    ensures ByRecency([u] + s, n + 1)
  {
  }

  lemma UseKeepsRecency<T>(s: seq<Used<T>>, op: Op<T>, n: nat)
    requires ByRecency(s, n)
    ensures ByRecency(Use(s, op, n + 1), n + 1)
  {
    var i := Find(Erase(s), op.key, !op.Remove?);
    if op.Insert? {
      FrontRecency(Used(Entry(op.key, op.data), n + 1), s, n);
    } else if i < |s| {
      LessRecency(s, i, n);
      FrontRecency(Used(Entry(s[i].entry.key, if op.Change? then op.data else s[i].entry.data), n + 1), Less(s, i), n);
    }
  }

  lemma DatesGrow<T>(s: seq<Used<T>>, ops: seq<Op<T>>)
    requires ops != [] && Dated(s, ops[..|ops| - 1])
    ensures Dated(s, ops)
  {
    forall i | 0 <= i < |s| ensures DatedBy(s[i], ops) {
      assert DatedBy(s[i], ops[..|ops| - 1]);
    }
  }

  lemma LessDated<T>(s: seq<Used<T>>, k: nat, ops: seq<Op<T>>)
    requires Dated(s, ops) && k < |s|
    ensures Dated(Less(s, k), ops)
  {
    forall i | 0 <= i < |s| - 1 ensures DatedBy(Less(s, k)[i], ops) {
      assert DatedBy(s[if i < k then i else i + 1], ops);
    }
  }

  lemma FrontDated<T>(u: Used<T>, s: seq<Used<T>>, ops: seq<Op<T>>)
    requires Dated(s, ops) && DatedBy(u, ops)
    ensures Dated([u] + s, ops)
  {
    forall i | 0 <= i < |s| + 1 ensures DatedBy(([u] + s)[i], ops) {
      assert i > 0 ==> DatedBy(s[i - 1], ops);
    }
  }

  lemma UseKeepsDates<T>(s: seq<Used<T>>, ops: seq<Op<T>>)
    requires ops != [] && Dated(s, ops[..|ops| - 1])
    ensures Dated(Use(s, ops[|ops| - 1], |ops|), ops)
  {
    var op := ops[|ops| - 1];
    var i := Find(Erase(s), op.key, !op.Remove?);
    DatesGrow(s, ops);
    if op.Insert? {
      FrontDated(Used(Entry(op.key, op.data), |ops|), s, ops);
    } else if i < |s| {
      LessDated(s, i, ops);
      if !op.Remove? {
        assert Erase(s)[i].key == op.key;
        FrontDated(Used(Entry(s[i].entry.key, if op.Change? then op.data else s[i].entry.data), |ops|), Less(s, i), ops);
      }
    }
  }

  /** The list on which the operation acts: a full one has made room. */
  function Room<T>(s: seq<Used<T>>, op: Op<T>, cap: nat): seq<Used<T>>
    requires cap > 0
  {
    if op.Insert? && |s| >= cap then s[..cap - 1] else s
  }

  lemma RoomErases<T>(s: seq<Used<T>>, op: Op<T>, cap: nat, ops: seq<Op<T>>, n: nat)
    requires cap > 0 && ByRecency(s, n) && Dated(s, ops)
    ensures Erase(Room(s, op, cap)) == if op.Insert? && |s| >= cap then Erase(s)[..cap - 1] else Erase(s)
    ensures ByRecency(Room(s, op, cap), n) && Dated(Room(s, op, cap), ops)
  {
    forall i | 0 <= i < |Room(s, op, cap)| ensures DatedBy(Room(s, op, cap)[i], ops) {
      assert DatedBy(s[i], ops);
    }
  }

  /**
   * After any run whatever, repeated inserts of a key and evictions included, the list is in the order of last
   * use: the front is the entry used most recently, the back the one used longest ago.
   */
  lemma {:induction false} RecencyOrder<T>(ops: seq<Op<T>>, cap: nat)
    requires cap > 0
    ensures Erase(Uses(ops, cap)) == After(ops, cap) && |After(ops, cap)| <= cap
    ensures ByRecency(Uses(ops, cap), |ops|) && Dated(Uses(ops, cap), ops)
  {
    if ops != [] {
      var front, op := ops[..|ops| - 1], ops[|ops| - 1];
      RecencyOrder(front, cap);
      var s := Uses(front, cap);
      var t := Room(s, op, cap);
      RoomErases(s, op, cap, front, |front|);
      UseErases(t, op, |ops|);
      UseKeepsRecency(t, op, |front|);
      UseKeepsDates(t, ops);
    }
  }

  /** So dropping the last entry of a list drops the one used longest ago. */
  lemma LastIsLeastRecent<T>(ops: seq<Op<T>>, cap: nat, i: nat)
    requires cap > 0 && i < |After(ops, cap)| - 1
    ensures |Uses(ops, cap)| == |After(ops, cap)|
    ensures Uses(ops, cap)[|After(ops, cap)| - 1].at < Uses(ops, cap)[i].at
  {
    RecencyOrder(ops, cap);
  }

  /** The way the server uses the list: keys of one length, and an insert only of a key that is not there. */
  ghost predicate Disciplined<T>(ops: seq<Op<T>>, cap: nat, length: nat)
    requires cap > 0
  {
    forall i | 0 <= i < |ops| ::
      |ops[i].key| == length && (ops[i].Insert? ==> !Has(After(ops[..i], cap), ops[i].key))
  }

  predicate Has<T>(s: seq<Entry<T>>, key: Key) {
    exists i :: 0 <= i < |s| && s[i].key == key
  }

  /** When `key` was last inserted, looked up or changed, counted from 1; 0 if never. */
  function LastUse<T>(ops: seq<Op<T>>, key: Key): nat {
    if ops == [] then 0
    else if ops[|ops| - 1].key == key && !ops[|ops| - 1].Remove? then |ops|
    else LastUse(ops[..|ops| - 1], key)
  }

  ghost predicate LastUsed<T>(u: Used<T>, ops: seq<Op<T>>, length: nat) {
    |u.entry.key| == length && u.at == LastUse(ops, u.entry.key)
  }

  /** Every key is there once, and the number of its entry is its last use. */
  ghost predicate OneEach<T>(s: seq<Used<T>>, ops: seq<Op<T>>, length: nat) {
    && (forall i | 0 <= i < |s| :: LastUsed(s[i], ops, length))
    && (forall i, j | 0 <= i < j < |s| :: s[i].entry.key != s[j].entry.key)
  }

  /** An operation on another key does not change the last use. */
  lemma OthersKeep<T>(s: seq<Used<T>>, ops: seq<Op<T>>, length: nat)
    requires ops != [] && OneEach(s, ops[..|ops| - 1], length)
    requires ops[|ops| - 1].Remove? || forall i | 0 <= i < |s| :: s[i].entry.key != ops[|ops| - 1].key
    ensures OneEach(s, ops, length)
  {
    forall i | 0 <= i < |s| ensures LastUsed(s[i], ops, length) {
      assert LastUsed(s[i], ops[..|ops| - 1], length);
    }
  }

  lemma LessOneEach<T>(s: seq<Used<T>>, k: nat, ops: seq<Op<T>>, length: nat)
    requires OneEach(s, ops, length) && k < |s|
    ensures OneEach(Less(s, k), ops, length)
    ensures forall i | 0 <= i < |s| - 1 :: Less(s, k)[i].entry.key != s[k].entry.key
  {
    forall i | 0 <= i < |s| - 1 ensures LastUsed(Less(s, k)[i], ops, length) {
      assert LastUsed(s[if i < k then i else i + 1], ops, length);
    }
  }

  lemma FrontOneEach<T>(u: Used<T>, s: seq<Used<T>>, ops: seq<Op<T>>, length: nat)
    requires OneEach(s, ops, length) && LastUsed(u, ops, length)
    requires forall i | 0 <= i < |s| :: s[i].entry.key != u.entry.key
    ensures OneEach([u] + s, ops, length)
  {
    forall i | 0 <= i < |s| + 1 ensures LastUsed(([u] + s)[i], ops, length) {
      assert i > 0 ==> LastUsed(s[i - 1], ops, length);
    }
  }

  lemma UseKeepsOneEach<T>(s: seq<Used<T>>, ops: seq<Op<T>>, length: nat)
    requires ops != [] && OneEach(s, ops[..|ops| - 1], length) && |ops[|ops| - 1].key| == length
    requires ops[|ops| - 1].Insert? ==> !Has(Erase(s), ops[|ops| - 1].key)
    ensures OneEach(Use(s, ops[|ops| - 1], |ops|), ops, length)
  {
    var op := ops[|ops| - 1];
    var i := Find(Erase(s), op.key, !op.Remove?);
    if i < |s| && !op.Insert? {
      assert Erase(s)[i].key == s[i].entry.key;
      LessOneEach(s, i, ops[..|ops| - 1], length);
      if op.Remove? {
        OthersKeep(Less(s, i), ops, length);
      } else {
        assert s[i].entry.key == op.key;
        OthersKeep(Less(s, i), ops, length);
        FrontOneEach(Used(Entry(op.key, if op.Change? then op.data else s[i].entry.data), |ops|), Less(s, i), ops, length);
      }
    } else {
      forall j | 0 <= j < |s| && !op.Remove? ensures s[j].entry.key != op.key {
        assert Erase(s)[j].key == s[j].entry.key;
      }
      OthersKeep(s, ops, length);
      if op.Insert? {
        FrontOneEach(Used(Entry(op.key, op.data), |ops|), s, ops, length);
      }
    }
  }

  /** With keys used so, the list holds every key once, in the order of the last uses of the keys. */
  lemma {:induction false} KeysByLastUse<T>(ops: seq<Op<T>>, cap: nat, length: nat)
    requires cap > 0 && Disciplined(ops, cap, length)
    ensures OneEach(Uses(ops, cap), ops, length)
  {
    if ops != [] {
      var n := |ops| - 1;
      var front, op := ops[..n], ops[n];
      forall i | 0 <= i < n ensures front[..i] == ops[..i] {
        TakeTake(ops, i, n);
      }
      KeysByLastUse(front, cap, length);
      RecencyOrder(front, cap);
      RoomOneEach(Uses(front, cap), op, cap, front, length);
      UseKeepsOneEach(Room(Uses(front, cap), op, cap), ops, length);
    }
  }

  lemma RoomOneEach<T>(s: seq<Used<T>>, op: Op<T>, cap: nat, ops: seq<Op<T>>, length: nat)
    requires cap > 0 && OneEach(s, ops, length)
    ensures OneEach(Room(s, op, cap), ops, length)
    ensures Has(Erase(Room(s, op, cap)), op.key) ==> Has(Erase(s), op.key)
  {
    var t := Room(s, op, cap);
    forall i | 0 <= i < |t| ensures LastUsed(t[i], ops, length) && Erase(t)[i] == Erase(s)[i] {
      assert LastUsed(s[i], ops, length);
    }
  }

  // ---------------------------------------------------------------- what a lookup finds

  /** The data a lookup returns, as a sequence of at most one element. */
  function Lookup<T>(s: seq<Entry<T>>, key: Key): seq<T> {
    var i := Find(s, key, true);
    if i == |s| then [] else [s[i].data]
  }

  lemma FindIs<T>(s: seq<Entry<T>>, key: Key, exact: bool, i: nat)
    requires i <= |s| && (forall j | 0 <= j < i :: !Matches(s[j], key, exact))
    requires i < |s| ==> Matches(s[i], key, exact)
    ensures Find(s, key, exact) == i
  {
  }

  lemma FindInDropped<T>(s: seq<Entry<T>>, key: Key, k: nat)
    requires k < |s| && s[k].key != key
    ensures Lookup(Dropped(s, k), key) == Lookup(s, key)
  {
    var d, i := Dropped(s, k), Find(s, key, true);
    forall j | 0 <= j < |d| ensures d[j] == s[if j < k then j else j + 1] {}
    FindIs(d, key, true, if k < i then i - 1 else i);
  }

  lemma FindBehind<T>(e: Entry<T>, s: seq<Entry<T>>, key: Key)
    ensures Lookup([e] + s, key) == if e.key == key then [e.data] else Lookup(s, key)
  {
    assert ([e] + s)[1..] == s;
  }

  /** A lookup finds what was inserted or changed last, and no operation on another key disturbs it. */
  lemma LookupAfter<T>(s: seq<Entry<T>>, op: Op<T>, key: Key)
    requires op.Remove? ==> op.key != key && |op.key| == |key| && forall e | e in s :: |e.key| == |key|
    ensures Lookup(Apply(s, op), key) ==
            if op.Insert? && op.key == key then [op.data]
            else if op.Change? && op.key == key && Lookup(s, key) != [] then [op.data]
            else Lookup(s, key)
  {
    var k := Find(s, op.key, !op.Remove?);
    if op.Insert? {
      FindBehind(Entry(op.key, op.data), s, key);
    } else if k < |s| && op.Remove? {
      assert s[k] in s && s[k].key == op.key;
      FindInDropped(s, key, k);
    } else if k < |s| {
      var front := if op.Get? then s[k] else Entry(s[k].key, op.data);
      FindBehind(front, Dropped(s, k), key);
      if op.key != key {
        FindInDropped(s, key, k);
      }
    }
  }
}
