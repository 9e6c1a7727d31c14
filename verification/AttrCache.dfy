/** The attribute cache in front of getattr: 64 slots that are filled in a ring. */
module AttrCache {
  import opened Bytes

  const ENTRIES := 64
  const PATHLEN := 128

  /** `kind` are the mode bits of the mask 0770000 and `perms` the others. */
  datatype Stat = Stat(kind: nat, perms: nat, uid: int, gid: int, rest: seq<int>)

  datatype Slot = Slot(path: string, valid: bool, attr: Stat)

  datatype State = State(slots: seq<Slot>, last: nat)

  ghost predicate Ring(s: State) {
    |s.slots| == ENTRIES && s.last < ENTRIES
  }

  /** What `strncpy` and the final NUL leave of a path. */
  function Clip(path: string): string {
    if |path| < PATHLEN then path else path[..PATHLEN - 1]
  }

  predicate Hits(slot: Slot, path: string) { slot.valid && slot.path == path }

  /** The first slot from `i` on that holds the path, or the length. */
  function FindFrom(slots: seq<Slot>, path: string, i: nat): (k: nat)
    requires i <= |slots|
    ensures i <= k <= |slots| && (k < |slots| ==> Hits(slots[k], path))
    ensures forall j | i <= j < k :: !Hits(slots[j], path)
    decreases |slots| - i
  {
    if i == |slots| || Hits(slots[i], path) then i else FindFrom(slots, path, i + 1)
  }

  function Find(s: State, path: string): nat { FindFrom(s.slots, path, 0) }

  function Init(s: State): State {
    State(seq(|s.slots|, i requires 0 <= i < |s.slots| => s.slots[i].(valid := false)), 0)
  }

  function Stored(s: State, path: string, attr: Stat): State
    requires Ring(s)
  {
    State(s.slots[s.last := Slot(Clip(path), true, attr)], (s.last + 1) % ENTRIES)
  }

  function Removed(s: State, path: string): State
  {
    var k := Find(s, path);
    if k == |s.slots| then s else s.(slots := s.slots[k := s.slots[k].(valid := false)])
  }

  // ---------------------------------------------------------------- the slots, told by their fields

  /** Slot `i` is the first in use that holds the path. */
  ghost predicate FirstHit(slots: seq<Slot>, path: string, i: nat) {
    && i < |slots| && slots[i].valid && slots[i].path == path
    && forall j | 0 <= j < i :: !slots[j].valid || slots[j].path != path
  }

  ghost predicate NoHit(slots: seq<Slot>, path: string) {
    forall j | 0 <= j < |slots| :: !slots[j].valid || slots[j].path != path
  }

  lemma FindIs(s: State, path: string)
    ensures if Find(s, path) < |s.slots| then FirstHit(s.slots, path, Find(s, path)) else NoHit(s.slots, path)
  {
  }

  /** The next slot of the ring holds at most 127 characters of the path, and the attributes. */
  ghost predicate Puts(s: State, t: State, path: string, attr: Stat) {
    && |s.slots| == 64 && s.last < 64 && t.last == (if s.last == 63 then 0 else s.last + 1)
    && t.slots == s.slots[s.last := Slot(if |path| <= 127 then path else path[..127], true, attr)]
  }

  /** The first slot that holds the path is no longer in use. */
  ghost predicate Clears(s: State, t: State, path: string) {
    && t.last == s.last
    && (NoHit(s.slots, path) ==> t.slots == s.slots)
    && forall i: nat | FirstHit(s.slots, path, i) :: t.slots == s.slots[i := Slot(path, false, s.slots[i].attr)]
  }

  lemma RemovedIs(s: State, path: string)
    ensures Clears(s, Removed(s, path), path)
  {
    FindIs(s, path);
  }

  // ---------------------------------------------------------------- events and runs

  /** A getattr, with what the underlying call answers if it is made (nothing when it fails), or a removal. */
  datatype Event = GetAttr(path: string, answer: Option<Stat>) | Remove(path: string)

  function After(s: State, e: Event): State
    requires Ring(s)
  {
    match e
    case GetAttr(path, answer) =>
      if Find(s, path) < |s.slots| || answer.None? then s else Stored(s, path, answer.value)
    case Remove(path) => Removed(s, path)
  }

  /** What a getattr reports, before any spoofing. */
  function Reported(s: State, path: string, answer: Option<Stat>): Option<Stat> {
    var k := Find(s, path);
    if k < |s.slots| then Some(s.slots[k].attr) else answer
  }

  function Run(s: State, events: seq<Event>): (t: State)
    requires Ring(s)
    ensures Ring(t)
  {
    if events == [] then s else After(Run(s, events[..|events| - 1]), events[|events| - 1])
  }

  // ---------------------------------------------------------------- the meaning: a log of the stores

  /** A store, and whether its entry has not been removed since. */
  datatype Entry = Entry(path: string, attr: Stat, live: bool)

  type Log = seq<Entry>

  /** The newest store for the path, or the length. */
  function Newest(log: Log, path: string): (n: nat)
    ensures n <= |log| && (n < |log| ==> log[n].path == path)
    ensures forall m | 0 <= m < |log| && (m > n || n == |log|) :: log[m].path != path
  {
    if log == [] then 0 else
    var n := |log| - 1;
    if log[n].path == path then n else
    var m := Newest(log[..n], path);
    if m == n then |log| else m
  }

  /** The entry of a path is there when its newest store is one of the last 64 and was not removed since. */
  predicate Held(log: Log, path: string) {
    var n := Newest(log, path);
    n < |log| && log[n].live && |log| - n <= ENTRIES
  }

  function LogAfter(log: Log, e: Event): Log {
    match e
    case GetAttr(path, answer) =>
      if Held(log, path) || answer.None? then log else log + [Entry(path, answer.value, true)]
    case Remove(path) =>
      if Held(log, path) then var n := Newest(log, path); log[n := log[n].(live := false)] else log
  }

  function LogReported(log: Log, path: string, answer: Option<Stat>): Option<Stat> {
    if Held(log, path) then Some(log[Newest(log, path)].attr) else answer
  }

  function LogRun(events: seq<Event>): Log {
    if events == [] then [] else LogAfter(LogRun(events[..|events| - 1]), events[|events| - 1])
  }

  // ---------------------------------------------------------------- the ring refines the log

  /** The store that slot `i` holds, when there have been `len`; negative when none. */
  function Occupant(len: nat, i: nat): int
    requires i < ENTRIES
  {
    if i < len % ENTRIES then len - len % ENTRIES + i else len - len % ENTRIES - ENTRIES + i
  }

  ghost predicate SlotOf(s: State, log: Log, i: nat)
    requires |s.slots| == ENTRIES && i < ENTRIES
  {
    var n := Occupant(|log|, i);
    if n < 0 then !s.slots[i].valid
    else n < |log| && s.slots[i].valid == log[n].live && s.slots[i].path == Clip(log[n].path)
         && s.slots[i].attr == log[n].attr
  }

  /** A live entry that is still in the ring is the newest of its path. */
  ghost predicate NewestAt(log: Log, n: nat)
    requires n < |log|
  {
    log[n].live && |log| - n <= ENTRIES ==> forall m | n < m < |log| :: log[m].path != log[n].path
  }

  ghost predicate Short(path: string) { |path| < PATHLEN }

  ghost predicate Refines(s: State, log: Log) {
    && Ring(s) && s.last == |log| % ENTRIES
    && (forall i | 0 <= i < ENTRIES :: SlotOf(s, log, i))
    && (forall n | 0 <= n < |log| :: NewestAt(log, n))
    && (forall n | 0 <= n < |log| :: Short(log[n].path))
  }

  lemma OccupantOf(len: nat, i: nat)
    requires i < ENTRIES
    ensures Occupant(len, i) < len && len - Occupant(len, i) <= ENTRIES
    ensures Occupant(len, i) >= 0 ==> Occupant(len, i) % ENTRIES == i
  {
  }

  lemma SlotFor(len: nat, n: nat)
    requires n < len && len - n <= ENTRIES
    ensures Occupant(len, n % ENTRIES) == n
  {
  }

  /** The slot that a lookup finds holds the newest store of the path. */
  lemma FindIsNewest(s: State, log: Log, path: string)
    requires Refines(s, log)
    ensures Find(s, path) < ENTRIES <==> Short(path) && Held(log, path)
    ensures var k := Find(s, path);
            k < ENTRIES ==> Occupant(|log|, k) == Newest(log, path) && s.slots[k].attr == log[Newest(log, path)].attr
  {
    var k, n := Find(s, path), Newest(log, path);
    if k < ENTRIES {
      OccupantOf(|log|, k);
      assert SlotOf(s, log, k);
      assert NewestAt(log, Occupant(|log|, k)) && Short(log[Occupant(|log|, k)].path);
    }
    if Held(log, path) {
      SlotFor(|log|, n);
      assert SlotOf(s, log, n % ENTRIES) && Short(log[n].path);
      assert Hits(s.slots[n % ENTRIES], path);
    }
  }

  lemma OccupantNext(len: nat, i: nat)
    requires i < ENTRIES
    ensures Occupant(len + 1, i) == if i == len % ENTRIES then len else Occupant(len, i)
  {
  }

  lemma StoreSlots(s: State, log: Log, path: string, attr: Stat)
    requires Refines(s, log) && Short(path)
    ensures forall i | 0 <= i < ENTRIES :: SlotOf(Stored(s, path, attr), log + [Entry(path, attr, true)], i)
  {
    var t, more := Stored(s, path, attr), log + [Entry(path, attr, true)];
    forall i | 0 <= i < ENTRIES ensures SlotOf(t, more, i) {
      assert SlotOf(s, log, i);
      OccupantNext(|log|, i);
    }
  }

  /** No entry of the path is held, so a new one is the only live one in the ring. */
  lemma StoreNewest(log: Log, e: Entry)
    requires !Held(log, e.path) && forall n | 0 <= n < |log| :: NewestAt(log, n)
    ensures forall n | 0 <= n < |log| :: NewestAt(log + [e], n)
  {
    var k := Newest(log, e.path);
    forall n | 0 <= n < |log| ensures NewestAt(log + [e], n) {
      assert NewestAt(log, n);
      assert n != k ==> log[n].path != e.path || n < k;
    }
  }

  lemma StoreRefines(s: State, log: Log, path: string, attr: Stat)
    requires Refines(s, log) && Short(path) && !Held(log, path)
    ensures Refines(Stored(s, path, attr), log + [Entry(path, attr, true)])
  {
    var more := log + [Entry(path, attr, true)];
    StoreSlots(s, log, path, attr);
    StoreNewest(log, Entry(path, attr, true));
    forall n | 0 <= n < |more| ensures NewestAt(more, n) && Short(more[n].path) {
      assert n < |log| ==> Short(log[n].path);
    }
  }

  lemma RemoveRefines(s: State, log: Log, path: string)
    requires Refines(s, log) && Short(path)
    ensures Refines(Removed(s, path), LogAfter(log, Remove(path)))
  {
    FindIsNewest(s, log, path);
    if Held(log, path) {
      var t, n := Removed(s, path), Newest(log, path);
      var less := LogAfter(log, Remove(path));
      forall i | 0 <= i < ENTRIES ensures SlotOf(t, less, i) {
        assert SlotOf(s, log, i);
        OccupantOf(|log|, i);
      }
      forall m | 0 <= m < |less| ensures NewestAt(less, m) && Short(less[m].path) {
        assert NewestAt(log, m) && Short(log[m].path);
      }
    }
  }

  ghost predicate ShortPaths(events: seq<Event>) {
    forall i | 0 <= i < |events| :: Short(events[i].path)
  }

  /** Every run on short paths keeps the ring and the log together. */
  lemma {:induction false} RunRefines(s: State, events: seq<Event>)
    requires Ring(s) && s == Init(s) && ShortPaths(events)
    ensures Refines(Run(s, events), LogRun(events))
  {
    if events == [] {
      forall i | 0 <= i < ENTRIES ensures SlotOf(s, [], i) {
        assert s.slots[i] == Init(s).slots[i];
      }
    } else {
      var front, e := events[..|events| - 1], events[|events| - 1];
      RunRefines(s, front);
      assert Short(e.path);
      var t, log := Run(s, front), LogRun(front);
      FindIsNewest(t, log, e.path);
      if e.Remove? {
        RemoveRefines(t, log, e.path);
      } else if !Held(log, e.path) && e.answer.Some? {
        StoreRefines(t, log, e.path, e.answer.value);
      }
    }
  }

  /**
   * After any run on short paths, a getattr reports the newest stored answer when that store is one of the
   * last 64 and was not removed since, and calls through otherwise.
   */
  lemma CacheIsTransparent(s: State, events: seq<Event>, path: string, answer: Option<Stat>)
    requires Ring(s) && s == Init(s) && ShortPaths(events) && Short(path)
    ensures Reported(Run(s, events), path, answer) == LogReported(LogRun(events), path, answer)
    ensures Find(Run(s, events), path) < ENTRIES <==> Held(LogRun(events), path)
  {
    RunRefines(s, events);
    FindIsNewest(Run(s, events), LogRun(events), path);
  }

  /** No path is in two valid slots. */
  lemma {:induction false} OneSlotEach(s: State, events: seq<Event>, i: nat, j: nat)
    requires Ring(s) && s == Init(s) && ShortPaths(events) && i < ENTRIES && j < ENTRIES
    requires var t := Run(s, events);
             t.slots[i].valid && t.slots[j].valid && t.slots[i].path == t.slots[j].path
    ensures i == j
  {
    RunRefines(s, events);
    var t, log := Run(s, events), LogRun(events);
    OccupantOf(|log|, i);
    OccupantOf(|log|, j);
    assert SlotOf(t, log, i) && SlotOf(t, log, j);
    var n, m := Occupant(|log|, i), Occupant(|log|, j);
    assert NewestAt(log, n) && NewestAt(log, m) && Short(log[n].path) && Short(log[m].path);
  }

  /** No slot in use holds a path of 128 characters or more. */
  ghost predicate Clipped(s: State) {
    forall i | 0 <= i < |s.slots| && s.slots[i].valid :: Short(s.slots[i].path)
  }

  lemma {:induction false} RunClipped(s: State, events: seq<Event>)
    requires Ring(s) && s == Init(s)
    ensures Clipped(Run(s, events))
  {
    if events == [] {
      forall i | 0 <= i < ENTRIES ensures !s.slots[i].valid {
        assert s.slots[i] == Init(s).slots[i];
      }
    } else {
      RunClipped(s, events[..|events| - 1]);
      AfterClipped(Run(s, events[..|events| - 1]), events[|events| - 1]);
    }
  }

  lemma AfterClipped(s: State, e: Event)
    requires Ring(s) && Clipped(s)
    ensures Clipped(After(s, e))
  {
    assert Short(Clip(e.path));
  }

  /** After any run at all, a path of 128 characters or more is not found: every getattr of it calls through. */
  lemma LongPathNeverHits(s: State, events: seq<Event>, path: string, answer: Option<Stat>)
    requires Ring(s) && s == Init(s) && !Short(path)
    ensures Find(Run(s, events), path) == ENTRIES && Reported(Run(s, events), path, answer) == answer
  {
    var t := Run(s, events);
    RunClipped(s, events);
    assert forall i | 0 <= i < ENTRIES :: !Hits(t.slots[i], path);
  }

  /**
   * But its answer is stored under its first 127 characters. After any run it is reported for that path from
   * then on, unless an earlier slot than the one stored in holds that path: then that slot's is reported.
   */
  lemma LongPathAnswersForAnother(s: State, events: seq<Event>, path: string, attr: Stat, answer: Option<Stat>)
    requires Ring(s) && s == Init(s) && !Short(path)
    ensures var t := Run(s, events);
            var k := Find(t, Clip(path));
            Reported(Run(s, events + [GetAttr(path, Some(attr))]), Clip(path), answer)
            == if k < t.last then Some(t.slots[k].attr) else Some(attr)
  {
    var t, more := Run(s, events), events + [GetAttr(path, Some(attr))];
    LongPathNeverHits(s, events, path, answer);
    assert more[..|more| - 1] == events;
    assert Run(s, more) == Stored(t, path, attr);
    StoredReports(t, path, attr, answer);
  }

  lemma StoredReports(t: State, path: string, attr: Stat, answer: Option<Stat>)
    requires Ring(t)
    ensures var k := Find(t, Clip(path));
            Reported(Stored(t, path, attr), Clip(path), answer)
            == if k < t.last then Some(t.slots[k].attr) else Some(attr)
  {
    var u, name, k := Stored(t, path, attr), Clip(path), Find(t, Clip(path));
    assert forall i | 0 <= i < ENTRIES && i != t.last :: u.slots[i] == t.slots[i];
    var first := if k < t.last then k else t.last;
    assert Hits(u.slots[first], name) && forall i | 0 <= i < first :: !Hits(u.slots[i], name);
    assert Find(u, name) == first;
  }

  // ---------------------------------------------------------------- the code

  datatype Settings = Settings(cacheAttr: bool, spoofUids: bool, spoofGids: bool, spoofPerms: bool, permbits: nat)

  /** The overriding at the end of `corefs_getattr`, with `permbits` that are permission bits only. */
  function Spoofed(g: Settings, st: Stat, uid: int, gid: int): Stat {
    var a := if g.spoofUids then st.(uid := uid) else st;
    var b := if g.spoofGids then a.(gid := gid) else a;
    if g.spoofPerms then b.(perms := g.permbits) else b
  }

  /** Each of the three is overridden where that is configured; the kind bits and all the rest stay. */
  ghost predicate Overridden(g: Settings, attr: Stat, uid: int, gid: int, st: Stat) {
    && st.uid == (if g.spoofUids then uid else attr.uid)
    && st.gid == (if g.spoofGids then gid else attr.gid)
    && st.perms == (if g.spoofPerms then g.permbits else attr.perms)
    && st.kind == attr.kind && st.rest == attr.rest
  }

  method Spoof(g: Settings, attr: Stat, uid: int, gid: int) returns (st: Stat)
    ensures st == Spoofed(g, attr, uid, gid)
    ensures Overridden(g, attr, uid, gid, st)
  {
    st := attr;
    if g.spoofUids { st := st.(uid := uid); }
    if g.spoofGids { st := st.(gid := gid); }
    if g.spoofPerms { st := st.(perms := g.permbits); }
  }

  class Cache {
    const slots: array<Slot>
    var last: nat
    var initialized: bool

    ghost predicate Valid()
      reads this, slots
    {
      slots.Length == ENTRIES && (initialized ==> last < ENTRIES)
    }

    ghost function Contents(): State
      requires Valid()
      reads this, slots
    {
      if initialized then State(slots[..], last) else Init(State(slots[..], last))
    }

    constructor ()
      ensures Valid() && Contents() == Init(Contents()) && fresh(slots)
    {
      slots := new Slot[ENTRIES](_ => Slot("", false, Stat(0, 0, 0, 0, [])));
      last, initialized := 0, false;
    }

    method Initialize()
      requires Valid()
      modifies this, slots
      ensures Valid() && initialized && Contents() == Init(old(State(slots[..], last)))
      ensures last == 0 && forall i | 0 <= i < 64 :: !slots[i].valid
    {
      last, initialized := 0, true;
      for i := 0 to ENTRIES
        invariant initialized && last == 0
        invariant forall j | 0 <= j < ENTRIES :: slots[j] == old(slots[j]).(valid := if j < i then false else old(slots[j].valid))
      {
        slots[i] := slots[i].(valid := false);
      }
      assert slots[..] == Init(old(State(slots[..], last))).slots;
    }

    method Ready()
      requires Valid()
      modifies this, slots
      ensures Valid() && initialized && Contents() == old(Contents())
    {
      if !initialized {
        Initialize();
      }
    }

    /** The slot that holds the path, or 64. */
    method Scan(path: string) returns (i: nat)
      requires Valid() && initialized
      ensures i == Find(Contents(), path)
    {
      i := 0;
      while i < ENTRIES
        invariant i <= ENTRIES && Find(Contents(), path) == FindFrom(slots[..], path, i)
      {
        if slots[i].valid && slots[i].path == path {
          return;
        }
        i := i + 1;
      }
    }

    method Lookup(path: string, was: Stat) returns (found: bool, attr: Stat)
      requires Valid()
      modifies this, slots
      ensures Valid() && Contents() == old(Contents())
      ensures var k := Find(Contents(), path);
              found == (k < ENTRIES) && attr == if found then Contents().slots[k].attr else was
      ensures NoHit(Contents().slots, path) ==> !found && attr == was
      ensures forall i: nat | FirstHit(Contents().slots, path, i) :: found && attr == Contents().slots[i].attr
    {
      Ready();
      FindIs(Contents(), path);
      var i := Scan(path);
      found := i < ENTRIES;
      attr := if found then slots[i].attr else was;
    }

    method RemovePath(path: string) returns (found: bool)
      requires Valid()
      modifies this, slots
      ensures Valid() && Contents() == Removed(old(Contents()), path)
      ensures found == (Find(old(Contents()), path) < ENTRIES)
      ensures Clears(old(Contents()), Contents(), path) && (found <==> !NoHit(old(Contents()).slots, path))
    {
      Ready();
      ghost var s := Contents();
      RemovedIs(s, path);
      FindIs(s, path);
      var i := Scan(path);
      found := i < ENTRIES;
      if found {
        slots[i] := slots[i].(valid := false);
        assert slots[..] == Removed(s, path).slots;
      }
    }

    method Store(path: string, attr: Stat)
      requires Valid()
      modifies this, slots
      ensures Valid() && Ring(old(Contents())) && Contents() == Stored(old(Contents()), path, attr)
      ensures Puts(old(Contents()), Contents(), path, attr)
    {
      Ready();
      ghost var s := Contents();
      slots[last] := Slot(Clip(path), true, attr);
      assert slots[..] == Stored(s, path, attr).slots;
      last := (last + 1) % ENTRIES;
    }

    /** The first half of `corefs_getattr`: from the cache, or from the underlying call, which is then stored. */
    method Fetch(cacheAttr: bool, path: string, answer: Option<Stat>) returns (st: Option<Stat>)
      requires Valid()
      modifies this, slots
      ensures Valid() && Ring(old(Contents()))
      ensures st == if cacheAttr then Reported(old(Contents()), path, answer) else answer
      ensures Contents() == if cacheAttr then After(old(Contents()), GetAttr(path, answer)) else old(Contents())
    {
      if !cacheAttr {
        return answer;
      }
      var found, attr := Lookup(path, Stat(0, 0, 0, 0, []));
      if found {
        return Some(attr);
      }
      if answer.Some? {
        Store(path, answer.value);
      }
      return answer;
    }

    /**
     * `corefs_getattr`: `res` is what the underlying call returns and `answer` the attributes it fills in;
     * the spoofing touches what is reported, never what is stored.
     */
    method GetAttributes(g: Settings, path: string, res: int, answer: Stat, uid: int, gid: int)
      returns (ret: int, st: Stat)
      requires Valid()
      modifies this, slots
      ensures Valid() && Ring(old(Contents()))
      ensures var a := if res < 0 then None else Some(answer);
              && Contents() == (if g.cacheAttr then After(old(Contents()), GetAttr(path, a)) else old(Contents()))
              && var r := if g.cacheAttr then Reported(old(Contents()), path, a) else a;
                 ret == (if r.None? then res else 0) && (r.Some? ==> st == Spoofed(g, r.value, uid, gid))
      ensures forall i: nat | g.cacheAttr && FirstHit(old(Contents()).slots, path, i) ::
                && ret == 0 && Overridden(g, old(Contents()).slots[i].attr, uid, gid, st)
                && Contents() == old(Contents())
      ensures !g.cacheAttr || NoHit(old(Contents()).slots, path) ==>
                if res < 0 then ret == res && Contents() == old(Contents())
                else ret == 0 && Overridden(g, answer, uid, gid, st) &&
                     if g.cacheAttr then Puts(old(Contents()), Contents(), path, answer)
                     else Contents() == old(Contents())
    {
      ghost var s := Contents();
      FindIs(s, path);
      var r := Fetch(g.cacheAttr, path, if res < 0 then None else Some(answer));
      if r.None? {
        return res, answer;
      }
      st := Spoof(g, r.value, uid, gid);
      ret := 0;
    }
  }
}
