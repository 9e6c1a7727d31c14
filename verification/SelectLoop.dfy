/** The select loop of the single-process server: slots, descriptor set, high-water marks and context list. */
module SelectLoop {
  import opened Decimal
  import opened LruSpec
  import opened LruList
  import opened Sequences

  const FD_SETSIZE := 1024
  const FDLEN := 10

  /** A client context; `sock` is the descriptor it talks to. */
  datatype Context = Context(sock: nat)

  /** `memset` and `sprintf("%d")` into the ten-byte key. */
  function FdKey(fd: nat): (k: Key)
    requires fd < FD_SETSIZE
    ensures |k| == FDLEN
  {
    DigitCountOf(fd);
    Padded(Digits(fd))
  }

  /** The decimal digits, and zeros behind them. */
  lemma FdKeyIs(fd: nat)
    requires fd < FD_SETSIZE
    ensures var s := Printed(fd);
            |s| <= 10 == |FdKey(fd)| && forall i | 0 <= i < 10 :: FdKey(fd)[i] == if i < |s| then s[i] as int else 0
  {
    DigitCountOf(fd);
  }

  function Padded(s: string): (k: Key)
    requires |s| <= FDLEN
    ensures |k| == FDLEN && forall i | 0 <= i < FDLEN :: k[i] == if i < |s| then s[i] as int else 0
  {
    seq(FDLEN, i requires 0 <= i => if i < |s| then s[i] as int else 0)
  }

  lemma DigitCountOf(fd: nat)
    requires fd < FD_SETSIZE
    ensures |Digits(fd)| <= FDLEN
  {
    Pow10Values();
    DigitCount(fd, 9);
  }

  /** Different descriptors have different keys. */
  lemma FdKeyInjective(a: nat, b: nat)
    requires a < FD_SETSIZE && b < FD_SETSIZE && FdKey(a) == FdKey(b)
    ensures a == b
  {
    DigitCountOf(a);
    DigitCountOf(b);
    PaddedInjective(Digits(a), Digits(b));
    ValueOfDigits(a);
    ValueOfDigits(b);
  }

  lemma PaddedInjective(s: string, t: string)
    requires |s| <= FDLEN && |t| <= FDLEN && Padded(s) == Padded(t)
    requires (forall i | 0 <= i < |s| :: IsDigit(s[i])) && forall i | 0 <= i < |t| :: IsDigit(t[i])
    ensures s == t
  {
    var m := if |s| < |t| then |s| else |t|;
    if m < FDLEN {
      assert Padded(s)[m] == Padded(t)[m];
      assert m < |s| ==> IsDigit(s[m]);
      assert m < |t| ==> IsDigit(t[m]);
    }
    forall i | 0 <= i < |s| ensures s[i] == t[i] {
      assert Padded(s)[i] == Padded(t)[i];
    }
  }

  function ContextEntry(fd: nat): Entry<Context>
    requires fd < FD_SETSIZE
  {
    Entry(FdKey(fd), Context(fd))
  }

  ghost predicate Descriptors(fds: set<nat>) {
    forall fd | fd in fds :: fd < FD_SETSIZE
  }

  // ---------------------------------------------------------------- slots

  /** The occupied slots hold distinct descriptors, and exactly those of `fds`. */
  ghost predicate SlotsFor(c: seq<int>, fds: set<nat>) {
    && |c| == FD_SETSIZE && Descriptors(fds)
    && (forall i, j | 0 <= i < j < |c| && c[i] >= 0 :: c[i] != c[j])
    && (forall i | 0 <= i < |c| && c[i] >= 0 :: c[i] in fds)
    && (forall fd | fd in fds :: fd in c)
  }

  ghost function Elements(c: seq<nat>): set<nat> {
    set x | x in c
  }

  lemma {:induction false} DistinctCount(c: seq<nat>)
    requires Distinct(c)
    ensures |Elements(c)| == |c|
  {
    if c != [] {
      var front, last := c[..|c| - 1], c[|c| - 1];
      DistinctCount(front);
      assert Elements(c) == Elements(front) + {last};
      assert last !in front;
    }
  }

  lemma SubsetCount(a: set<nat>, b: set<nat>)
    requires a <= b
    ensures |a| <= |b| && (|a| == |b| ==> a == b)
  {
    assert b == a + (b - a);
  }

  /** With fewer clients than slots, the search for a free slot succeeds. */
  lemma FreeSlot(c: seq<int>, fds: set<nat>)
    requires SlotsFor(c, fds) && |fds| < FD_SETSIZE
    ensures exists i :: 0 <= i < FD_SETSIZE && c[i] < 0
  {
    if forall i | 0 <= i < FD_SETSIZE :: c[i] >= 0 {
      var taken: seq<nat> := c;
      DistinctCount(taken);
      SubsetCount(Elements(taken), fds);
    }
  }

  /** A pass over the slots that has come to slot `i`, having served the due descriptors before it. */
  ghost predicate ServedUpTo(c: seq<int>, due: set<nat>, served: seq<nat>, i: nat) {
    && i <= |c| && Distinct(served) && Elements(served) <= due
    && (forall j | 0 <= j < i && c[j] in due :: c[j] in served)
    && (forall x | x in served :: x in c[..i])
  }

  lemma ServedNext(c: seq<int>, fds: set<nat>, due: set<nat>, served: seq<nat>, i: nat)
    requires SlotsFor(c, fds) && due <= fds && ServedUpTo(c, due, served, i) && i < |c|
    ensures c[i] !in due ==> ServedUpTo(c, due, served, i + 1)
    ensures c[i] in due ==> var fd: nat := c[i];
                            ServedUpTo(c, due, served + [fd], i + 1) && Elements(served + [fd]) == Elements(served) + {fd}
  {
    assert c[..i + 1] == c[..i] + [c[i]];
    if c[i] in due {
      var fd: nat := c[i];
      var t := served + [fd];
      forall j | 0 <= j < i ensures c[j] != c[i] {}
      assert c[i] !in c[..i];
      forall j | 0 <= j < i + 1 && c[j] in due ensures c[j] in t {
        if j < i {
          assert c[j] in served;
        } else {
          assert t[|served|] == c[i];
        }
      }
    }
  }

  /** They were served in the order of their slots, which are `at`. */
  ghost predicate InSlotOrder(c: seq<int>, served: seq<nat>, at: seq<nat>, i: nat) {
    && |at| == |served|
    && (forall k | 0 <= k < |at| :: at[k] < i && at[k] < |c| && c[at[k]] == served[k])
    && (forall j, k | 0 <= j < k < |at| :: at[j] < at[k])
  }

  /** Mentioned to look into the order of these. */
  ghost predicate Served(served: seq<nat>) { true }

  /** The same, but spelled out to the verifier only where `Served(served)` is mentioned. */
  ghost predicate Ordered(c: seq<int>, served: seq<nat>, i: nat) {
    forall t {:trigger Served(t)} | t == served :: exists at: seq<nat> :: InSlotOrder(c, t, at, i)
  }

  lemma OrderedNext(c: seq<int>, served: seq<nat>, i: nat)
    requires Ordered(c, served, i) && i < |c|
    ensures Ordered(c, served, i + 1)
    ensures c[i] >= 0 ==> Ordered(c, served + [c[i]], i + 1)
  {
    assert Served(served);
    var at: seq<nat> :| InSlotOrder(c, served, at, i);
    assert InSlotOrder(c, served, at, i + 1);
    if c[i] >= 0 {
      assert InSlotOrder(c, served + [c[i]], at + [i], i + 1);
    }
  }

  lemma OrderedAll(c: seq<int>, served: seq<nat>, i: nat) returns (at: seq<nat>)
    requires Ordered(c, served, i) && i <= |c|
    ensures InSlotOrder(c, served, at, |c|)
  {
    assert Served(served);
    at :| InSlotOrder(c, served, at, i);
  }

  lemma NothingServed(c: seq<int>)
    ensures Ordered(c, [], 0)
  {
    assert InSlotOrder(c, [], [], 0);
  }

  /** The same pass, with what it has cleared from the read set and how many are still to come. */
  ghost predicate PassAt(c: seq<int>, due: set<nat>, gone: set<nat>, before: set<nat>, now: set<nat>,
                         served: seq<nat>, left: int, i: nat)
  {
    ServedUpTo(c, due, served, i) && left == |due| - |served| && now == before - Elements(served) * gone
  }

  lemma PassServes(c: seq<int>, fds: set<nat>, due: set<nat>, gone: set<nat>, before: set<nat>, now: set<nat>,
                   served: seq<nat>, left: int, i: nat, fd: nat)
    requires SlotsFor(c, fds) && due <= fds && PassAt(c, due, gone, before, now, served, left, i)
    requires i < |c| && fd == c[i] && fd in due
    ensures PassAt(c, due, gone, before, if fd in gone then now - {fd} else now, served + [fd], left - 1, i + 1)
  {
    ServedNext(c, fds, due, served, i);
  }

  ghost predicate SameFrom(c: seq<int>, d: seq<int>, i: nat) {
    |c| == |d| && forall j | i <= j < |c| :: c[j] == d[j]
  }

  /** The loop may stop when none is left or when it has passed every occupied slot. */
  lemma PassEnds(c: seq<int>, fds: set<nat>, due: set<nat>, gone: set<nat>, before: set<nat>, now: set<nat>,
                 served: seq<nat>, left: int, i: nat)
    requires SlotsFor(c, fds) && due <= fds && PassAt(c, due, gone, before, now, served, left, i)
    requires left <= 0 || forall j | i <= j < |c| :: c[j] < 0
    ensures Elements(served) == due && now == before - due * gone
  {
    AllServed(served, due);
    if left > 0 {
      forall fd | fd in due ensures fd in served {
        var j :| 0 <= j < |c| && c[j] == fd;
      }
    }
  }

  lemma AllServed(served: seq<nat>, due: set<nat>)
    requires Distinct(served) && Elements(served) <= due
    ensures |served| <= |due| && (|due| <= |served| ==> Elements(served) == due)
  {
    DistinctCount(served);
    SubsetCount(Elements(served), due);
  }

  lemma SlotTaken(c: seq<int>, fds: set<nat>, i: nat, fd: nat)
    requires SlotsFor(c, fds) && i < FD_SETSIZE && c[i] < 0 && fd < FD_SETSIZE && fd !in fds
    ensures SlotsFor(c[i := fd], fds + {fd})
  {
    var d := c[i := fd];
    forall x | x in fds + {fd} ensures x in d {
      if x == fd {
        assert d[i] == fd;
      } else {
        var j :| 0 <= j < |c| && c[j] == x;
        assert d[j] == x;
      }
    }
  }

  lemma SlotFreed(c: seq<int>, fds: set<nat>, i: nat)
    requires SlotsFor(c, fds) && i < FD_SETSIZE && c[i] >= 0
    ensures SlotsFor(c[i := -1], fds - {c[i]})
  {
    var d := c[i := -1];
    forall x | x in fds - {c[i]} ensures x in d {
      var j :| 0 <= j < |c| && c[j] == x;
      assert d[j] == x;
    }
  }

  // ---------------------------------------------------------------- contexts

  /** One context per client, under the client's key and with the client's descriptor. */
  ghost predicate ContextsFor(s: seq<Entry<Context>>, fds: set<nat>)
    requires Descriptors(fds)
  {
    && Distinct(s)
    && (forall e | e in s :: e.data.sock in fds && e == ContextEntry(e.data.sock))
    && (forall fd | fd in fds :: ContextEntry(fd) in s)
  }

  lemma ContextFound(s: seq<Entry<Context>>, fds: set<nat>, fd: nat, exact: bool)
    requires Descriptors(fds) && fd in fds && ContextsFor(s, fds)
    ensures var i := Find(s, FdKey(fd), exact);
            i < |s| && s[i] == ContextEntry(fd)
  {
    var i := Find(s, FdKey(fd), exact);
    var j :| 0 <= j < |s| && s[j] == ContextEntry(fd);
    assert Matches(s[j], FdKey(fd), exact);
    assert s[i] in s;
    assert |s[i].key| == FDLEN && s[i].key == FdKey(fd);
    FdKeyInjective(s[i].data.sock, fd);
  }

  lemma ContextEntered(s: seq<Entry<Context>>, fds: set<nat>, fd: nat)
    requires Descriptors(fds) && fd < FD_SETSIZE && fd !in fds && ContextsFor(s, fds)
    ensures ContextsFor(Inserted(s, FdKey(fd), Context(fd)), fds + {fd})
  {
    var t := Inserted(s, FdKey(fd), Context(fd));
    assert t[0] == ContextEntry(fd) && t[1..] == s;
    forall x | x in fds ensures ContextEntry(x) in t {
      assert ContextEntry(x) in s;
    }
  }

  lemma ContextTouched(s: seq<Entry<Context>>, fds: set<nat>, fd: nat)
    requires Descriptors(fds) && fd in fds && ContextsFor(s, fds)
    ensures ContextsFor(Touched(s, FdKey(fd)), fds) && |Touched(s, FdKey(fd))| == |s|
  {
    ContextFound(s, fds, fd, true);
    var i := Find(s, FdKey(fd), true);
    ContextDropped(s, fds, fd, i);
    var t, d := Touched(s, FdKey(fd)), Dropped(s, i);
    assert t == [ContextEntry(fd)] + d && t[0] == ContextEntry(fd) && t[1..] == d;
    forall x | x in fds ensures ContextEntry(x) in t {
      assert x != fd ==> ContextEntry(x) in d;
    }
  }

  lemma ContextDropped(s: seq<Entry<Context>>, fds: set<nat>, fd: nat, i: nat)
    requires Descriptors(fds) && fd in fds && ContextsFor(s, fds) && i < |s| && s[i] == ContextEntry(fd)
    ensures ContextsFor(Dropped(s, i), fds - {fd}) && ContextEntry(fd) !in Dropped(s, i)
  {
    var d := Dropped(s, i);
    DistinctLess(s, i);
    forall e | e in d ensures e.data.sock in fds - {fd} && e == ContextEntry(e.data.sock) {
      assert e in s;
    }
    forall x | x in fds - {fd} ensures ContextEntry(x) in d {
      var j :| 0 <= j < |s| && s[j] == ContextEntry(x);
      assert s[j].data.sock == x && j != i;
      assert s[j] == d[if j < i then j else j - 1];
    }
  }

  lemma ContextLeft(s: seq<Entry<Context>>, fds: set<nat>, fd: nat)
    requires Descriptors(fds) && fd in fds && ContextsFor(s, fds)
    ensures ContextsFor(Removed(s, FdKey(fd)), fds - {fd})
  {
    ContextFound(s, fds, fd, false);
    ContextDropped(s, fds, fd, Find(s, FdKey(fd), false));
  }

  /** There are as many contexts as clients. */
  lemma {:induction false} ContextCount(s: seq<Entry<Context>>, fds: set<nat>)
    requires Descriptors(fds) && ContextsFor(s, fds)
    ensures |s| == |fds|
  {
    if s == [] {
      assert fds == {};
    } else {
      var fd := s[0].data.sock;
      assert s[0] in s;
      ContextDropped(s, fds, fd, 0);
      ContextCount(Dropped(s, 0), fds - {fd});
    }
  }

  // ---------------------------------------------------------------- the loop

  /** The slot array, the read set and the two high-water marks agree. */
  ghost predicate SlotState(listenfd: nat, c: seq<int>, readSet: set<nat>, maxfd: int, maxClient: int) {
    && listenfd < FD_SETSIZE && listenfd in readSet
    && SlotsFor(c, readSet - {listenfd})
    && -1 <= maxClient < FD_SETSIZE
    && (forall i | 0 <= i < FD_SETSIZE && c[i] >= 0 :: i <= maxClient)
    && (forall fd | fd in readSet :: fd <= maxfd)
  }

  /** Mentioned to look into what is known of the contexts of these clients. */
  ghost predicate At(fds: set<nat>) { true }

  class Server {
    const listenfd: nat
    const clients: array<int>
    const contexts: List<Context>
    var readSet: set<nat>
    var maxfd: int
    var maxClient: int

    /** The descriptors of connected clients. */
    ghost function Clients(): set<nat>
      reads this
    {
      readSet - {listenfd}
    }

    ghost predicate SlotsOk()
      reads this, clients
    {
      SlotState(listenfd, clients[..], readSet, maxfd, maxClient)
    }

    ghost predicate ContextsAre(fds: set<nat>)
      reads contexts, contexts.repr, contexts.nodes
    {
      Descriptors(fds) && contexts.Valid() && ContextsFor(contexts.Contents(), fds)
    }

    /** The same, but spelled out to the verifier only where `At(fds)` is mentioned. */
    ghost predicate ContextsOk(fds: set<nat>)
      reads contexts, contexts.repr, contexts.nodes
    {
      forall f {:trigger At(f)} | f == fds :: ContextsAre(f)
    }

    /** Slots, read set, marks and context list agree. */
    ghost predicate Valid()
      reads this, clients, contexts, contexts.repr, contexts.nodes
    {
      SlotsOk() && ContextsOk(Clients())
    }

    /** The state before the first iteration. */
    constructor (listenfd: nat)
      requires listenfd < FD_SETSIZE
      ensures Valid() && readSet == {listenfd} && fresh(clients) && fresh(contexts) && fresh(contexts.repr)
    {
      this.listenfd := listenfd;
      clients := new int[FD_SETSIZE](_ => -1);
      contexts := new List<Context>();
      readSet := {listenfd};
      maxfd := listenfd;
      maxClient := -1;
      new;
      assert Clients() == {} && ContextsAre({});
    }

    /** `full` is when there are as many contexts as the list takes: then the insert makes its chain a cycle. */
    method EnterContext(fd: nat, ghost fds: set<nat>) returns (full: bool)
      requires ContextsOk(fds) && fd < FD_SETSIZE && fd !in fds
      modifies contexts, contexts.repr
      ensures fresh(contexts.repr - old(contexts.repr)) && old(contexts.repr) <= contexts.repr
      ensures |fds| <= MAX_LIST_LENGTH && (full <==> |fds| == MAX_LIST_LENGTH)
      ensures if full then contexts.Looped() else ContextsOk(fds + {fd})
    {
      assert At(fds);
      ghost var s := contexts.Contents();
      ContextCount(s, fds);
      ContextEntered(s, fds, fd);
      full := contexts.head.alength == MAX_LIST_LENGTH;
      var ret := contexts.Insert(FdKey(fd), Context(fd));
      assert !full ==> ContextsAre(fds + {fd});
    }

    method FindContext(fd: nat, ghost fds: set<nat>) returns (ctx: Context)
      requires ContextsOk(fds) && fd in fds
      modifies contexts, contexts.repr
      ensures contexts.repr == old(contexts.repr) && ContextsOk(fds)
      ensures ctx == Context(fd)
    {
      assert At(fds);
      ghost var s := contexts.Contents();
      ContextFound(s, fds, fd, true);
      ContextTouched(s, fds, fd);
      var ret: int;
      ret, ctx := contexts.Get(FdKey(fd), Context(0));
      assert ContextsAre(fds);
    }

    method LeaveContext(fd: nat, ghost fds: set<nat>)
      requires ContextsOk(fds) && fd in fds
      modifies contexts, contexts.repr
      ensures contexts.repr == old(contexts.repr) && ContextsOk(fds - {fd})
    {
      assert At(fds);
      ghost var s := contexts.Contents();
      ContextLeft(s, fds, fd);
      forall n | n in contexts.nodes ensures FDLEN <= |n.addr| {
        var i :| 0 <= i < |contexts.nodes| && contexts.nodes[i] == n;
        assert s[i] in s && s[i].key == n.addr;
      }
      var ret := contexts.Remove(FdKey(fd));
      assert ContextsAre(fds - {fd});
    }

    /** The first free slot, or FD_SETSIZE, in which case the connection is closed. */
    method FindSlot() returns (i: nat)
      requires clients.Length == FD_SETSIZE
      ensures i <= FD_SETSIZE && (i < FD_SETSIZE ==> clients[i] < 0)
      ensures forall j | 0 <= j < i :: clients[j] >= 0
    {
      i := 0;
      while i < FD_SETSIZE && clients[i] >= 0
        invariant 0 <= i <= FD_SETSIZE
        invariant forall j | 0 <= j < i :: clients[j] >= 0
      {
        i := i + 1;
      }
    }

    method TakeSlot(i: nat, connfd: nat)
      requires SlotsOk() && i < FD_SETSIZE && clients[i] < 0 && connfd < FD_SETSIZE && connfd !in readSet
      modifies this, clients
      ensures SlotsOk() && readSet == old(readSet) + {connfd} && clients[..] == old(clients[..])[i := connfd]
    {
      ghost var c, fds := clients[..], Clients();
      SlotTaken(c, fds, i, connfd);
      clients[i] := connfd;
      assert clients[..] == c[i := connfd];
      readSet := readSet + {connfd};
      assert Clients() == fds + {connfd};
      if connfd > maxfd {
        maxfd := connfd;
      }
      if i > maxClient {
        maxClient := i;
      }
    }

    method ClearSlot(i: nat)
      requires SlotsOk() && i < FD_SETSIZE && clients[i] >= 0
      modifies this, clients
      ensures SlotsOk() && readSet == old(readSet) - {old(clients[i])} && maxClient == old(maxClient)
      ensures clients[..] == old(clients[..])[i := -1]
    {
      ghost var c, fds := clients[..], Clients();
      SlotFreed(c, fds, i);
      readSet := readSet - {clients[i]};
      clients[i] := -1;
      assert clients[..] == c[i := -1];
      assert Clients() == fds - {c[i]};
    }

    /**
     * A new connection: a free slot, which there is, the descriptor in the read set, and a context in the list.
     * The hundred-and-first client finds the list full, and the insert makes its chain a cycle: `full`.
     */
    method Accept(connfd: nat) returns (i: nat, full: bool)
      requires Valid() && connfd < FD_SETSIZE && connfd !in readSet
      modifies this, clients, contexts, contexts.repr
      ensures fresh(contexts.repr - old(contexts.repr)) && old(contexts.repr) <= contexts.repr
      ensures readSet == old(readSet) + {connfd}
      ensures i < FD_SETSIZE && old(clients[i]) < 0 && clients[..] == old(clients[..])[i := connfd]
      ensures full <==> old(|Clients()|) == MAX_LIST_LENGTH
      ensures if full then SlotsOk() && contexts.Looped() else Valid()
    {
      ghost var fds := Clients();
      AtMostAll();
      FreeSlot(clients[..], fds);
      i := FindSlot();
      TakeSlot(i, connfd);
      assert Clients() == fds + {connfd};
      full := EnterContext(connfd, fds);
    }

    /** There are never more clients than the list takes. */
    lemma AtMostAll()
      requires Valid()
      ensures |Clients()| <= MAX_LIST_LENGTH
    {
      assert At(Clients());
      ContextCount(contexts.Contents(), Clients());
    }

    /** A client that is ready: its context is found; a connection that has ended is cleared everywhere. */
    method Serve(i: nat, gone: bool) returns (ctx: Context)
      requires Valid() && i < FD_SETSIZE && clients[i] >= 0
      modifies this, clients, contexts, contexts.repr
      ensures Valid() && contexts.repr == old(contexts.repr) && maxClient == old(maxClient)
      ensures ctx == Context(old(clients[i]))
      ensures readSet == if gone then old(readSet) - {old(clients[i])} else old(readSet)
      ensures clients[..] == if gone then old(clients[..])[i := -1] else old(clients[..])
    {
      var connfd := clients[i];
      ghost var fds := Clients();
      ctx := FindContext(connfd, fds);
      if gone {
        ClearSlot(i);
        assert Clients() == fds - {connfd};
        LeaveContext(connfd, fds);
      }
    }

    /**
     * One iteration: `ready` is what `select` leaves in the set, `connfd` what `accept` returns, and `gone`
     * the clients whose packet does not arrive. `served` lists the clients served, in order; `running` is
     * false when a failed `accept` ends the loop, or when the list was full and its chain is a cycle (`full`).
     */
    method Iterate(ready: set<nat>, connfd: int, gone: set<nat>)
      returns (served: seq<nat>, running: bool, full: bool)
      requires Valid() && ready <= readSet
      requires listenfd in ready && connfd >= 0 ==> connfd < FD_SETSIZE && connfd !in readSet
      modifies this, clients, contexts, contexts.repr
      ensures fresh(contexts.repr - old(contexts.repr))
      ensures full <==> listenfd in ready && connfd >= 0 && old(|Clients()|) == MAX_LIST_LENGTH
      ensures if full then SlotsOk() && contexts.Looped() && readSet == old(readSet) + {connfd} else Valid()
      ensures running <==> !full && !(listenfd in ready && connfd < 0)
      ensures running ==> Distinct(served) && Elements(served) == ready - {listenfd}
      ensures running ==> readSet == old(readSet) + (if listenfd in ready then {connfd} else {})
                                   - (ready - {listenfd}) * gone
      ensures !running ==> served == [] && (!full ==> readSet == old(readSet))
    {
      served, running, full := [], true, false;
      var numReady := |ready|;
      if listenfd in ready {
        if connfd < 0 {
          return [], false, false;
        }
        var slot;
        slot, full := Accept(connfd);
        if full {
          return [], false, true;
        }
        numReady := numReady - 1;
        if numReady <= 0 {
          assert ready == {listenfd} by {
            SubsetCount({listenfd}, ready);
          }
          return;
        }
      }
      served := ServeAll(ready, numReady, gone);
    }

    /** One slot of the loop: its client is served when it is ready. */
    method ServeSlot(i: nat, ready: set<nat>, gone: set<nat>, served: seq<nat>, left: int,
                     ghost c: seq<int>, ghost fds: set<nat>, ghost before: set<nat>)
      returns (hit: bool, served': seq<nat>, left': int)
      requires Valid() && i < FD_SETSIZE && SlotsFor(c, fds) && ready - {listenfd} <= fds && listenfd !in fds
      requires SameFrom(clients[..], c, i) && Ordered(c, served, i)
      requires PassAt(c, ready - {listenfd}, gone, before, readSet, served, left, i)
      modifies this, clients, contexts, contexts.repr
      ensures Valid() && contexts.repr == old(contexts.repr) && maxClient == old(maxClient)
      ensures SameFrom(clients[..], c, i + 1) && Ordered(c, served', i + 1)
      ensures PassAt(c, ready - {listenfd}, gone, before, readSet, served', left', i + 1)
    {
      ghost var due := ready - {listenfd};
      OrderedNext(c, served, i);
      hit, served', left' := false, served, left;
      if clients[i] >= 0 && clients[i] in ready {
        var connfd: nat := clients[i];
        PassServes(c, fds, due, gone, before, readSet, served, left, i, connfd);
        var ctx := Serve(i, connfd in gone);
        hit, served', left' := true, served + [connfd], left - 1;
      } else {
        ServedNext(c, fds, due, served, i);
      }
    }

    /** The loop over the slots, left as soon as every ready descriptor has been dealt with. */
    method ServeAll(ready: set<nat>, numReady: int, gone: set<nat>) returns (served: seq<nat>)
      requires Valid() && ready - {listenfd} <= Clients()
      requires numReady == |ready - {listenfd}|
      modifies this, clients, contexts, contexts.repr
      ensures Valid() && contexts.repr == old(contexts.repr)
      ensures Distinct(served) && Elements(served) == ready - {listenfd}
      ensures readSet == old(readSet) - (ready - {listenfd}) * gone
      ensures exists at: seq<nat> :: InSlotOrder(old(clients[..]), served, at, FD_SETSIZE)
    {
      NothingServed(clients[..]);
      ghost var due, c, fds, before := ready - {listenfd}, clients[..], Clients(), readSet;
      served := [];
      var left := numReady;
      var i := 0;
      while i <= maxClient
        invariant 0 <= i <= maxClient + 1 && maxClient == old(maxClient)
        invariant Valid() && contexts.repr == old(contexts.repr)
        invariant SameFrom(clients[..], c, i)
        invariant PassAt(c, due, gone, before, readSet, served, left, i)
        invariant Ordered(c, served, i)
      {
        var hit;
        hit, served, left := ServeSlot(i, ready, gone, served, left, c, fds, before);
        if hit && left <= 0 {
          PassEnds(c, fds, due, gone, before, readSet, served, left, i + 1);
          ghost var at := OrderedAll(c, served, i + 1);
          return;
        }
        i := i + 1;
      }
      PassEnds(c, fds, due, gone, before, readSet, served, left, i);
      ghost var at := OrderedAll(c, served, i);
    }
  }
}
