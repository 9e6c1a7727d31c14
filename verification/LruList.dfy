/** The doubly linked list of list.c: a sentinel head, a tail pointer, and a cap on the length. */
module LruList {
  import opened LruSpec
  import opened Sequences

  const MAX_PATH := 257
  const MAX_LIST_LENGTH := 100

  class Node<T(0)> {
    var addr: Key
    var alength: nat
    var data: T
    var next: Node?<T>
    var prev: Node?<T>

    /** Key, length and data are as they were. */
    twostate predicate Same()
      reads this
    {
      addr == old(addr) && alength == old(alength) && data == old(data)
    }

    constructor ()
      ensures next == null && prev == null && alength == 0
    {
      addr, alength, next, prev := [], 0, null, null;
    }
  }

  ghost function EntriesOf<T(0)>(ns: seq<Node<T>>): (s: seq<Entry<T>>)
    reads ns
    ensures |s| == |ns| && forall i | 0 <= i < |ns| :: s[i] == Entry(ns[i].addr, ns[i].data)
  {
    seq(|ns|, i requires 0 <= i < |ns| reads ns => Entry(ns[i].addr, ns[i].data))
  }

  /** Node `i` of the chain: `prev` and `next` lead to its neighbours, and its length is that of its key. */
  ghost predicate NodeAt<T(0)>(head: Node<T>, ns: seq<Node<T>>, i: nat)
    requires i < |ns|
    reads ns
  {
    && ns[i].prev == (if i == 0 then head else ns[i - 1])
    && ns[i].next == (if i == |ns| - 1 then null else ns[i + 1])
    && ns[i].alength == |ns[i].addr|
  }

  class List<T(0,==)> {
    const head: Node<T>
    var tail: Node?<T>
    ghost var nodes: seq<Node<T>>
    ghost var repr: set<Node<T>>  // the head, and every node that is or was in the list

    /** The chain: distinct nodes behind the head, `prev` inverse to `next`, `tail` at the last one. */
    ghost predicate Linked()
      reads this, repr, nodes
    {
      && head in repr && head !in nodes
      && (forall n | n in nodes :: n in repr)
      && Distinct(nodes)
      && head.next == (if nodes == [] then null else nodes[0])
      && (nodes != [] ==> tail == nodes[|nodes| - 1])
      && (forall i | 0 <= i < |nodes| :: NodeAt(head, nodes, i))
    }

    ghost predicate Valid()
      reads this, repr, nodes
    {
      Linked() && head.alength == |nodes| <= MAX_LIST_LENGTH
    }

    ghost function Contents(): (s: seq<Entry<T>>)
      reads this, repr, nodes
    {
      EntriesOf(nodes)
    }

    /** `init_list_head`. */
    constructor ()
      ensures Valid() && Contents() == [] && fresh(repr)
    {
      head := new Node<T>();
      tail := null;
      nodes := [];
      repr := {head};
    }

    /** The unlinking that every operation repeats. */
    method Unlink(node: Node<T>, ghost k: nat)
      requires Linked() && k < |nodes| && nodes[k] == node
      modifies this, repr
      ensures repr == old(repr) && nodes == old(Less(nodes, k))
      ensures Linked() && node.next == old(node.next)
      ensures forall n | n in repr :: n.Same()
    {
      ghost var was := nodes;
      assert NodeAt(head, was, k);
      var prev, next := node.prev, node.next;
      assert prev == if k == 0 then head else was[k - 1];
      assert next == if k == |was| - 1 then null else was[k + 1];
      Bypass(prev, next);
      DistinctLess(was, k);
      nodes := Less(was, k);
      forall i | 0 <= i < |nodes| ensures NodeAt(head, nodes, i) {
        ghost var j := if i < k then i else i + 1;
        assert nodes[i] == was[j] && old(NodeAt(head, was, j));
        assert j != k - 1 ==> was[j] != prev;
        assert j != k + 1 ==> was[j] != next;
      }
    }

    /** Two nodes become neighbours; without a second one the first is the tail. */
    method Bypass(prev: Node<T>, next: Node?<T>)
      requires prev in repr && (next != null ==> next in repr && next != prev)
      modifies this, repr
      ensures repr == old(repr) && nodes == old(nodes)
      ensures prev.next == next && (next != null ==> next.prev == prev)
      ensures tail == if next == null then prev else old(tail)
      ensures forall n | n in repr :: n.Same() && (n != prev ==> n.next == old(n.next)) && (n != next ==> n.prev == old(n.prev))
    {
      prev.next := next;
      if next != null {
        next.prev := prev;
      } else {
        tail := prev;
      }
    }

    /** The linking behind the head that insert, get and change repeat. */
    method PushFront(node: Node<T>)
      requires Linked() && node in repr && node !in nodes && node != head && node.alength == |node.addr|
      requires nodes == [] ==> tail == node
      modifies this, repr
      ensures repr == old(repr)
      ensures nodes == [node] + old(nodes)
      ensures Linked()
      ensures forall n | n in repr :: n.Same()
    {
      ghost var was := nodes;
      assert was != [] ==> NodeAt(head, was, 0);
      node.next := head.next;
      if head.next != null {
        head.next.prev := node;
      }
      node.prev := head;
      head.next := node;
      nodes := [node] + was;
      forall i | 0 <= i < |nodes| ensures NodeAt(head, nodes, i) {
        assert i > 0 ==> old(NodeAt(head, was, i - 1));
      }
    }

    method Prepend(node: Node<T>)
      requires Linked() && node in repr && node !in nodes && node != head && node.alength == |node.addr|
      requires nodes == [] ==> tail == node
      modifies this, repr
      ensures repr == old(repr) && Linked() && |nodes| == old(|nodes|) + 1 && head.alength == old(head.alength)
      ensures Contents() == old([Entry(node.addr, node.data)] + Contents())
    {
      ghost var ns := nodes;
      PushFront(node);
      assert EntriesOf(ns) == old(Contents());
    }

    /** A chain of `next` pointers from the head, as the list's users follow it. */
    ghost predicate IsChain(ns: seq<Node<T>>)
      reads head, ns
    {
      && (ns == [] ==> head.next == null)
      && (ns != [] ==> head.next == ns[0] && ns[|ns| - 1].next == null)
      && (forall i {:trigger ns[i].next} | 0 <= i < |ns| - 1 :: ns[i].next == ns[i + 1])
    }

    /** Whoever follows `next` from the head stays among the nodes for ever. */
    ghost predicate Looped()
      reads this, head, nodes
    {
      && head.next != null && head.next in nodes
      && forall n | n in nodes :: n.next != null && n.next in nodes
    }

    lemma LoopedIsNoChain(ns: seq<Node<T>>)
      requires Looped()
      ensures !IsChain(ns)
    {
      if IsChain(ns) {
        var i := 0;
        while i < |ns| - 1
          invariant 0 <= i < |ns| && ns[i] in nodes
        {
          assert ns[i].next == ns[i + 1];
          i := i + 1;
        }
      }
    }

    /**
     * `insert_info_ptr` as it is written. Below capacity it prepends. At capacity it clears the `next` of
     * the node it recycles and moves `tail` back without ending the chain there, so the chain closes on itself.
     */
    method Insert(key: Key, data: T) returns (ret: int)
      requires Valid()
      modifies this, repr
      ensures fresh(repr - old(repr)) && old(repr) <= repr
      ensures ret == if |key| > MAX_PATH then -1 else 0
      ensures |key| > MAX_PATH ==> Valid() && Contents() == old(Contents())
      ensures |key| <= MAX_PATH && old(|nodes|) < MAX_LIST_LENGTH ==>
                Valid() && Contents() == Inserted(old(Contents()), key, data)
      ensures |key| <= MAX_PATH && old(|nodes|) == MAX_LIST_LENGTH ==>
                Looped() && nodes == old(nodes) && head.next == old(tail) && Recycled(old(tail), key, data)
      ensures ret == if |key| <= 257 then 0 else -1
      ensures |key| <= 257 && old(|nodes|) < 100 ==> Contents() == [Entry(key, data)] + old(Contents())
    {
      if |key| > MAX_PATH {
        return -1;
      }
      if head.alength == MAX_LIST_LENGTH {
        InsertFull(key, data);
      } else {
        InsertBelow(key, data);
      }
      return 0;
    }

    /**
     * The last node carries the new entry and is in front of the others, which keep theirs; each leads to the
     * next, and the last of them, the new tail, to the first.
     */
    twostate predicate Recycled(last: Node?<T>, key: Key, data: T)
      reads this, repr, nodes
    {
      && |nodes| == 100 && last == nodes[99] && last.addr == key && last.alength == |key| && last.data == data
      && last.next == nodes[0] && last.prev == head && tail == nodes[98]
      && |old(Contents())| == 100 && Contents()[..99] == old(Contents())[..99]
      && (forall i {:trigger nodes[i].next} | 0 <= i < 99 :: nodes[i].next == nodes[i + 1])
    }

    /** The branch for a new node, followed by the common linking. */
    method InsertBelow(key: Key, data: T)
      requires Valid() && |nodes| < MAX_LIST_LENGTH
      modifies this, repr
      ensures fresh(repr - old(repr)) && old(repr) <= repr
      ensures Valid() && Contents() == Inserted(old(Contents()), key, data)
    {
      var node := new Node<T>();
      node.addr, node.alength, node.data := key, |key|, data;
      if head.alength == 0 {
        tail := node;
      }
      head.alength := head.alength + 1;
      repr := repr + {node};
      Prepend(node);
    }

    /** The branch for a full list, followed by the common linking. */
    method InsertFull(key: Key, data: T)
      requires Valid() && |nodes| == MAX_LIST_LENGTH
      modifies this, repr
      ensures repr == old(repr) && nodes == old(nodes)
      ensures Looped() && head.next == old(tail) && Recycled(old(tail), key, data)
    {
      ghost var last, entries := nodes[99], Contents();
      CloseChain(key, data);
      AllLead(nodes);
      forall i | 0 <= i < 99 ensures Contents()[i] == entries[i] {
        assert nodes[i] in repr && nodes[i] != last;
      }
      assert Contents()[..99] == entries[..99];
    }

    /** The last node is recycled into the front; the chain is closed. */
    method CloseChain(key: Key, data: T)
      requires Valid() && |nodes| == MAX_LIST_LENGTH
      modifies this, repr
      ensures repr == old(repr) && nodes == old(nodes)
      ensures tail == nodes[98] && head.next == nodes[99] && nodes[99].prev == head
      ensures nodes[99].addr == key && nodes[99].alength == |key| && nodes[99].data == data
      ensures forall n | n in repr && n != nodes[99] :: n.Same()
      ensures forall i {:trigger nodes[i].next} | 0 <= i < 100 :: nodes[i].next == nodes[if i < 99 then i + 1 else 0]
    {
      ghost var was := nodes;
      assert NodeAt(head, was, 98) && NodeAt(head, was, 99);
      Recycle(tail, key, data);
      forall i | 0 <= i < 100 ensures was[i].next == was[if i < 99 then i + 1 else 0] {
        assert old(NodeAt(head, was, i));
      }
    }

    static lemma AllLead(ns: seq<Node<T>>)
      requires |ns| == 100 && forall i {:trigger ns[i].next} | 0 <= i < 100 :: ns[i].next == ns[if i < 99 then i + 1 else 0]
      ensures forall n | n in ns :: n.next != null && n.next in ns
    {
      forall n | n in ns ensures n.next != null && n.next in ns {
        var i :| 0 <= i < |ns| && ns[i] == n;
        assert ns[i].next == ns[if i < 99 then i + 1 else 0];
      }
    }

    /** The pointers it changes. */
    method Recycle(node: Node<T>, key: Key, data: T)
      requires node in repr && head in repr && node != head && node == tail && node.prev != node
      requires head.next != null && head.next in repr && head.next != node && head.next != head
      modifies this, repr
      ensures repr == old(repr) && nodes == old(nodes) && tail == old(node.prev)
      ensures node.addr == key && node.alength == |key| && node.data == data
      ensures forall n | n in repr && n != node :: n.Same()
      ensures forall n | n in repr ::
                n.next == if n == node then old(head.next) else if n == head then node else old(n.next)
      ensures node.prev == head
    {
      node.addr, node.alength, node.data := key, |key|, data;
      tail.next := null;
      tail := tail.prev;
      node.next := head.next;
      if head.next != null {
        head.next.prev := node;
      }
      node.prev := head;
      head.next := node;
    }

    /** Eviction as it is meant: the node before the recycled one ends the chain. */
    method InsertEvicting(key: Key, data: T)
      requires Valid() && |nodes| == MAX_LIST_LENGTH && |key| <= MAX_PATH
      modifies this, repr
      ensures repr == old(repr) && Valid()
      ensures Contents() == Inserted(old(Contents())[..MAX_LIST_LENGTH - 1], key, data)
      ensures Contents() == [Entry(key, data)] + old(Contents())[..99]
    {
      var node := Release();
      Refill(node, key, data);
      Prepend(node);
    }

    /** Take the last node of a full list out, and end the chain before it. */
    method Release() returns (node: Node<T>)
      requires Valid() && |nodes| == MAX_LIST_LENGTH
      modifies this, repr
      ensures repr == old(repr) && Linked() && head.alength == old(head.alength) && |nodes| == MAX_LIST_LENGTH - 1
      ensures node in repr && node !in nodes && node != head
      ensures Contents() == old(Contents())[..MAX_LIST_LENGTH - 1]
    {
      ghost var ns := nodes;
      node := tail;
      Unlink(node, MAX_LIST_LENGTH - 1);
      DistinctLess(ns, MAX_LIST_LENGTH - 1);
      EntriesDropped(ns, MAX_LIST_LENGTH - 1);
      assert EntriesOf(ns) == old(Contents());
    }

    /** Reuse of a node that is out of the list. */
    method Refill(node: Node<T>, key: Key, data: T)
      requires Linked() && node in repr && node !in nodes && node != head
      modifies node
      ensures repr == old(repr) && nodes == old(nodes) && head.alength == old(head.alength)
      ensures Linked() && Contents() == old(Contents()) && node.next == old(node.next)
      ensures node.addr == key && node.alength == |key| && node.data == data
    {
      node.addr, node.alength, node.data := key, |key|, data;
      forall i | 0 <= i < |nodes| ensures NodeAt(head, nodes, i) {
        assert old(NodeAt(head, nodes, i));
      }
    }

    /** The search loop of get and change. */
    method FindNode(key: Key) returns (node: Node?<T>, ghost k: nat)
      requires Linked()
      ensures k == Find(Contents(), key, true)
      ensures var i := Find(Contents(), key, true);
              node == if i == |nodes| then null else nodes[i]
    {
      node := head.next;
      k := 0;
      while node != null
        invariant 0 <= k <= |nodes| && node == if k == |nodes| then null else nodes[k]
        invariant forall j | 0 <= j < k :: !Matches(Contents()[j], key, true)
        decreases |nodes| - k
      {
        if node.alength == |key| && node.addr == key {
          break;
        }
        assert NodeAt(head, nodes, k);
        node := node.next;
        k := k + 1;
      }
      FindIs(Contents(), key, true, k);
    }

    method MoveToFront(node: Node<T>, ghost k: nat)
      requires Valid() && k < |nodes| && nodes[k] == node
      modifies this, repr
      ensures repr == old(repr)
      ensures Valid() && nodes == old([nodes[k]] + Less(nodes, k))
      ensures Contents() == old([Contents()[k]] + Dropped(Contents(), k))
    {
      ghost var ns := nodes;
      assert NodeAt(head, nodes, k);
      if node.prev != head {
        Relink(node, k);
      } else {
        FirstStays(ns, k, head);
      }
      EntriesMoved(ns, k);
      assert EntriesOf(ns) == old(Contents());
    }

    method Relink(node: Node<T>, ghost k: nat)
      requires Valid() && 0 < k < |nodes| && nodes[k] == node
      modifies this, repr
      ensures repr == old(repr) && nodes == old([nodes[k]] + Less(nodes, k)) && Valid()
      ensures forall n | n in repr :: n.Same()
    {
      assert NodeAt(head, nodes, k);
      DistinctLess(nodes, k);
      Unlink(node, k);
      assert node.Same() && head.Same() && nodes != [];
      PushFront(node);
    }

    static lemma FirstStays(ns: seq<Node<T>>, k: nat, head: Node<T>)
      requires k < |ns| && NodeAt(head, ns, k) && ns[k].prev == head && head !in ns
      ensures ns == [ns[k]] + Less(ns, k)
    {
    }

    /** Unlinking for good. */
    method Detach(node: Node<T>, ghost k: nat)
      requires Valid() && k < |nodes| && nodes[k] == node
      modifies this, repr
      ensures repr == old(repr)
      ensures nodes == old(Less(nodes, k)) && Valid() && node.next == old(node.next)
      ensures Contents() == Dropped(old(Contents()), k)
    {
      ghost var ns := nodes;
      Unlink(node, k);
      head.alength := head.alength - 1;
      EntriesDropped(ns, k);
      assert EntriesOf(ns) == old(Contents());
    }

    static lemma EntriesDropped(ns: seq<Node<T>>, k: nat)
      requires k < |ns|
      ensures EntriesOf(Less(ns, k)) == Dropped(EntriesOf(ns), k)
    {
    }

    /** What get and change share: find the newest match and bring it to the front. */
    method Promote(key: Key) returns (node: Node?<T>)
      requires Valid()
      modifies this, repr
      ensures repr == old(repr)
      ensures Valid() && Contents() == Touched(old(Contents()), key)
      ensures node == null <==> Find(old(Contents()), key, true) == |old(Contents())|
      ensures node != null ==> nodes != [] && nodes[0] == node && node.addr == key && node.alength == |key|
      ensures node != null ==> Contents()[0] == Entry(key, node.data)
    {
      ghost var k;
      node, k := FindNode(key);
      if node != null {
        assert Matches(Contents()[k], key, true);
        TouchedAt(Contents(), key, k);
        MoveToFront(node, k);
        assert NodeAt(head, nodes, 0) && Contents()[0] == Entry(node.addr, node.data);
      }
    }

    /** `get_info_ptr`; `was` is what the caller's pointer held before. */
    method Get(key: Key, was: T) returns (ret: int, data: T)
      requires Valid()
      modifies this, repr
      ensures repr == old(repr)
      ensures Valid() && Contents() == Touched(old(Contents()), key)
      ensures var s := old(Contents());
              var i := Find(s, key, true);
              if i == |s| then ret == -1 && data == was else ret == |key| && data == s[i].data
      ensures Answers(old(Contents()), Contents(), key, data, ret) && (ret == -1 ==> data == was)
    {
      ghost var s := Contents();
      var node := Promote(key);
      if node == null {
        ret, data := -1, was;
      } else {
        ret, data := node.alength, node.data;
      }
      TouchedIs(s, key, data, ret);
    }

    static lemma EntriesMoved(ns: seq<Node<T>>, k: nat)
      requires k < |ns|
      ensures EntriesOf([ns[k]] + Less(ns, k)) == [EntriesOf(ns)[k]] + Dropped(EntriesOf(ns), k)
    {
    }

    /** `change_info_ptr`. */
    method Change(key: Key, data: T) returns (ret: int)
      requires Valid()
      modifies this, repr
      ensures repr == old(repr)
      ensures Valid() && Contents() == Changed(old(Contents()), key, data)
      ensures ret == if Find(old(Contents()), key, true) == |old(Contents())| then -1 else |key|
      ensures Answers(old(Contents()), Contents(), key, data, ret)
    {
      ghost var s := Contents();
      var node := Promote(key);
      ret := -1;
      ghost var miss := Find(s, key, true) == |s|;
      assert miss == (node == null);
      if node != null {
        ret := node.alength;
        ghost var t := Contents();
        SetFront(node, key, data);
        FrontChanged(s, t, Contents(), key, data);
      } else {
        NothingChanged(s, key, data);
      }
      assert ret == if miss then -1 else |key|;
      ChangedIs(s, key, data, ret);
    }

    static lemma NothingChanged(s: seq<Entry<T>>, key: Key, data: T)
      requires Find(s, key, true) == |s|
      ensures Touched(s, key) == s == Changed(s, key, data)
    {
    }

    static lemma FrontChanged(s: seq<Entry<T>>, t: seq<Entry<T>>, u: seq<Entry<T>>, key: Key, data: T)
      requires Find(s, key, true) < |s| && t == Touched(s, key) && |u| == |t|
      requires u[0] == Entry(key, data) && forall i | 1 <= i < |t| :: u[i] == t[i]
      ensures u == Changed(s, key, data)
    {
      ChangedFront(s, key, data);
    }

    method SetFront(node: Node<T>, ghost key: Key, data: T)
      requires Valid() && nodes != [] && nodes[0] == node && node.addr == key
      modifies node
      ensures Valid() && |Contents()| == |old(Contents())|
      ensures Contents()[0] == Entry(key, data) && forall i | 1 <= i < |nodes| :: Contents()[i] == old(Contents())[i]
    {
      node.data := data;
      forall i | 0 <= i < |nodes| ensures NodeAt(head, nodes, i) {
        assert old(NodeAt(head, nodes, i));
      }
    }

    /** `remove_info`: the first entry whose key starts with the bytes given. */
    method Remove(key: Key) returns (ret: int)
      requires Valid() && forall n | n in nodes :: |key| <= |n.addr|
      modifies this, repr
      ensures repr == old(repr)
      ensures Valid() && Contents() == Removed(old(Contents()), key)
      ensures ret == if Find(old(Contents()), key, false) == |old(Contents())| then -1 else 0
      ensures forall i: nat | FirstStarting(old(Contents()), key, i) ::
                ret == 0 && Contents() == old(Contents())[..i] + old(Contents())[i + 1..]
      ensures (forall j | 0 <= j < |old(Contents())| :: !(key <= old(Contents())[j].key)) ==>
                ret == -1 && Contents() == old(Contents())
    {
      RemovedIs(Contents(), key);
      ghost var ns, s := nodes, Contents();
      var node := head.next;
      ghost var k := 0;
      while node != null
        invariant 0 <= k <= |nodes| && node == if k == |nodes| then null else nodes[k]
        invariant nodes == ns && Valid() && Contents() == s
        invariant forall j | 0 <= j < k :: !Matches(s[j], key, false)
        decreases |nodes| - k
      {
        assert node in nodes;
        if key <= node.addr {
          FindIs(s, key, false, k);
          Detach(node, k);
          return 0;
        }
        assert NodeAt(head, nodes, k);
        node := node.next;
        k := k + 1;
      }
      FindIs(s, key, false, k);
      return -1;
    }

    /** One node of the pass of `remove_info_ptr`, with `k` nodes kept before it. */
    method Pass(ptr: T, node: Node<T>, ghost k: nat) returns (next: Node?<T>, ghost k': nat)
      requires Valid() && k < |nodes| && node == nodes[k] && forall e | e in Contents()[..k] :: e.data != ptr
      modifies this, repr
      ensures repr == old(repr) && Valid() && |nodes| - k' < old(|nodes|) - k
      ensures k' <= |nodes| && next == if k' == |nodes| then null else nodes[k']
      ensures Without(Contents(), ptr) == Without(old(Contents()), ptr)
      ensures forall e | e in Contents()[..k'] :: e.data != ptr
    {
      assert NodeAt(head, nodes, k);
      assert Contents()[k] == Entry(node.addr, node.data);
      k' := k;
      if node.data == ptr {
        WithoutDropped(Contents(), k, ptr);
        Detach(node, k);
      } else {
        k' := k + 1;
      }
      next := node.next;
    }

    /** `remove_info_ptr`: every entry that carries `ptr`, in one pass; the value returned is -1 in any case. */
    method RemovePtr(ptr: T) returns (ret: int)
      requires Valid()
      modifies this, repr
      ensures repr == old(repr)
      ensures Valid() && Contents() == Without(old(Contents()), ptr)
      ensures ret == -1
      ensures exists rank: seq<nat> :: LeavesOut(old(Contents()), Contents(), ptr, rank)
    {
      ghost var rank := WithoutIs(Contents(), ptr);
      var node := head.next;
      ghost var k: nat := 0;
      while node != null
        invariant repr == old(repr) && Valid()
        invariant Without(Contents(), ptr) == Without(old(Contents()), ptr)
        invariant k <= |nodes| && node == if k == |nodes| then null else nodes[k]
        invariant forall e | e in Contents()[..k] :: e.data != ptr
        decreases |nodes| - k
      {
        node, k := Pass(ptr, node, k);
      }
      assert Contents()[..k] == Contents();
      NothingToDrop(Contents(), ptr);
      return -1;
    }

    /** `free_list`. */
    method Free()
      requires Valid()
      modifies this, repr
      ensures repr == old(repr)
      ensures Contents() == [] && head.next == null && head.alength == 0 && Valid()
    {
      var node := head.next;
      ghost var ns, k := nodes, 0;
      while node != null
        invariant 0 <= k <= |ns| && nodes == ns && repr == old(repr)
        invariant node == head.next == if k == |ns| then null else ns[k]
        invariant head !in ns && forall i | 0 <= i < |ns| :: NodeAt(head, ns, i)
        decreases |ns| - k
      {
        assert NodeAt(head, ns, k);
        head.next := node.next;
        node := head.next;
        k := k + 1;
      }
      head.alength := 0;
      head.next := null;
      head.prev := null;
      nodes := [];
    }
  }
}
