/** The LRU cache of cpp/practice/other/lru_cache.cpp over int keys: an
    unordered set of nodes, each holding its key and the next and previous
    node of a doubly linked list that runs from `first`, the most recently
    used key, to `last`, the least recently used one.

    Nodes are identified by their key, since the set holds one node per key,
    so the set is a map from key to the node's links and a pointer is a key
    or None. The list the links form is the ghost `order`.

    This module holds the order of use and the shape of the links; LruCache
    below holds the cache itself. */
module LruList {

  datatype Option<T> = None | Some(v: T)

  /** The links of the node holding a key. */
  datatype Node = Node(next: Option<int>, prev: Option<int>)

  predicate NoDuplicates(s: seq<int>) {
    forall i, j | 0 <= i < j < |s| :: s[i] != s[j]
  }

  function Without(s: seq<int>, k: int): (t: seq<int>)
    ensures forall x :: x in t <==> x in s && x != k
    ensures |t| <= |s|
  {
    if s == [] then []
    else if s[0] == k then Without(s[1..], k)
    else [s[0]] + Without(s[1..], k)
  }

  // ---------------------------------------------------------------------------
  // The order of use

  /** What refer does to the order of use: a present key moves to the front;
      an absent key is put in front, after the least recently used key is
      evicted if the cache is full. */
  function Referred(order: seq<int>, maxSize: nat, u: int): (r: seq<int>)
    requires |order| <= maxSize && maxSize >= 1
    ensures r != [] && r[0] == u
  {
    if u in order then [u] + Without(order, u)
    else if |order| == maxSize then [u] + order[..|order| - 1]
    else [u] + order
  }

  lemma {:induction false} WithoutAt(s: seq<int>, j: nat)
    requires NoDuplicates(s) && j < |s|
    ensures Without(s, s[j]) == s[..j] + s[j + 1..]
  {
    if j > 0 {
      assert NoDuplicates(s[1..]);
      WithoutAt(s[1..], j - 1);
      assert s[1..][j - 1] == s[j];
      assert s[0] != s[j];
      assert s[1..][..j - 1] == s[1..j] && s[1..][j..] == s[j + 1..];
      assert s[..j] == [s[0]] + s[1..j];
    } else {
      assert s[0] !in s[1..] by {
        forall i | 0 <= i < |s[1..]| ensures s[1..][i] != s[0] {
          assert s[1..][i] == s[i + 1];
        }
      }
      WithoutAbsent(s[1..], s[0]);
    }
  }

  lemma {:induction false} WithoutAbsent(s: seq<int>, k: int)
    requires k !in s
    ensures Without(s, k) == s
  {
    if s != [] {
      WithoutAbsent(s[1..], k);
    }
  }

  lemma RemoveAtDistinct(s: seq<int>, j: nat)
    requires NoDuplicates(s) && j < |s|
    ensures NoDuplicates(s[..j] + s[j + 1..])
  {
    var t := s[..j] + s[j + 1..];
    forall a, b | 0 <= a < b < |t| ensures t[a] != t[b] {
      var a' := if a < j then a else a + 1;
      var b' := if b < j then b else b + 1;
      assert t[a] == s[a'] && t[b] == s[b'];
    }
  }

  lemma ConsDistinct(x: int, s: seq<int>)
    requires NoDuplicates(s) && x !in s
    ensures NoDuplicates([x] + s)
  {
    forall i, j | 0 <= i < j < |[x] + s|
      ensures ([x] + s)[i] != ([x] + s)[j]
    {
      if i > 0 {
        assert ([x] + s)[i] == s[i - 1];
      }
      assert ([x] + s)[j] == s[j - 1];
    }
  }

  /** refer keeps the keys distinct and their number within max_size, and
      puts the referred key first. */
  lemma ReferKeepsDistinct(order: seq<int>, maxSize: nat, u: int)
    requires NoDuplicates(order) && |order| <= maxSize && maxSize >= 1
    ensures var r := Referred(order, maxSize, u);
      NoDuplicates(r) && |r| <= maxSize && r[0] == u
  {
    if u in order {
      var j :| 0 <= j < |order| && order[j] == u;
      WithoutAt(order, j);
      RemoveAtDistinct(order, j);
      ConsDistinct(u, Without(order, u));
    } else if |order| == maxSize {
      assert NoDuplicates(order[..|order| - 1]);
      ConsDistinct(u, order[..|order| - 1]);
    } else {
      ConsDistinct(u, order);
    }
  }

  /** Referring a present key keeps the same keys; referring an absent key
      adds it, evicting exactly the least recently used key when the cache is
      full. */
  lemma ReferKeys(order: seq<int>, maxSize: nat, u: int)
    requires NoDuplicates(order) && |order| <= maxSize && maxSize >= 1
    ensures var r := Referred(order, maxSize, u);
      (u in order ==> |r| == |order| && forall k :: k in r <==> k in order) &&
      (u !in order && |order| < maxSize ==> |r| == |order| + 1 && forall k :: k in r <==> k in order || k == u) &&
      (u !in order && |order| == maxSize ==>
         |r| == maxSize && forall k :: k in r <==> (k in order && k != order[|order| - 1]) || k == u)
  {
    if u in order {
      var j :| 0 <= j < |order| && order[j] == u;
      WithoutAt(order, j);
    } else if |order| == maxSize {
      var last := order[|order| - 1];
      forall k ensures k in order[..|order| - 1] <==> k in order && k != last {
        if k in order && k != last {
          var i :| 0 <= i < |order| && order[i] == k;
          assert order[..|order| - 1][i] == k;
        }
        if k in order[..|order| - 1] {
          var i :| 0 <= i < |order| - 1 && order[..|order| - 1][i] == k;
          assert order[i] == k;
        }
      }
    }
  }

  // ---------------------------------------------------------------------------
  // The links

  /** The node at position i of the order is in the set, links to its
      successor (to none if it is last) and, unless it is first, back to its
      predecessor. The first node's prev is not constrained: a node moved to
      the front keeps its old prev. */
  ghost predicate Entry(nodes: map<int, Node>, order: seq<int>, i: nat)
    requires i < |order|
  {
    order[i] in nodes &&
    nodes[order[i]].next == (if i + 1 < |order| then Some(order[i + 1]) else None) &&
    (i > 0 ==> nodes[order[i]].prev == Some(order[i - 1]))
  }

  /** The links run through the order, and first and last name its ends. */
  ghost predicate Linked(nodes: map<int, Node>, first: Option<int>, last: Option<int>, order: seq<int>) {
    (order == [] ==> first == None && last == None) &&
    (order != [] ==> first == Some(order[0]) && last == Some(order[|order| - 1])) &&
    forall i | 0 <= i < |order| :: Entry(nodes, order, i)
  }

  /** Following next from a node that is not last reaches its successor. */
  lemma FollowNext(nodes: map<int, Node>, first: Option<int>, last: Option<int>, order: seq<int>, i: nat)
    requires NoDuplicates(order) && i < |order| && Linked(nodes, first, last, order)
    requires order[i] != last.v
    ensures i + 1 < |order| && order[i] in nodes && nodes[order[i]].next == Some(order[i + 1])
  {
    assert Entry(nodes, order, i);
  }

  /** Evicting the last node of a list of at least two: its predecessor
      becomes last and loses its next. */
  lemma EvictLast(nodes: map<int, Node>, first: Option<int>, last: Option<int>, order: seq<int>)
    requires NoDuplicates(order) && |order| >= 2 && Linked(nodes, first, last, order)
    ensures last.Some? && last.v in nodes && nodes[last.v].prev == Some(order[|order| - 2])
    ensures var p := order[|order| - 2];
      p in nodes && Linked((nodes[p := nodes[p].(next := None)]) - {last.v}, first, Some(p), order[..|order| - 1])
  {
    var n := |order|;
    var p := order[n - 2];
    var l := order[n - 1];
    assert Entry(nodes, order, n - 1) && Entry(nodes, order, n - 2);
    var nodes' := (nodes[p := nodes[p].(next := None)]) - {l};
    var order' := order[..n - 1];
    forall i | 0 <= i < |order'| ensures Entry(nodes', order', i) {
      assert Entry(nodes, order, i);
      assert order'[i] == order[i] && order[i] != l;
      if i + 1 < |order'| {
        assert order'[i + 1] == order[i + 1];
        assert order[i] != p;
      }
      if i > 0 {
        assert order'[i - 1] == order[i - 1];
      }
    }
  }

  /** The links once u's neighbours are joined: its successor's prev and its
      predecessor's next skip it. */
  function Joined(nodes: map<int, Node>, u: int): (r: map<int, Node>)
    requires u in nodes
    requires nodes[u].next.Some? ==> nodes[u].next.v in nodes
    requires nodes[u].prev.Some? ==> nodes[u].prev.v in nodes
    ensures r.Keys == nodes.Keys
  {
    var cur := nodes[u];
    var nodes1 := if cur.next.Some? then nodes[cur.next.v := nodes[cur.next.v].(prev := cur.prev)] else nodes;
    if cur.prev.Some? then nodes1[cur.prev.v := nodes1[cur.prev.v].(next := cur.next)] else nodes1
  }

  /** Position i of an order once position j is removed. */
  lemma RemovedAt(s: seq<int>, j: nat, i: nat)
    requires j < |s| && i < |s| - 1
    ensures (s[..j] + s[j + 1..])[i] == if i < j then s[i] else s[i + 1]
  {
    if i < j {
      assert (s[..j] + s[j + 1..])[i] == s[..j][i];
    } else {
      assert (s[..j] + s[j + 1..])[i] == s[j + 1..][i - j];
    }
  }

  /** One entry of the order without position j, under the joined links. */
  lemma JoinedEntry(nodes: map<int, Node>, order: seq<int>, j: nat, i: nat)
    requires NoDuplicates(order) && 0 < j < |order| && i < |order| - 1
    requires Entry(nodes, order, j - 1) && Entry(nodes, order, j)
    requires j + 1 < |order| ==> Entry(nodes, order, j + 1)
    requires Entry(nodes, order, if i < j then i else i + 1)
    ensures Entry(Joined(nodes, order[j]), order[..j] + order[j + 1..], i)
  {
    var n := |order|;
    var k := if i < j then i else i + 1;
    RemovedAt(order, j, i);
    if i + 1 < n - 1 {
      RemovedAt(order, j, i + 1);
    }
    if i > 0 {
      RemovedAt(order, j, i - 1);
    }
    var J := Joined(nodes, order[j]);
    if k == j - 1 {
      assert J[order[k]] == nodes[order[k]].(next := nodes[order[j]].next);
    } else if k == j + 1 {
      assert J[order[k]] == nodes[order[k]].(prev := Some(order[j - 1]));
    } else {
      assert order[k] != order[j - 1] && (j + 1 < n ==> order[k] != order[j + 1]);
      assert J[order[k]] == nodes[order[k]];
    }
  }

  /** Unlinking the node at position j > 0: its neighbours are joined, and
      last moves to its predecessor if it was last. Its own links stay as
      they were. */
  lemma Unlink(nodes: map<int, Node>, first: Option<int>, last: Option<int>, order: seq<int>, j: nat)
    requires NoDuplicates(order) && 0 < j < |order| && Linked(nodes, first, last, order)
    ensures order[j] in nodes
    ensures var cur := nodes[order[j]];
      cur.prev.Some? && cur.prev.v in nodes && (cur.next.Some? ==> cur.next.v in nodes)
    ensures var u := order[j];
      var cur := nodes[u];
      Joined(nodes, u)[u] == cur &&
      Linked(Joined(nodes, u), first, if last == Some(u) then cur.prev else last, order[..j] + order[j + 1..])
  {
    var n := |order|;
    var u := order[j];
    assert Entry(nodes, order, j);
    assert Entry(nodes, order, j - 1);
    if j + 1 < n {
      assert Entry(nodes, order, j + 1);
    }
    var order' := order[..j] + order[j + 1..];
    forall i | 0 <= i < |order'| ensures Entry(Joined(nodes, u), order', i) {
      assert Entry(nodes, order, if i < j then i else i + 1);
      JoinedEntry(nodes, order, j, i);
    }
    RemovedAt(order, j, 0);
    RemovedAt(order, j, n - 2);
    assert order[j - 1] != u;
    if j + 1 < n {
      assert order[j + 1] != order[j - 1];
    }
  }

  /** What unlinking a present key that is not first leaves: the order
      without it, still linked, with its node still in the set. */
  lemma UnlinkKeeps(nodes: map<int, Node>, first: Option<int>, last: Option<int>, order: seq<int>, u: int, j: nat)
    requires NoDuplicates(order) && 0 < j < |order| && order[j] == u
    requires (forall k :: k in nodes <==> k in order) && Linked(nodes, first, last, order)
    ensures u in nodes && nodes[u].prev.Some? && nodes[u].prev.v in nodes
    ensures nodes[u].next.Some? ==> nodes[u].next.v in nodes
    ensures var order' := Without(order, u);
      var nodes' := Joined(nodes, u);
      var last' := if last == Some(u) then nodes[u].prev else last;
      NoDuplicates(order') && u !in order' && u in nodes' && order' != [] &&
      (forall k :: k in nodes' <==> k in order' || k == u) && Linked(nodes', first, last', order')
  {
    Unlink(nodes, first, last, order, j);
    WithoutAt(order, j);
    RemoveAtDistinct(order, j);
  }

  /** A node outside the list can enter the set without disturbing the links. */
  lemma AddNode(nodes: map<int, Node>, first: Option<int>, last: Option<int>, order: seq<int>, u: int, node: Node)
    requires u !in order && Linked(nodes, first, last, order)
    ensures Linked(nodes[u := node], first, last, order)
  {
    var nodes' := nodes[u := node];
    forall i | 0 <= i < |order| ensures Entry(nodes', order, i) {
      assert Entry(nodes, order, i);
    }
  }

  /** Putting a node in front of the list: it links to the old first, and the
      old first links back to it. */
  lemma PushFront(nodes: map<int, Node>, first: Option<int>, last: Option<int>, order: seq<int>, u: int)
    requires NoDuplicates(order) && u !in order && u in nodes && Linked(nodes, first, last, order)
    requires order == [] ==> nodes[u].next == None
    ensures first.Some? ==> first.v in nodes
    ensures var nodes1 := if first.Some? then nodes[u := nodes[u].(next := first)] else nodes;
      var nodes2 := if first.Some? then nodes1[first.v := nodes1[first.v].(prev := Some(u))] else nodes1;
      nodes2.Keys == nodes.Keys &&
      Linked(nodes2, Some(u), if order == [] then Some(u) else last, [u] + order)
  {
    if order != [] {
      assert Entry(nodes, order, 0);
    }
    var nodes1 := if first.Some? then nodes[u := nodes[u].(next := first)] else nodes;
    var nodes2 := if first.Some? then nodes1[first.v := nodes1[first.v].(prev := Some(u))] else nodes1;
    var order' := [u] + order;
    forall i | 0 <= i < |order'| ensures Entry(nodes2, order', i) {
      if i > 0 {
        assert order'[i] == order[i - 1];
        assert Entry(nodes, order, i - 1);
        if i + 1 < |order'| {
          assert order'[i + 1] == order[i];
        }
        if i > 1 {
          assert order[i - 1] != order[0];
          assert order'[i - 1] == order[i - 2];
        }
      }
    }
  }

  /** A set has as many keys as a list without duplicates naming them. */
  lemma {:induction false} DistinctKeys(s: seq<int>, keys: set<int>)
    requires NoDuplicates(s) && forall k :: k in s <==> k in keys
    ensures |keys| == |s|
  {
    if s != [] {
      var tail := s[1..];
      assert NoDuplicates(tail);
      assert s[0] !in tail by {
        forall i | 0 <= i < |tail| ensures tail[i] != s[0] {
          assert tail[i] == s[i + 1];
        }
      }
      assert forall x :: x in s <==> x == s[0] || x in tail by {
        assert s == [s[0]] + tail;
      }
      assert s[0] in keys;
      var rest := keys - {s[0]};
      assert forall x :: x in tail <==> x in rest;
      DistinctKeys(tail, rest);
      assert keys == rest + {s[0]} && s[0] !in rest;
    } else {
      assert forall k :: k !in keys;
      assert keys == {};
    }
  }
}

/** The cache of cpp/practice/other/lru_cache.cpp. */
module LruCache {
  import opened LruList

  class Lru {
    const maxSize: nat
    var nodes: map<int, Node>
    var first: Option<int>
    var last: Option<int>
    ghost var order: seq<int>

    /** max_size is at least 2: with a single slot, eviction erases the only
        node while `first` still points at it. */
    ghost predicate Valid()
      reads this
    {
      maxSize >= 2 && NoDuplicates(order) && |order| <= maxSize &&
      (forall k :: k in nodes <==> k in order) && Linked(nodes, first, last, order)
    }

    constructor(size: nat)
      requires size >= 2
      ensures Valid() && maxSize == size && order == []
    {
      maxSize := size;
      nodes := map[];
      first := None;
      last := None;
      order := [];
    }

    /** refer: u must not be the most recently used key already, since the
        source would then link its node to itself. */
    method Refer(u: int)
      requires Valid() && first != Some(u)
      modifies this
      ensures Valid() && order == Referred(old(order), maxSize, u)
      ensures first == Some(u)
    {
      ReferKeepsDistinct(order, maxSize, u);
      ghost var target := Referred(order, maxSize, u);
      DistinctKeys(order, nodes.Keys);
      if u !in nodes {
        if |nodes| == maxSize {
          EvictLeastRecent();
        }
        AddNode(nodes, first, last, order, u, Node(None, None));
        nodes := nodes[u := Node(None, None)];
      } else {
        UnlinkNode(u);
      }
      LinkFront(u);
      assert order == target;
    }

    /** The eviction in refer: the last node leaves the set and the list, and
        its predecessor becomes last. */
    method EvictLeastRecent()
      requires maxSize >= 2 && NoDuplicates(order) && |order| == maxSize
      requires (forall k :: k in nodes <==> k in order) && Linked(nodes, first, last, order)
      modifies this
      ensures order == old(order)[..|old(order)| - 1] && NoDuplicates(order)
      ensures (forall k :: k in nodes <==> k in order) && Linked(nodes, first, last, order)
    {
      EvictLast(nodes, first, last, order);
      var l := last.v;
      if nodes[l].prev.Some? {
        var p := nodes[l].prev.v;
        nodes := nodes[p := nodes[p].(next := None)];
      }
      var prev := nodes[l].prev;
      nodes := nodes - {l};
      last := prev;
      order := order[..|order| - 1];
    }

    /** A present key's node leaves the list; it stays in the set. */
    method UnlinkNode(u: int)
      requires NoDuplicates(order) && u in order && first != Some(u)
      requires (forall k :: k in nodes <==> k in order) && Linked(nodes, first, last, order)
      modifies this
      ensures order == Without(old(order), u) && NoDuplicates(order) && u !in order && u in nodes
      ensures (forall k :: k in nodes <==> k in order || k == u) && Linked(nodes, first, last, order)
      ensures order == [] ==> nodes[u].next == None
    {
      ghost var j :| 0 <= j < |order| && order[j] == u;
      UnlinkKeeps(nodes, first, last, order, u, j);
      ghost var joined := Joined(nodes, u);
      var cur := nodes[u];
      if cur.next.Some? {
        nodes := nodes[cur.next.v := nodes[cur.next.v].(prev := cur.prev)];
      }
      if cur.prev.Some? {
        nodes := nodes[cur.prev.v := nodes[cur.prev.v].(next := cur.next)];
      }
      assert nodes == joined;
      if last == Some(u) {
        last := cur.prev;
      }
      order := Without(order, u);
    }

    /** The end of refer: the node links in front of the old first and
        becomes first, and also last if it is alone. */
    method LinkFront(u: int)
      requires NoDuplicates(order) && u !in order && u in nodes
      requires (forall k :: k in nodes <==> k in order || k == u) && Linked(nodes, first, last, order)
      requires order == [] ==> nodes[u].next == None
      modifies this
      ensures order == [u] + old(order) && first == Some(u)
      ensures NoDuplicates(order) && (forall k :: k in nodes <==> k in order) && Linked(nodes, first, last, order)
    {
      PushFront(nodes, first, last, order, u);
      ConsDistinct(u, order);
      if first.Some? {
        nodes := nodes[u := nodes[u].(next := first)];
        nodes := nodes[first.v := nodes[first.v].(prev := Some(u))];
      }
      first := Some(u);
      order := [u] + order;
      DistinctKeys(order, nodes.Keys);
      if |nodes| == 1 {
        last := Some(u);
      }
    }

    /** display: walks the next links from first to last, so it lists the
        keys from the most to the least recently used. */
    method Display() returns (out: seq<int>)
      requires Valid() && order != []
      ensures out == order
    {
      var ptr := first.v;
      ghost var i := 0;
      out := [];
      while ptr != last.v
        invariant 0 <= i < |order| && ptr == order[i] && out == order[..i]
        decreases |order| - i
      {
        FollowNext(nodes, first, last, order, i);
        out := out + [ptr];
        ptr := nodes[ptr].next.v;
        i := i + 1;
      }
      assert i == |order| - 1;
      out := out + [last.v];
    }
  }

  /** The program's own run, in two parts. Referring 1 to 5 fills a cache of
      five. */
  lemma FillExample()
    ensures Referred([], 5, 1) == [1] && Referred([1], 5, 2) == [2, 1]
    ensures Referred([2, 1], 5, 3) == [3, 2, 1] && Referred([3, 2, 1], 5, 4) == [4, 3, 2, 1]
    ensures Referred([4, 3, 2, 1], 5, 5) == [5, 4, 3, 2, 1]
  {
    assert 2 !in [1];
    assert 3 !in [2, 1];
    assert 4 !in [3, 2, 1];
    assert 5 !in [4, 3, 2, 1];
  }

  /** Then referring 1 moves it to the front, and referring 6 evicts 2,
      leaving 6 1 5 4 3 from the most to the least recently used. */
  lemma MoveAndEvictExample()
    ensures Referred([5, 4, 3, 2, 1], 5, 1) == [1, 5, 4, 3, 2]
    ensures Referred([1, 5, 4, 3, 2], 5, 6) == [6, 1, 5, 4, 3]
  {
    var full := [5, 4, 3, 2, 1];
    assert full[4] == 1;
    WithoutAt(full, 4);
    assert full[..4] == [5, 4, 3, 2] && full[5..] == [];
    assert 6 !in [1, 5, 4, 3, 2];
    assert [1, 5, 4, 3, 2][..4] == [1, 5, 4, 3];
  }

  method LruExample() returns (shown: seq<int>)
    ensures shown == [6, 1, 5, 4, 3]
  {
    var cache := new Lru(5);
    cache.Refer(1);
    cache.Refer(2);
    cache.Refer(3);
    cache.Refer(4);
    cache.Refer(5);
    cache.Refer(1);
    cache.Refer(6);
    FillExample();
    MoveAndEvictExample();
    shown := cache.Display();
  }
}
