/** The set-associative key/value cache of
    cpp/practice/other/set_assotiative_multi_policy_cache.cpp: CacheSize
    entries split into CacheSize / SetSize sets of SetSize entries, a key
    living in the set its value modulo the number of sets names. Each set
    keeps a hash table from key to value and an order list of its keys, most
    recently used first, and evicts by the replacement policy: LRU drops the
    back of the list and MRU its front.

    Keys are unsigned (std::uint64_t in the program's own run), so `%` is the
    remainder on naturals; a missing value is the value-initialised 0.

    SetContents describes the program with each table entry's list iterator
    always naming its key's node, so that the iterator needs no state of its
    own. As written, only an insertion (lines 68-70) points the iterator at
    the new node; a hit (lines 56-57 and 76-77) erases the node and puts a new
    one in front but leaves the iterator on the erased node, so the next hit
    on the same key erases through a dangling iterator. NodeSet below keeps
    the nodes and iterators explicitly and shows both: the program as
    written, and with the iterator refreshed after a hit, which SetContents
    abstracts. */
module MultiPolicyCache {

  datatype Policy = LRU | MRU

  predicate NoDuplicates(s: seq<nat>) {
    forall i, j | 0 <= i < j < |s| :: s[i] != s[j]
  }

  /** The order list without the key: order.erase(order_it). */
  function Without(s: seq<nat>, k: nat): (t: seq<nat>)
    ensures forall x :: x in t <==> x in s && x != k
    ensures |t| <= |s|
    ensures k !in s ==> t == s
  {
    if s == [] then []
    else if s[0] == k then Without(s[1..], k)
    else [s[0]] + Without(s[1..], k)
  }

  /** Erasing a key from a list without duplicates removes exactly one
      entry and leaves no duplicates. */
  lemma {:induction false} WithoutDistinct(s: seq<nat>, k: nat)
    requires NoDuplicates(s)
    ensures NoDuplicates(Without(s, k))
    ensures k in s ==> |Without(s, k)| == |s| - 1
  {
    if s != [] {
      assert NoDuplicates(s[1..]);
      WithoutDistinct(s[1..], k);
      if s[0] != k {
        var t := Without(s[1..], k);
        assert s[0] !in t;
        assert NoDuplicates([s[0]] + t) by {
          forall i, j | 0 <= i < j < |[s[0]] + t|
            ensures ([s[0]] + t)[i] != ([s[0]] + t)[j]
          {
            if i > 0 {
              assert ([s[0]] + t)[i] == t[i - 1];
            }
            assert ([s[0]] + t)[j] == t[j - 1];
          }
        }
      }
    }
  }

  /** erase_order: the key the policy evicts, and the list without it. */
  function Evict(policy: Policy, order: seq<nat>): (r: (nat, seq<nat>))
    requires order != []
    ensures policy == LRU ==> r.1 + [r.0] == order
    ensures policy == MRU ==> [r.0] + r.1 == order
  {
    match policy
    case LRU => (order[|order| - 1], order[..|order| - 1])
    case MRU => (order[0], order[1..])
  }

  /** What one set holds: its order list and its hash table. */
  datatype SetContents = SetContents(order: seq<nat>, cache: map<nat, int>) {

    /** The order list names every key of the table exactly once, and the set
        holds at most setSize entries. */
    ghost predicate Valid(setSize: nat) {
      NoDuplicates(order) && (forall k :: k in order <==> k in cache) && |order| <= setSize
    }

    /** cache_set::push. */
    function Push(policy: Policy, setSize: nat, key: nat, value: int): (r: SetContents)
      requires Valid(setSize) && setSize >= 1
      ensures r.order != [] && r.order[0] == key
      ensures key in r.cache && r.cache[key] == value
      ensures forall k | k in r.cache && k != key :: k in cache && r.cache[k] == cache[k]
    {
      if key in cache then
        SetContents([key] + Without(order, key), cache[key := value])
      else if |cache| >= setSize then
        OrderCoversCache(this, setSize);
        var (victim, rest) := Evict(policy, order);
        SetContents([key] + rest, (cache - {victim})[key := value])
      else
        SetContents([key] + order, cache[key := value])
    }

    /** cache_set::get: a present key moves to the front of the list. */
    function Get(key: nat): (r: (bool, int, SetContents))
      ensures r.0 <==> key in cache
      ensures r.0 ==> r.1 == cache[key] && r.2.cache == cache && r.2.order != [] && r.2.order[0] == key
      ensures !r.0 ==> r.1 == 0 && r.2 == this
    {
      if key in cache then (true, cache[key], SetContents([key] + Without(order, key), cache))
      else (false, 0, this)
    }
  }

  function EmptySet(): (r: SetContents)
    ensures forall setSize: nat :: r.Valid(setSize)
  {
    SetContents([], map[])
  }

  // ---------------------------------------------------------------------------
  // Properties of one set

  lemma {:induction false} DistinctSetSize(s: seq<nat>, keys: set<nat>)
    requires NoDuplicates(s) && forall k :: k in s <==> k in keys
    ensures |keys| == |s|
  {
    if s != [] {
      var tail := s[1..];
      assert NoDuplicates(tail);
      assert s[0] !in tail by {
        forall i | 0 <= i < |tail| ensures tail[i] != s[0] {
          assert tail[i] == s[i + 1];
        }
      }
      assert forall x :: x in s <==> x == s[0] || x in tail by {
        assert s == [s[0]] + tail;
      }
      DistinctSetSize(tail, keys - {s[0]});
    }
  }

  /** The table has as many entries as the order list has keys. */
  lemma OrderCoversCache(c: SetContents, setSize: nat)
    requires c.Valid(setSize)
    ensures |c.cache| == |c.order|
  {
    DistinctSetSize(c.order, c.cache.Keys);
  }

  /** push keeps a set consistent and within its size. */
  lemma PushKeepsValid(c: SetContents, policy: Policy, setSize: nat, key: nat, value: int)
    requires c.Valid(setSize) && setSize >= 1
    ensures c.Push(policy, setSize, key, value).Valid(setSize)
  {
    OrderCoversCache(c, setSize);
    if key in c.cache {
      WithoutDistinct(c.order, key);
      ConsDistinct(key, Without(c.order, key));
    } else if |c.cache| >= setSize {
      EvictKeepsValid(c, policy, setSize, key, value);
    } else {
      ConsDistinct(key, c.order);
    }
  }

  lemma ConsDistinct(x: nat, s: seq<nat>)
    requires NoDuplicates(s) && x !in s
    ensures NoDuplicates([x] + s)
  {
    forall i, j | 0 <= i < j < |[x] + s|
      ensures ([x] + s)[i] != ([x] + s)[j]
    {
      if i > 0 {
        assert ([x] + s)[i] == s[i - 1];
      }
      assert ([x] + s)[j] == s[j - 1];
    }
  }

  lemma EvictKeepsValid(c: SetContents, policy: Policy, setSize: nat, key: nat, value: int)
    requires c.Valid(setSize) && setSize >= 1 && key !in c.cache && |c.cache| >= setSize
    requires |c.cache| == |c.order|
    ensures c.Push(policy, setSize, key, value).Valid(setSize)
  {
    var (victim, rest) := Evict(policy, c.order);
    assert forall x :: x in c.order <==> x in rest || x == victim;
    assert NoDuplicates(rest) && victim !in rest;
    ConsDistinct(key, rest);
  }

  /** Pushing a key already in the set overwrites its value: the same keys
      stay, in a list of the same length, and nothing is evicted. */
  lemma PushPresent(c: SetContents, policy: Policy, setSize: nat, key: nat, value: int)
    requires c.Valid(setSize) && setSize >= 1 && key in c.cache
    ensures var r := c.Push(policy, setSize, key, value);
      r.cache == c.cache[key := value] && r.cache.Keys == c.cache.Keys && |r.order| == |c.order|
  {
    WithoutDistinct(c.order, key);
  }

  /** Pushing a new key into a full set first evicts exactly the key the
      policy picks: the back of the list under LRU, its front under MRU. */
  lemma PushEvicts(c: SetContents, policy: Policy, setSize: nat, key: nat, value: int)
    requires c.Valid(setSize) && setSize >= 1 && key !in c.cache && |c.cache| >= setSize
    ensures c.order != []
    ensures var victim := if policy == LRU then c.order[|c.order| - 1] else c.order[0];
      var r := c.Push(policy, setSize, key, value);
      r.cache.Keys == c.cache.Keys - {victim} + {key} && |r.order| == |c.order|
  {
    OrderCoversCache(c, setSize);
  }

  /** Pushing a new key into a set with room evicts nothing. */
  lemma PushRoom(c: SetContents, policy: Policy, setSize: nat, key: nat, value: int)
    requires c.Valid(setSize) && setSize >= 1 && key !in c.cache && |c.cache| < setSize
    ensures var r := c.Push(policy, setSize, key, value);
      r.cache.Keys == c.cache.Keys + {key} && r.order == [key] + c.order
  {
  }

  /** get right after push finds the pushed value, and leaves it in front. */
  lemma PushThenGet(c: SetContents, policy: Policy, setSize: nat, key: nat, value: int)
    requires c.Valid(setSize) && setSize >= 1
    ensures var g := c.Push(policy, setSize, key, value).Get(key);
      g.0 && g.1 == value && g.2.order[0] == key
  {
  }

  /** get keeps a set consistent, and changes only the order of its list. */
  lemma GetKeepsValid(c: SetContents, setSize: nat, key: nat)
    requires c.Valid(setSize)
    ensures var g := c.Get(key);
      g.2.Valid(setSize) && g.2.cache == c.cache && |g.2.order| == |c.order|
  {
    if key in c.cache {
      WithoutDistinct(c.order, key);
      ConsDistinct(key, Without(c.order, key));
    }
  }

  // ---------------------------------------------------------------------------
  // The list nodes and the iterators into them

  /** A node of the order list: the id of its allocation, and the key of the
      hash-table entry the node's iterator names. */
  datatype ListNode = ListNode(id: nat, key: nat)

  /** A table entry: the value and, as order_it, the id of a list node. */
  datatype Entry = Entry(value: int, orderIt: nat)

  /** A set as the program keeps it: the order list as nodes, the table of
      entries, and the id the next emplace_front allocates. */
  datatype NodeSet = NodeSet(nodes: seq<ListNode>, cache: map<nat, Entry>, nextId: nat)

  /** What a step does: a defined result, or undefined behaviour. */
  datatype Step<T> = Defined(r: T) | Undefined

  /** Some node still in the list carries the id. */
  predicate InList(nodes: seq<ListNode>, id: nat) {
    exists n | n in nodes :: n.id == id
  }

  /** The keys the nodes name, front to back: the order list as SetContents
      sees it. */
  function Keys(nodes: seq<ListNode>): (ks: seq<nat>)
    ensures |ks| == |nodes|
    ensures forall i | 0 <= i < |nodes| :: ks[i] == nodes[i].key
  {
    if nodes == [] then [] else [nodes[0].key] + Keys(nodes[1..])
  }

  /** The keys of a stretch of the list are that stretch of its keys. */
  lemma KeysSlice(nodes: seq<ListNode>, lo: nat, hi: nat)
    requires lo <= hi <= |nodes|
    ensures Keys(nodes[lo..hi]) == Keys(nodes)[lo..hi]
  {
    var a, b := Keys(nodes[lo..hi]), Keys(nodes)[lo..hi];
    assert |a| == |b|;
    forall i | 0 <= i < |a| ensures a[i] == b[i] {
      assert nodes[lo..hi][i] == nodes[lo + i];
    }
  }

  /** order.erase(it): the node it names leaves the list. Ids are allocated
      once, so at most one node carries the id. */
  function EraseNode(nodes: seq<ListNode>, id: nat): (r: seq<ListNode>)
    ensures forall n :: n in r <==> n in nodes && n.id != id
  {
    if nodes == [] then []
    else if nodes[0].id == id then EraseNode(nodes[1..], id)
    else [nodes[0]] + EraseNode(nodes[1..], id)
  }

  /** Lines 56-57 and 76-77: a hit on a cached key erases the node its entry's
      iterator names and puts a node for the key in front. With `refresh` the
      entry's iterator then names the new node, as line 70 does after an
      insertion; without it, as written, the iterator keeps the erased node's
      id. Erasing through an iterator whose node has left the list is
      undefined behaviour. */
  function Hit(s: NodeSet, key: nat, refresh: bool): (r: Step<NodeSet>)
    requires key in s.cache
    ensures r.Defined? <==> InList(s.nodes, s.cache[key].orderIt)
    ensures r.Defined? ==>
      r.r.nodes != [] && r.r.nodes[0] == ListNode(s.nextId, key) &&
      r.r.cache.Keys == s.cache.Keys && r.r.nextId == s.nextId + 1
  {
    var e := s.cache[key];
    if InList(s.nodes, e.orderIt) then
      Defined(NodeSet([ListNode(s.nextId, key)] + EraseNode(s.nodes, e.orderIt),
                      if refresh then s.cache[key := Entry(e.value, s.nextId)] else s.cache,
                      s.nextId + 1))
    else Undefined
  }

  /** erase_order on nodes: the node the policy evicts, and the list without
      it. */
  function EvictNode(policy: Policy, nodes: seq<ListNode>): (r: (ListNode, seq<ListNode>))
    requires nodes != []
    ensures (r.0.key, Keys(r.1)) == Evict(policy, Keys(nodes))
    ensures forall n | n in nodes :: n == r.0 || n in r.1
    ensures forall n | n in r.1 :: n in nodes
  {
    if policy == LRU then
      KeysSlice(nodes, 0, |nodes| - 1);
      (nodes[|nodes| - 1], nodes[..|nodes| - 1])
    else
      KeysSlice(nodes, 1, |nodes|);
      (nodes[0], nodes[1..])
  }

  /** cache_set::push on nodes: a hit stores the value and runs Hit; a new
      key evicts the policy's node when the set is full (erase_order on an
      empty list is undefined), then gets a new node in front that its entry's
      iterator names. */
  function NodePush(s: NodeSet, policy: Policy, setSize: nat, key: nat, value: int, refresh: bool): (r: Step<NodeSet>)
    ensures key !in s.cache && (|s.cache| < setSize || s.nodes != []) ==> r.Defined?
  {
    if key in s.cache then
      Hit(s.(cache := s.cache[key := s.cache[key].(value := value)]), key, refresh)
    else if |s.cache| < setSize then
      Defined(NodeSet([ListNode(s.nextId, key)] + s.nodes, s.cache[key := Entry(value, s.nextId)], s.nextId + 1))
    else if s.nodes == [] then Undefined
    else
      var (victim, rest) := EvictNode(policy, s.nodes);
      Defined(NodeSet([ListNode(s.nextId, key)] + rest, (s.cache - {victim.key})[key := Entry(value, s.nextId)], s.nextId + 1))
  }

  /** cache_set::get on nodes. */
  function NodeGet(s: NodeSet, key: nat, refresh: bool): (r: Step<(bool, int, NodeSet)>)
    ensures key !in s.cache ==> r == Defined((false, 0, s))
  {
    if key !in s.cache then Defined((false, 0, s))
    else match Hit(s, key, refresh)
      case Defined(t) => Defined((true, s.cache[key].value, t))
      case Undefined => Undefined
  }

  /** The table's values, without the iterators. */
  function Values(cache: map<nat, Entry>): (m: map<nat, int>)
    ensures m.Keys == cache.Keys
    ensures forall k | k in cache :: m[k] == cache[k].value
  {
    map k | k in cache :: cache[k].value
  }

  /** Storing an entry stores its value. */
  lemma ValuesStore(cache: map<nat, Entry>, k: nat, e: Entry)
    ensures Values(cache[k := e]) == Values(cache)[k := e.value]
  {
  }

  /** Moving an entry's iterator leaves the values as they were. */
  lemma ValuesRefresh(cache: map<nat, Entry>, k: nat, id: nat)
    requires k in cache
    ensures Values(cache[k := Entry(cache[k].value, id)]) == Values(cache)
  {
    var m, m' := Values(cache), Values(cache[k := Entry(cache[k].value, id)]);
    assert m'.Keys == m.Keys;
    assert forall j | j in m :: m'[j] == m[j];
  }

  /** A second store to a key overrides the first. */
  lemma StoreTwice(cache: map<nat, Entry>, k: nat, a: Entry, b: Entry)
    ensures cache[k := a][k := b] == cache[k := b]
  {
  }

  /** Erasing an entry erases its value. */
  lemma ValuesErase(cache: map<nat, Entry>, k: nat)
    ensures Values(cache - {k}) == Values(cache) - {k}
  {
  }

  /** The set SetContents describes: the nodes' keys as the order, and the
      entries' values. */
  function Abstract(s: NodeSet): (c: SetContents)
    ensures c.order == Keys(s.nodes) && c.cache == Values(s.cache)
  {
    SetContents(Keys(s.nodes), Values(s.cache))
  }

  /** The ids fall along the list and stay below `bound`, as they do when
      every node is put in front with a newly allocated id. */
  ghost predicate Fresh(nodes: seq<ListNode>, bound: nat)
    decreases |nodes|
  {
    nodes == [] || (nodes[0].id < bound && Fresh(nodes[1..], nodes[0].id))
  }

  lemma {:induction false} FreshBelow(nodes: seq<ListNode>, bound: nat)
    requires Fresh(nodes, bound)
    ensures forall n | n in nodes :: n.id < bound
  {
    if nodes != [] {
      FreshBelow(nodes[1..], nodes[0].id);
      assert nodes == [nodes[0]] + nodes[1..];
    }
  }

  lemma FreshWeaken(nodes: seq<ListNode>, lo: nat, hi: nat)
    requires Fresh(nodes, lo) && lo <= hi
    ensures Fresh(nodes, hi)
  {
  }

  /** Ids along a fresh list are unique. */
  lemma {:induction false} FreshUnique(nodes: seq<ListNode>, bound: nat, n: ListNode, m: ListNode)
    requires Fresh(nodes, bound) && n in nodes && m in nodes && n.id == m.id
    ensures n == m
  {
    assert nodes == [nodes[0]] + nodes[1..];
    FreshBelow(nodes[1..], nodes[0].id);
    if n != nodes[0] && m != nodes[0] {
      FreshUnique(nodes[1..], nodes[0].id, n, m);
    }
  }

  lemma {:induction false} FreshErase(nodes: seq<ListNode>, bound: nat, id: nat)
    requires Fresh(nodes, bound)
    ensures Fresh(EraseNode(nodes, id), bound)
  {
    if nodes != [] {
      FreshErase(nodes[1..], nodes[0].id, id);
      if nodes[0].id == id {
        FreshWeaken(EraseNode(nodes[1..], id), nodes[0].id, bound);
      } else {
        assert ([nodes[0]] + EraseNode(nodes[1..], id))[1..] == EraseNode(nodes[1..], id);
      }
    }
  }

  lemma {:induction false} FreshDropLast(nodes: seq<ListNode>, bound: nat)
    requires Fresh(nodes, bound) && nodes != []
    ensures Fresh(nodes[..|nodes| - 1], bound)
  {
    if |nodes| > 1 {
      FreshDropLast(nodes[1..], nodes[0].id);
      assert nodes[..|nodes| - 1][1..] == nodes[1..][..|nodes[1..]| - 1];
    }
  }

  lemma FreshEvict(policy: Policy, nodes: seq<ListNode>, bound: nat)
    requires Fresh(nodes, bound) && nodes != []
    ensures Fresh(EvictNode(policy, nodes).1, bound)
  {
    if policy == LRU {
      FreshDropLast(nodes, bound);
    } else {
      FreshWeaken(nodes[1..], nodes[0].id, bound);
    }
  }

  /** emplace_front of a node with the next id keeps the list fresh. */
  lemma FreshPush(rest: seq<ListNode>, bound: nat, key: nat)
    requires Fresh(rest, bound)
    ensures Fresh([ListNode(bound, key)] + rest, bound + 1)
  {
    assert ([ListNode(bound, key)] + rest)[1..] == rest;
  }

  /** Every entry's iterator names a node of the list carrying its key, and
      the list is fresh below the next id to allocate. */
  ghost predicate Tracks(s: NodeSet) {
    Fresh(s.nodes, s.nextId) &&
    forall k | k in s.cache :: ListNode(s.cache[k].orderIt, k) in s.nodes
  }

  function EmptyNodeSet(): (s: NodeSet)
    ensures Tracks(s) && Abstract(s) == EmptySet()
  {
    NodeSet([], map[], 0)
  }

  /** As written, the first hit on a key is defined but leaves its entry's
      iterator naming a node that is no longer in the list, so the next get
      of that key is undefined behaviour. */
  lemma HitLeavesIteratorStale(s: NodeSet, key: nat)
    requires Tracks(s) && key in s.cache
    ensures NodeGet(s, key, false).Defined?
    ensures var t := NodeGet(s, key, false).r.2;
      key in t.cache && !InList(t.nodes, t.cache[key].orderIt) && NodeGet(t, key, false) == Undefined
  {
    var e := s.cache[key];
    assert ListNode(e.orderIt, key) in s.nodes;
    FreshBelow(s.nodes, s.nextId);
    var t := NodeGet(s, key, false).r.2;
    assert e.orderIt < s.nextId;
    assert !InList(t.nodes, t.cache[key].orderIt);
  }

  /** push(k, 1); get(k); get(k) on an empty set: the second get erases
      through a dangling iterator. */
  lemma SecondGetUndefined(policy: Policy, setSize: nat, key: nat)
    requires setSize >= 1
    ensures var s := NodePush(EmptyNodeSet(), policy, setSize, key, 1, false);
      s.Defined? && NodeGet(s.r, key, false).Defined? &&
      NodeGet(NodeGet(s.r, key, false).r.2, key, false) == Undefined
  {
    var s := NodePush(EmptyNodeSet(), policy, setSize, key, 1, false).r;
    assert s.nodes == [ListNode(0, key)];
    HitLeavesIteratorStale(s, key);
  }

  /** push(k, 1); push(k, 2); push(k, 3) on an empty set: the third push
      erases through a dangling iterator. */
  lemma ThirdPushUndefined(policy: Policy, setSize: nat, key: nat)
    requires setSize >= 1
    ensures var s1 := NodePush(EmptyNodeSet(), policy, setSize, key, 1, false);
      s1.Defined? && var s2 := NodePush(s1.r, policy, setSize, key, 2, false);
      s2.Defined? && NodePush(s2.r, policy, setSize, key, 3, false) == Undefined
  {
    var s1 := NodePush(EmptyNodeSet(), policy, setSize, key, 1, false).r;
    assert s1.nodes == [ListNode(0, key)];
    assert InList(s1.nodes, 0);
    assert EraseNode(s1.nodes, 0) == [];
    var s2 := NodePush(s1, policy, setSize, key, 2, false).r;
    assert s2.nodes == [ListNode(1, key)];
    assert s2.cache[key].orderIt == 0;
  }

  /** When the nodes carrying the id are exactly those carrying the key,
      erasing by id drops the key from the order. */
  lemma {:induction false} EraseNodeKeys(nodes: seq<ListNode>, id: nat, key: nat)
    requires forall n | n in nodes :: n.id == id <==> n.key == key
    ensures Keys(EraseNode(nodes, id)) == Without(Keys(nodes), key)
  {
    if nodes != [] {
      assert forall n | n in nodes[1..] :: n in nodes;
      EraseNodeKeys(nodes[1..], id, key);
      assert Keys(nodes) == [nodes[0].key] + Keys(nodes[1..]);
      if nodes[0].id != id {
        assert Keys([nodes[0]] + EraseNode(nodes[1..], id)) == [nodes[0].key] + Keys(EraseNode(nodes[1..], id));
      }
    }
  }

  /** In a tracked set whose order has no duplicates, a node carries the
      entry's id exactly when it carries the entry's key. */
  lemma NodeOfKey(s: NodeSet, key: nat)
    requires Tracks(s) && NoDuplicates(Keys(s.nodes)) && key in s.cache
    ensures forall n | n in s.nodes :: n.id == s.cache[key].orderIt <==> n.key == key
  {
    var mine := ListNode(s.cache[key].orderIt, key);
    forall n | n in s.nodes ensures n.id == mine.id <==> n.key == key {
      if n.id == mine.id {
        FreshUnique(s.nodes, s.nextId, n, mine);
      }
      if n.key == key {
        var i, j :| 0 <= i < |s.nodes| && s.nodes[i] == n && 0 <= j < |s.nodes| && s.nodes[j] == mine;
        assert Keys(s.nodes)[i] == Keys(s.nodes)[j];
      }
    }
  }

  /** With the iterator refreshed, a hit keeps every entry's iterator on a
      node carrying its key. */
  lemma CorrectedHitTracks(s: NodeSet, key: nat)
    requires Tracks(s) && key in s.cache && InList(s.nodes, s.cache[key].orderIt)
    ensures Tracks(Hit(s, key, true).r)
  {
    var e := s.cache[key];
    var rest := EraseNode(s.nodes, e.orderIt);
    var t := Hit(s, key, true).r;
    assert t.nodes == [ListNode(s.nextId, key)] + rest;
    FreshErase(s.nodes, s.nextId, e.orderIt);
    FreshPush(rest, s.nextId, key);
    forall k | k in t.cache ensures ListNode(t.cache[k].orderIt, k) in t.nodes {
      if k != key {
        var n := ListNode(s.cache[k].orderIt, k);
        if n.id == e.orderIt {
          FreshUnique(s.nodes, s.nextId, n, ListNode(e.orderIt, key));
        }
        assert n in rest;
      }
    }
  }

  /** With the iterator refreshed, a hit keeps the iterators tracking their
      nodes and moves the key to the front of the order, as the present-key
      branches of SetContents.Push and SetContents.Get do. */
  lemma CorrectedHitRefines(s: NodeSet, key: nat)
    requires Tracks(s) && NoDuplicates(Keys(s.nodes)) && key in s.cache
    ensures Hit(s, key, true).Defined?
    ensures var t := Hit(s, key, true).r;
      Tracks(t) && t.cache == s.cache[key := Entry(s.cache[key].value, s.nextId)] &&
      Keys(t.nodes) == [key] + Without(Keys(s.nodes), key)
  {
    var e := s.cache[key];
    assert ListNode(e.orderIt, key) in s.nodes;
    CorrectedHitTracks(s, key);
    NodeOfKey(s, key);
    EraseNodeKeys(s.nodes, e.orderIt, key);
    var t := Hit(s, key, true).r;
    assert Keys(t.nodes) == [key] + Keys(EraseNode(s.nodes, e.orderIt));
  }

  /** The corrected get refines SetContents.Get and keeps the iterators
      tracking their nodes. */
  lemma CorrectedGetRefines(s: NodeSet, setSize: nat, key: nat)
    requires Tracks(s) && Abstract(s).Valid(setSize)
    ensures NodeGet(s, key, true).Defined?
    ensures var (found, value, t) := NodeGet(s, key, true).r;
      Tracks(t) && (found, value, Abstract(t)) == Abstract(s).Get(key)
  {
    if key in s.cache {
      CorrectedHitRefines(s, key);
      ValuesRefresh(s.cache, key, s.nextId);
    }
  }

  /** The corrected push refines SetContents.Push and keeps the iterators
      tracking their nodes. */
  lemma CorrectedPushRefines(s: NodeSet, policy: Policy, setSize: nat, key: nat, value: int)
    requires Tracks(s) && Abstract(s).Valid(setSize) && setSize >= 1
    ensures NodePush(s, policy, setSize, key, value, true).Defined?
    ensures var t := NodePush(s, policy, setSize, key, value, true).r;
      Tracks(t) && Abstract(t) == Abstract(s).Push(policy, setSize, key, value)
  {
    OrderCoversCache(Abstract(s), setSize);
    if key in s.cache {
      CorrectedPushHitRefines(s, policy, setSize, key, value);
    } else if |s.cache| >= setSize {
      CorrectedEvictRefines(s, policy, setSize, key, value);
    } else {
      CorrectedPushRoomRefines(s, policy, setSize, key, value);
    }
  }

  lemma CorrectedPushHitRefines(s: NodeSet, policy: Policy, setSize: nat, key: nat, value: int)
    requires Tracks(s) && Abstract(s).Valid(setSize) && setSize >= 1 && key in s.cache
    ensures NodePush(s, policy, setSize, key, value, true).Defined?
    ensures var t := NodePush(s, policy, setSize, key, value, true).r;
      Tracks(t) && Abstract(t) == Abstract(s).Push(policy, setSize, key, value)
  {
    var s' := s.(cache := s.cache[key := s.cache[key].(value := value)]);
    assert Tracks(s');
    CorrectedHitRefines(s', key);
    StoreTwice(s.cache, key, s.cache[key].(value := value), Entry(value, s.nextId));
    ValuesStore(s.cache, key, Entry(value, s.nextId));
  }

  lemma CorrectedPushRoomRefines(s: NodeSet, policy: Policy, setSize: nat, key: nat, value: int)
    requires Tracks(s) && Abstract(s).Valid(setSize) && key !in s.cache && |s.cache| < setSize
    ensures NodePush(s, policy, setSize, key, value, true).Defined?
    ensures var t := NodePush(s, policy, setSize, key, value, true).r;
      Tracks(t) && Abstract(t) == Abstract(s).Push(policy, setSize, key, value)
  {
    var t := NodePush(s, policy, setSize, key, value, true).r;
    CorrectedPushRoomTracks(s, policy, setSize, key, value);
    assert Keys(t.nodes) == [key] + Keys(s.nodes);
    ValuesStore(s.cache, key, Entry(value, s.nextId));
  }

  lemma CorrectedPushRoomTracks(s: NodeSet, policy: Policy, setSize: nat, key: nat, value: int)
    requires Tracks(s) && key !in s.cache && |s.cache| < setSize
    ensures NodePush(s, policy, setSize, key, value, true).Defined?
    ensures Tracks(NodePush(s, policy, setSize, key, value, true).r)
  {
    var t := NodePush(s, policy, setSize, key, value, true).r;
    assert t.nodes == [ListNode(s.nextId, key)] + s.nodes;
    FreshPush(s.nodes, s.nextId, key);
    forall k | k in t.cache ensures ListNode(t.cache[k].orderIt, k) in t.nodes {
      if k != key {
        assert ListNode(s.cache[k].orderIt, k) in s.nodes;
      }
    }
  }

  lemma CorrectedEvictTracks(s: NodeSet, policy: Policy, setSize: nat, key: nat, value: int)
    requires Tracks(s) && s.nodes != [] && key !in s.cache && |s.cache| >= setSize
    ensures NodePush(s, policy, setSize, key, value, true).Defined?
    ensures Tracks(NodePush(s, policy, setSize, key, value, true).r)
  {
    var (victim, rest) := EvictNode(policy, s.nodes);
    var t := NodePush(s, policy, setSize, key, value, true).r;
    assert t.nodes == [ListNode(s.nextId, key)] + rest;
    FreshEvict(policy, s.nodes, s.nextId);
    FreshPush(rest, s.nextId, key);
    forall k | k in t.cache ensures ListNode(t.cache[k].orderIt, k) in t.nodes {
      if k != key {
        assert k in s.cache && k != victim.key;
        var n := ListNode(s.cache[k].orderIt, k);
        assert n in s.nodes && n != victim;
        assert n in rest;
      }
    }
  }

  lemma CorrectedEvictRefines(s: NodeSet, policy: Policy, setSize: nat, key: nat, value: int)
    requires Tracks(s) && Abstract(s).Valid(setSize) && setSize >= 1
    requires key !in s.cache && |s.cache| >= setSize && |s.cache| == |s.nodes|
    ensures NodePush(s, policy, setSize, key, value, true).Defined?
    ensures var t := NodePush(s, policy, setSize, key, value, true).r;
      Tracks(t) && Abstract(t) == Abstract(s).Push(policy, setSize, key, value)
  {
    var (victim, rest) := EvictNode(policy, s.nodes);
    CorrectedEvictTracks(s, policy, setSize, key, value);
    var t := NodePush(s, policy, setSize, key, value, true).r;
    assert Keys(t.nodes) == [key] + Keys(rest);
    ValuesErase(s.cache, victim.key);
    ValuesStore(s.cache - {victim.key}, key, Entry(value, s.nextId));
  }

  // ---------------------------------------------------------------------------
  // The cache

  /** The set a key lives in. */
  function SetIndex(key: nat, setNum: nat): (i: nat)
    requires setNum >= 1
    ensures i < setNum
    ensures key < setNum ==> i == key
  {
    key % setNum
  }


  class CacheSet {
    const policy: Policy
    const setSize: nat
    var order: seq<nat>
    var cache: map<nat, int>

    function Contents(): SetContents
      reads this
    {
      SetContents(order, cache)
    }

    ghost predicate Valid()
      reads this
    {
      setSize >= 1 && Contents().Valid(setSize)
    }

    constructor(policy: Policy, setSize: nat)
      requires setSize >= 1
      ensures this.policy == policy && this.setSize == setSize
      ensures Contents() == EmptySet() && Valid()
    {
      this.policy := policy;
      this.setSize := setSize;
      order := [];
      cache := map[];
    }

    /** erase_order<Policy>: pops the key the policy evicts off the order
        list and returns it. */
    method PopVictim() returns (victim: nat)
      requires order != []
      modifies this
      ensures (victim, order) == Evict(policy, old(order)) && cache == old(cache)
    {
      if policy == LRU {
        victim := order[|order| - 1];
        order := order[..|order| - 1];
      } else {
        victim := order[0];
        order := order[1..];
      }
    }

    method Push(key: nat, value: int)
      requires Valid()
      modifies this
      ensures Contents() == old(Contents()).Push(policy, setSize, key, value) && Valid()
    {
      PushKeepsValid(Contents(), policy, setSize, key, value);
      if key in cache {
        cache := cache[key := value];
        order := Without(order, key);
        order := [key] + order;
        return;
      }
      if |cache| >= setSize {
        OrderCoversCache(Contents(), setSize);
        var victim := PopVictim();
        cache := cache - {victim};
      }
      cache := cache[key := value];
      order := [key] + order;
    }

    method Get(key: nat) returns (found: bool, value: int)
      requires Valid()
      modifies this
      ensures (found, value, Contents()) == old(Contents()).Get(key) && Valid()
    {
      GetKeepsValid(Contents(), setSize, key);
      if key in cache {
        order := Without(order, key);
        order := [key] + order;
        return true, cache[key];
      }
      return false, 0;
    }
  }

  class SetAssociativeCache {
    const policy: Policy
    const cacheSize: nat
    const setSize: nat
    const sets: seq<CacheSet>

    /** Every set is its own object holding keys routed to it. */
    ghost predicate Valid()
      reads this, sets
    {
      setSize >= 1 && cacheSize >= setSize && |sets| == cacheSize / setSize &&
      (forall i, j | 0 <= i < j < |sets| :: sets[i] != sets[j]) &&
      (forall i | 0 <= i < |sets| ::
        sets[i].Valid() && sets[i].policy == policy && sets[i].setSize == setSize &&
        forall k | k in sets[i].cache :: SetIndex(k, |sets|) == i)
    }

    constructor(policy: Policy, cacheSize: nat, setSize: nat)
      requires setSize >= 1 && cacheSize >= setSize
      ensures this.policy == policy && this.cacheSize == cacheSize && this.setSize == setSize
      ensures Valid() && forall i | 0 <= i < |sets| :: sets[i].Contents() == EmptySet()
    {
      this.policy := policy;
      this.cacheSize := cacheSize;
      this.setSize := setSize;
      var setNum := cacheSize / setSize;
      var made: seq<CacheSet> := [];
      while |made| < setNum
        invariant |made| <= setNum
        invariant forall i, j | 0 <= i < j < |made| :: made[i] != made[j]
        invariant forall i | 0 <= i < |made| ::
          fresh(made[i]) && made[i].Valid() && made[i].policy == policy && made[i].setSize == setSize &&
          made[i].Contents() == EmptySet()
      {
        var s := new CacheSet(policy, setSize);
        made := made + [s];
      }
      sets := made;
    }

    /** push: the key goes to set key % set_num; no other set changes. */
    method Push(key: nat, value: int)
      requires Valid()
      modifies sets[SetIndex(key, |sets|)]
      ensures Valid()
      ensures var i := SetIndex(key, |sets|);
        sets[i].Contents() == old(sets[i].Contents()).Push(policy, setSize, key, value)
    {
      var i := SetIndex(key, |sets|);
      sets[i].Push(key, value);
    }

    /** get: looks in set key % set_num only. */
    method Get(key: nat) returns (found: bool, value: int)
      requires Valid()
      modifies sets[SetIndex(key, |sets|)]
      ensures Valid()
      ensures var i := SetIndex(key, |sets|);
        (found, value, sets[i].Contents()) == old(sets[i].Contents()).Get(key)
    {
      var i := SetIndex(key, |sets|);
      found, value := sets[i].Get(key);
    }
  }
}
