/** The LRU cache itself: a hash index from keys to list nodes plus a doubly
    linked recency list bounded by two sentinel nodes. Nodes live in an arena
    addressed by integer handles; allocating a node takes a handle never used
    before and freeing one removes it from the arena. */
module LruCache {
  import opened LruSpec

  /** One list node. `prev` and `next` are handles, `Null` for no node. */
  datatype Node = Node(key: int, value: int, prev: int, next: int)

  const Null: int := -1
  /** Handle of the sentinel before the most recent entry. */
  const Head: int := 0
  /** Handle of the sentinel after the least recent entry. */
  const Tail: int := 1

  /** The node at position `i` of the chain: `-1` is the head sentinel,
      `|slots|` the tail sentinel, and in between the entries in order. */
  function LinkAt(slots: seq<int>, i: int): int
    requires -1 <= i <= |slots|
  {
    if i == -1 then Head else if i == |slots| then Tail else slots[i]
  }

  /** `arena` holds a well-formed chain head, slots[0], ..., slots[n-1], tail:
      every `next` points one step on, every `prev` one step back, the handles
      of the entries are distinct and are not the sentinels, and the sentinels
      keep their outer links null. */
  ghost predicate Chain(arena: map<int, Node>, slots: seq<int>)
  {
    Head in arena && Tail in arena &&
    arena[Head].prev == Null && arena[Tail].next == Null &&
    (forall i :: 0 <= i < |slots| ==> slots[i] in arena && 2 <= slots[i]) &&
    Distinct(slots) &&
    (forall i :: -1 <= i < |slots| ==> arena[LinkAt(slots, i)].next == LinkAt(slots, i + 1)) &&
    (forall i :: 0 <= i <= |slots| ==> arena[LinkAt(slots, i)].prev == LinkAt(slots, i - 1))
  }

  /** Nothing but the links differs between two arenas. */
  ghost predicate SameEntries(a: map<int, Node>, b: map<int, Node>)
  {
    a.Keys == b.Keys &&
    forall h :: h in a ==> a[h].key == b[h].key && a[h].value == b[h].value
  }

  /** Linking an unlisted node between the head sentinel and the first
      node puts it in front of the chain and changes no key or value. */
  lemma ChainLinkFront(a: map<int, Node>, s: seq<int>, node: int)
    requires Chain(a, s) && node in a && 2 <= node && node !in s
    ensures a[Head].next == LinkAt(s, 0)
    ensures var first := LinkAt(s, 0);
      var a1 := a[node := a[node].(next := first)];
      var a2 := a1[node := a1[node].(prev := Head)];
      var a3 := a2[first := a2[first].(prev := node)];
      var a4 := a3[Head := a3[Head].(next := node)];
      Chain(a4, [node] + s) && SameEntries(a4, a)
  {
    assert LinkAt(s, -1) == Head;
    var first := LinkAt(s, 0);
    var a1 := a[node := a[node].(next := first)];
    var a2 := a1[node := a1[node].(prev := Head)];
    var a3 := a2[first := a2[first].(prev := node)];
    var a4 := a3[Head := a3[Head].(next := node)];
    var s1 := [node] + s;
    forall i | 1 <= i <= |s1|
      ensures LinkAt(s1, i) == LinkAt(s, i - 1)
    {
    }
    forall i | -1 <= i < |s1|
      ensures a4[LinkAt(s1, i)].next == LinkAt(s1, i + 1)
    {
      if i >= 1 {
        assert a[LinkAt(s, i - 1)].next == LinkAt(s, i);
      }
    }
    forall i | 0 <= i <= |s1|
      ensures a4[LinkAt(s1, i)].prev == LinkAt(s1, i - 1)
    {
      if i >= 2 {
        assert a[LinkAt(s, i - 1)].prev == LinkAt(s, i - 2);
      }
    }
    assert Distinct(s1) by {
      assert forall j :: 0 <= j < |s| ==> s1[j + 1] == s[j];
    }
  }

  /** The chain after cutting out position `i`, read through the old one. */
  lemma LinkAtCut(s: seq<int>, i: int, j: int)
    requires 0 <= i < |s| && -1 <= j <= |s| - 1
    ensures LinkAt(s[..i] + s[i + 1..], j) == if j < i then LinkAt(s, j) else LinkAt(s, j + 1)
  {
  }

  /** Joining the two neighbours of the entry at position `i` removes it from
      the chain and changes no key or value. */
  lemma ChainUnlink(a: map<int, Node>, s: seq<int>, i: int)
    requires Chain(a, s) && 0 <= i < |s|
    ensures a[s[i]].prev == LinkAt(s, i - 1) && a[s[i]].next == LinkAt(s, i + 1)
    ensures Chain(Unlinked(a, s, i), s[..i] + s[i + 1..]) && SameEntries(Unlinked(a, s, i), a)
  {
    assert LinkAt(s, i) == s[i];
    var s1 := s[..i] + s[i + 1..];
    UnlinkNext(a, s, i);
    UnlinkPrev(a, s, i);
    assert Distinct(s1) by {
      assert forall j :: 0 <= j < |s1| ==> s1[j] == if j < i then s[j] else s[j + 1];
    }
  }

  /** The arena after joining the two neighbours of the entry at position `i`. */
  ghost function Unlinked(a: map<int, Node>, s: seq<int>, i: int): (r: map<int, Node>)
    requires Chain(a, s) && 0 <= i < |s|
    ensures r.Keys == a.Keys
  {
    var before, after := LinkAt(s, i - 1), LinkAt(s, i + 1);
    var a1 := a[before := a[before].(next := after)];
    a1[after := a1[after].(prev := before)]
  }

  lemma UnlinkNext(a: map<int, Node>, s: seq<int>, i: int)
    requires Chain(a, s) && 0 <= i < |s|
    ensures var s1, a2 := s[..i] + s[i + 1..], Unlinked(a, s, i);
      forall j :: -1 <= j < |s1| ==> a2[LinkAt(s1, j)].next == LinkAt(s1, j + 1)
  {
    var s1, a2 := s[..i] + s[i + 1..], Unlinked(a, s, i);
    assert LinkAt(s, i) == s[i];
    assert LinkAt(s, i - 1) != LinkAt(s, i + 1);
    forall j | -1 <= j < |s1|
      ensures a2[LinkAt(s1, j)].next == LinkAt(s1, j + 1)
    {
      LinkAtCut(s, i, j);
      LinkAtCut(s, i, j + 1);
      if j < i - 1 {
        assert a[LinkAt(s, j)].next == LinkAt(s, j + 1);
      } else if j >= i {
        assert a[LinkAt(s, j + 1)].next == LinkAt(s, j + 2);
      }
    }
  }

  lemma UnlinkPrev(a: map<int, Node>, s: seq<int>, i: int)
    requires Chain(a, s) && 0 <= i < |s|
    ensures var s1, a2 := s[..i] + s[i + 1..], Unlinked(a, s, i);
      forall j :: 0 <= j <= |s1| ==> a2[LinkAt(s1, j)].prev == LinkAt(s1, j - 1)
  {
    var s1, a2 := s[..i] + s[i + 1..], Unlinked(a, s, i);
    assert LinkAt(s, i) == s[i];
    assert LinkAt(s, i - 1) != LinkAt(s, i + 1);
    forall j | 0 <= j <= |s1|
      ensures a2[LinkAt(s1, j)].prev == LinkAt(s1, j - 1)
    {
      LinkAtCut(s, i, j);
      LinkAtCut(s, i, j - 1);
      if j < i {
        assert a[LinkAt(s, j)].prev == LinkAt(s, j - 1);
      } else if j > i {
        assert a[LinkAt(s, j + 1)].prev == LinkAt(s, j);
      }
    }
  }

  /** The concrete state (index, arena, next fresh handle) stands for the
      abstract cache `c`, with `slots` the handles of its entries in recency
      order: the chain lists them, the index maps each key to its node, the
      nodes carry the keys and values, every handle in use was handed out
      already, the arena holds the two sentinels and the listed nodes and
      nothing else (no node is leaked), and the index holds as many keys as
      the list. */
  ghost predicate Represents(index: map<int, int>, arena: map<int, Node>, nextHandle: int,
                             slots: seq<int>, c: Cache)
  {
    Inv(c) &&
    Chain(arena, slots) && |slots| == |c.order| &&
    2 <= nextHandle &&
    (forall h :: h in arena ==> h < nextHandle) && |arena| == |slots| + 2 &&
    (forall i :: 0 <= i < |slots| ==>
      c.order[i] in index && index[c.order[i]] == slots[i] &&
      arena[slots[i]].key == c.order[i] && arena[slots[i]].value == c.values[c.order[i]]) &&
    (forall k :: k in index <==> k in c.values) &&
    |index| == |c.order|
  }

  /** Distinct positions of a chain hold distinct nodes. */
  lemma LinkAtInjective(s: seq<int>)
    requires Distinct(s) && forall i :: 0 <= i < |s| ==> 2 <= s[i]
    ensures forall p, q :: -1 <= p < q <= |s| ==> LinkAt(s, p) != LinkAt(s, q)
  {
  }

  /** Two nodes with the same links. */
  predicate SameLinks(x: Node, y: Node)
  {
    x.prev == y.prev && x.next == y.next
  }

  /** A chain only depends on the links of the sentinels and the listed nodes. */
  lemma ChainAgree(a: map<int, Node>, b: map<int, Node>, s: seq<int>)
    requires Chain(a, s)
    requires Head in b && Tail in b && SameLinks(b[Head], a[Head]) && SameLinks(b[Tail], a[Tail])
    requires forall i :: 0 <= i < |s| ==> s[i] in b && SameLinks(b[s[i]], a[s[i]])
    ensures Chain(b, s)
  {
    forall i | -1 <= i <= |s|
      ensures LinkAt(s, i) in b && SameLinks(b[LinkAt(s, i)], a[LinkAt(s, i)])
    {
    }
  }

  /** Position by position, the promoted slots and the promoted order agree
      with the index and hold the new values. */
  lemma PromotedEntries(index: map<int, int>, a: map<int, Node>, a2: map<int, Node>, nh: int,
                        s: seq<int>, c: Cache, i: int, value: int,
                        s1: seq<int>, order1: seq<int>, values1: map<int, int>)
    requires Represents(index, a, nh, s, c) && 0 <= i < |c.order|
    requires SameEntries(a2, a[s[i] := a[s[i]].(value := value)])
    requires s1 == [s[i]] + (s[..i] + s[i + 1..])
    requires order1 == [c.order[i]] + (c.order[..i] + c.order[i + 1..])
    requires values1 == c.values[c.order[i] := value]
    ensures |s1| == |order1| == |s|
    ensures forall j :: 0 <= j < |s1| ==>
      order1[j] in index && index[order1[j]] == s1[j] &&
      a2[s1[j]].key == order1[j] && a2[s1[j]].value == values1[order1[j]]
  {
    PromotedAt(s, i, 0);
    PromotedAt(c.order, i, 0);
    forall j | 0 <= j < |s1|
      ensures order1[j] in index && index[order1[j]] == s1[j]
      ensures a2[s1[j]].key == order1[j] && a2[s1[j]].value == values1[order1[j]]
    {
      PromotedAt(s, i, j);
      PromotedAt(c.order, i, j);
    }
  }

  /** Promoting the entry of `key` (and storing `value` in it) keeps the
      representation, for the cache with `key` in front. */
  lemma RepresentsPromote(index: map<int, int>, a: map<int, Node>, a1: map<int, Node>, a2: map<int, Node>,
                          nh: int, s: seq<int>, s2: seq<int>, c: Cache, c2: Cache, key: int, value: int)
    requires Represents(index, a, nh, s, c) && key in index
    requires index[key] in s
    requires s2 == [index[key]] + Without(s, index[key])
    requires a1 == a[index[key] := a[index[key]].(value := value)]
    requires Chain(a2, s2) && SameEntries(a2, a1)
    requires c2 == Cache(c.capacity, [key] + Without(c.order, key), c.values[key := value])
    ensures a[index[key]].value == c.values[key]
    ensures Represents(index, a2, nh, s2, c2)
  {
    var node := index[key];
    var i :| 0 <= i < |c.order| && c.order[i] == key;
    assert s[i] == node;
    WithoutAt(s, i);
    WithoutAt(c.order, i);
    PromotedEntries(index, a, a2, nh, s, c, i, value, s2, c2.order, c2.values);
    PutPreservesInv(c, key, value);
    assert c2 == Put(c, key, value);
    assert a2.Keys == a.Keys;
    assert |a2| == |a2.Keys| == |a.Keys| == |a|;
  }

  /** The node before the tail sentinel is the last entry, and holds the least
      recently used key. */
  lemma EvictTarget(index: map<int, int>, a: map<int, Node>, nh: int, s: seq<int>, c: Cache)
    requires Represents(index, a, nh, s, c) && c.order != []
    ensures a[Tail].prev == s[|s| - 1] && a[s[|s| - 1]].key == c.order[|c.order| - 1]
  {
    assert LinkAt(s, |s|) == Tail && LinkAt(s, |s| - 1) == s[|s| - 1];
  }

  /** Cutting out the last entry and dropping its node and key represents the
      cache without its least recently used key. */
  lemma RepresentsEvict(index: map<int, int>, a: map<int, Node>, a2: map<int, Node>, nh: int,
                        s: seq<int>, c: Cache,
                        index2: map<int, int>, a3: map<int, Node>, s2: seq<int>, c2: Cache)
    requires Represents(index, a, nh, s, c) && c.order != []
    requires Chain(a2, s[..|s| - 1]) && SameEntries(a2, a)
    requires index2 == index - {c.order[|c.order| - 1]} && a3 == a2 - {s[|s| - 1]}
    requires s2 == s[..|s| - 1] && c2 == Evict(c)
    ensures Represents(index2, a3, nh, s2, c2)
  {
    var n := |s|;
    var lru, k := s[n - 1], c.order[n - 1];
    assert LinkAt(s, n) == Tail && LinkAt(s, n - 1) == lru;
    var s1, c1, index1 := s2, c2, index2;
    EvictPreservesInv(c);
    assert lru !in s1 && lru != Head && lru != Tail by {
      assert forall j :: 0 <= j < n - 1 ==> s1[j] == s[j];
    }
    ChainAgree(a2, a3, s1);
    assert index1.Keys == index.Keys - {k};
    assert |index1| == |index| - 1;
    forall j | 0 <= j < |s1|
      ensures c1.order[j] in index1 && index1[c1.order[j]] == s1[j]
      ensures a3[s1[j]].key == c1.order[j] && a3[s1[j]].value == c1.values[c1.order[j]]
    {
      assert c1.order[j] == c.order[j] != k;
      assert s1[j] == s[j] != lru;
    }
    assert a3.Keys == a.Keys - {lru};
    assert |a3| == |a| - 1;
  }

  /** Position by position, the slots and the order with the new key in
      front agree with the extended index and hold the stored values. */
  lemma InsertedEntries(index: map<int, int>, a: map<int, Node>, a2: map<int, Node>, nh: int,
                        s: seq<int>, c: Cache, key: int, value: int)
    requires Represents(index, a, nh, s, c) && key !in index
    requires SameEntries(a2, a[nh := Node(key, value, Null, Null)])
    ensures forall j :: 0 <= j < |s| + 1 ==>
      ([key] + c.order)[j] in index[key := nh] && index[key := nh][([key] + c.order)[j]] == ([nh] + s)[j] &&
      a2[([nh] + s)[j]].key == ([key] + c.order)[j] &&
      a2[([nh] + s)[j]].value == c.values[key := value][([key] + c.order)[j]]
  {
    var s1, order1 := [nh] + s, [key] + c.order;
    assert nh !in a;
    forall j | 0 <= j < |s1|
      ensures order1[j] in index[key := nh] && index[key := nh][order1[j]] == s1[j]
      ensures a2[s1[j]].key == order1[j] && a2[s1[j]].value == c.values[key := value][order1[j]]
    {
      if j > 0 {
        assert s1[j] == s[j - 1] && order1[j] == c.order[j - 1];
        assert c.order[j - 1] != key;
      }
    }
  }

  /** Linking a fresh node for a new key in front, with room to spare,
      represents the cache with that key added in front. */
  lemma RepresentsInsert(index: map<int, int>, a: map<int, Node>, a2: map<int, Node>, nh: int,
                         s: seq<int>, s2: seq<int>, c: Cache, c2: Cache, key: int, value: int)
    requires Represents(index, a, nh, s, c) && key !in index && |c.order| < c.capacity
    requires s2 == [nh] + s && c2 == Cache(c.capacity, [key] + c.order, c.values[key := value])
    requires Chain(a2, s2) && SameEntries(a2, a[nh := Node(key, value, Null, Null)])
    ensures Represents(index[key := nh], a2, nh + 1, s2, c2)
  {
    assert c2 == Put(c, key, value);
    PutPreservesInv(c, key, value);
    InsertedEntries(index, a, a2, nh, s, c, key, value);
    assert nh !in a;
    assert a2.Keys == a.Keys + {nh};
    assert |a2| == |a| + 1;
  }

  class LRUCache {
    const capacity: int
    /** The index: key to the handle of its node. */
    var cache: map<int, int>
    /** Every allocated node, sentinels included. */
    var arena: map<int, Node>
    /** The next handle `new` hands out. */
    var nextHandle: int

    /** Handles of the entries, most recent first. */
    ghost var Slots: seq<int>
    /** Keys, most recent first. */
    ghost var Order: seq<int>
    /** Value stored under each key. */
    ghost var Values: map<int, int>

    ghost function Abstract(): Cache
      reads this
    {
      Cache(capacity, Order, Values)
    }

    ghost predicate Valid()
      reads this
    {
      Represents(cache, arena, nextHandle, Slots, Abstract())
    }

    /** An empty cache whose sentinels point at each other. */
    constructor (capacity: int)
      requires 1 <= capacity
      ensures Valid() && Abstract() == Init(capacity)
      ensures arena[Head].next == Tail && arena[Tail].prev == Head
    {
      this.capacity := capacity;
      cache := map[];
      arena := map[Head := Node(-1, -1, Null, Null), Tail := Node(-1, -1, Null, Null)];
      nextHandle := 2;
      Slots, Order, Values := [], [], map[];
      new;
      arena := arena[Head := arena[Head].(next := Tail)];
      arena := arena[Tail := arena[Tail].(prev := Head)];
    }

    /** Link an unlinked node right after the head sentinel. */
    method AddToFront(node: int)
      requires Chain(arena, Slots) && node in arena && 2 <= node && node !in Slots
      modifies this`arena, this`Slots
      ensures Chain(arena, Slots) && Slots == [node] + old(Slots)
      ensures SameEntries(arena, old(arena))
    {
      ChainLinkFront(arena, Slots, node);
      arena := arena[node := arena[node].(next := arena[Head].next)];
      arena := arena[node := arena[node].(prev := Head)];
      var first := arena[node].next;
      arena := arena[first := arena[first].(prev := node)];
      arena := arena[Head := arena[Head].(next := node)];
      Slots := [node] + Slots;
    }

    /** Unlink a node by joining its two neighbours; its own links go stale. */
    method RemoveNode(node: int)
      requires Chain(arena, Slots) && node in Slots
      modifies this`arena, this`Slots
      ensures Chain(arena, Slots) && Slots == Without(old(Slots), node)
      ensures SameEntries(arena, old(arena))
    {
      ghost var i :| 0 <= i < |Slots| && Slots[i] == node;
      WithoutAt(Slots, i);
      ghost var a0 := arena;
      ChainUnlink(arena, Slots, i);
      var before := arena[node].prev;
      var after := arena[node].next;
      arena := arena[before := arena[before].(next := after)];
      arena := arena[after := arena[after].(prev := before)];
      assert arena == Unlinked(a0, Slots, i);
      Slots := Slots[..i] + Slots[i + 1..];
    }

    method MoveToFront(node: int)
      requires Chain(arena, Slots) && node in Slots
      modifies this`arena, this`Slots
      ensures Chain(arena, Slots) && Slots == [node] + Without(old(Slots), node)
      ensures SameEntries(arena, old(arena))
    {
      RemoveNode(node);
      AddToFront(node);
    }

    /** Evict the entry just before the tail sentinel from the list, the index
        and the arena. */
    method RemoveLRU()
      requires Valid() && Order != []
      modifies this`arena, this`Slots, this`cache, this`Order, this`Values
      ensures Valid() && Abstract() == Evict(old(Abstract()))
    {
      ghost var index0, a0, s0, c0 := cache, arena, Slots, Abstract();
      EvictTarget(index0, a0, nextHandle, s0, c0);
      var lru := arena[Tail].prev;
      WithoutAt(Slots, |Slots| - 1);
      assert s0[..|s0| - 1] + s0[|s0|..] == s0[..|s0| - 1];
      RemoveNode(lru);
      ghost var a1 := arena;
      cache := cache - {arena[lru].key};
      arena := arena - {lru};
      Order, Values := Order[..|Order| - 1], Values - {Order[|Order| - 1]};
      RepresentsEvict(index0, a0, a1, nextHandle, s0, c0, cache, arena, Slots, Abstract());
    }

    /** `get`: the stored value and a promotion, or `Miss` and no change. */
    method Get(key: int) returns (v: int)
      requires Valid()
      modifies this`arena, this`Slots, this`Order
      ensures Valid()
      ensures (Abstract(), v) == LruSpec.Get(old(Abstract()), key)
    {
      if key !in cache {
        return Miss;
      }
      ghost var a0, s0, c0 := arena, Slots, Abstract();
      var node := cache[key];
      assert node in Slots by {
        var i :| 0 <= i < |Order| && Order[i] == key;
        assert Slots[i] == node;
      }
      MoveToFront(node);
      Order := [key] + Without(Order, key);
      assert c0.values[key := c0.values[key]] == c0.values;
      RepresentsPromote(cache, a0, a0[node := a0[node].(value := c0.values[key])], arena, nextHandle,
                        s0, Slots, c0, Abstract(), key, c0.values[key]);
      v := arena[node].value;
    }

    /** `put`: overwrite and promote a present key; otherwise evict the least
        recently used entry when the index is full, then link a new node in
        front. */
    method Put(key: int, value: int)
      requires Valid()
      modifies this
      ensures Valid()
      ensures Abstract() == LruSpec.Put(old(Abstract()), key, value)
    {
      if key in cache {
        Overwrite(key, value);
        return;
      }
      Insert(key, value);
    }

    /** The first branch of `put`: store the new value in the key's node and
        move the node to the front. */
    method Overwrite(key: int, value: int)
      requires Valid() && key in cache
      modifies this`arena, this`Slots, this`Order, this`Values
      ensures Valid()
      ensures Abstract() == LruSpec.Put(old(Abstract()), key, value)
    {
      ghost var a0, s0, c0 := arena, Slots, Abstract();
      var node := cache[key];
      assert node in Slots by {
        var i :| 0 <= i < |Order| && Order[i] == key;
        assert Slots[i] == node;
      }
      arena := arena[node := arena[node].(value := value)];
      ChainAgree(a0, arena, Slots);
      ghost var a1 := arena;
      MoveToFront(node);
      assert SameEntries(arena, a1);
      Order, Values := [key] + Without(Order, key), Values[key := value];
      RepresentsPromote(cache, a0, a1, arena, nextHandle, s0, Slots, c0, Abstract(), key, value);
    }

    /** The second branch of `put`: evict when the index holds `capacity`
        keys or more, then allocate a node for the key, index it and link it
        in front. */
    method Insert(key: int, value: int)
      requires Valid() && key !in cache
      modifies this
      ensures Valid()
      ensures Abstract() == LruSpec.Put(old(Abstract()), key, value)
    {
      ghost var c0 := Abstract();
      if |cache| >= capacity {
        RemoveLRU();
      }
      assert Abstract() == if |c0.order| >= c0.capacity then Evict(c0) else c0;
      AddNew(key, value);
    }

    /** Allocate a node for a key that is not cached, index it and link it in
        front; the caller has made room for it. */
    method AddNew(key: int, value: int)
      requires Valid() && key !in cache && |Order| < capacity
      modifies this`nextHandle, this`arena, this`cache, this`Slots, this`Order, this`Values
      ensures Valid()
      ensures Order == [key] + old(Order) && Values == old(Values)[key := value]
    {
      ghost var index0, a0, s0, c0 := cache, arena, Slots, Abstract();
      var node := nextHandle;
      nextHandle := nextHandle + 1;
      arena := arena[node := Node(key, value, Null, Null)];
      ChainAgree(a0, arena, Slots);
      cache := cache[key := node];
      AddToFront(node);
      Order, Values := [key] + Order, Values[key := value];
      RepresentsInsert(index0, a0, arena, node, s0, Slots, c0, Abstract(), key, value);
    }

    /** The destructor: starting at the head sentinel, free each node and
        follow its `next` link until the null link after the tail sentinel. */
    method Dispose()
      requires Valid()
      modifies this`arena
      ensures arena == map[]
    {
      ghost var n := |Slots|;
      LinkAtInjective(Slots);
      var current := Head;
      ghost var p := -1;
      assert LinkAt(Slots, -1) == Head;
      while current != Null
        invariant -1 <= p <= n + 1
        invariant current == if p <= n then LinkAt(Slots, p) else Null
        invariant |arena| == n + 1 - p
        invariant forall q :: p <= q <= n ==>
          LinkAt(Slots, q) in arena && arena[LinkAt(Slots, q)] == old(arena)[LinkAt(Slots, q)]
        decreases n + 1 - p
      {
        var next := arena[current].next;
        assert next == if p < n then LinkAt(Slots, p + 1) else Null;
        arena := arena - {current};
        current := next;
        p := p + 1;
      }
    }
  }

  /** The run in the source's `main`, on a cache of capacity 2: the five
      values printed by its `get` calls. */
  method MainScenario() returns (printed: seq<int>)
    ensures printed == [1, Miss, Miss, 3, 4]
  {
    var lru := new LRUCache(2);
    lru.Put(1, 1);
    lru.Put(2, 2);
    var a := lru.Get(1);
    ghost var c3 := lru.Abstract();
    lru.Put(3, 3);
    var b := lru.Get(2);
    ghost var c5 := lru.Abstract();
    lru.Put(4, 4);
    var c := lru.Get(1);
    ghost var c7 := lru.Abstract();
    var d := lru.Get(3);
    ghost var c8 := lru.Abstract();
    var e := lru.Get(4);
    MainRun(c3, c5, c7, c8);
    printed := [a, b, c, d, e];
  }

  /** Capacity 1: a second key evicts the first at once. */
  method SingleSlotScenario() returns (first: int, second: int)
    ensures first == Miss && second == 2
  {
    var lru := new LRUCache(1);
    lru.Put(1, 1);
    lru.Put(2, 2);
    first := lru.Get(1);
    second := lru.Get(2);
  }
}
