/** Value-level specification of the LRU cache: the recency order of the cached
    keys (most recent first) and the value stored under each key. The class in
    LruCache is proved to follow these functions step by step. */
module LruSpec {

  /** What `get` returns for a key that is not cached. */
  const Miss: int := -1

  /** The observable state of a cache: its fixed capacity, its keys from most to
      least recently used, and the value stored under each key. */
  datatype Cache = Cache(capacity: int, order: seq<int>, values: map<int, int>)

  predicate Distinct(s: seq<int>)
  {
    forall i, j :: 0 <= i < j < |s| ==> s[i] != s[j]
  }

  /** What holds of every cache reachable from the constructor: a positive
      capacity that is never exceeded, each key listed once in the recency
      order, and exactly the listed keys carry a value. */
  ghost predicate Inv(c: Cache)
  {
    1 <= c.capacity && |c.order| <= c.capacity && Distinct(c.order) &&
    (forall k :: k in c.values <==> k in c.order)
  }

  /** `s` with every occurrence of `x` taken out, the rest in its order. */
  function Without(s: seq<int>, x: int): (r: seq<int>)
    ensures forall y :: y in r <==> y in s && y != x
    ensures |r| <= |s|
  {
    if s == [] then []
    else if s[0] == x then Without(s[1..], x)
    else [s[0]] + Without(s[1..], x)
  }

  /** A freshly constructed cache: no keys. */
  function Init(capacity: int): (c: Cache)
    ensures 1 <= capacity ==> Inv(c)
    ensures c.order == [] && c.values == map[]
  {
    Cache(capacity, [], map[])
  }

  /** `get(key)`: the new state and the returned value. A hit moves the key to
      the front; a miss returns `Miss` and changes nothing. */
  function Get(c: Cache, key: int): (Cache, int)
  {
    if key !in c.values then (c, Miss)
    else (c.(order := [key] + Without(c.order, key)), c.values[key])
  }

  /** Drop the least recently used key (the last one in the order). */
  function Evict(c: Cache): Cache
    requires c.order != []
  {
    var lru := c.order[|c.order| - 1];
    Cache(c.capacity, c.order[..|c.order| - 1], c.values - {lru})
  }

  /** `put(key, value)`: overwrite and promote a present key; otherwise evict
      the least recently used key when the cache holds `capacity` keys or more,
      then add the new key at the front. */
  function Put(c: Cache, key: int, value: int): Cache
    requires 1 <= c.capacity
  {
    if key in c.values then
      Cache(c.capacity, [key] + Without(c.order, key), c.values[key := value])
    else
      var room := if |c.order| >= c.capacity then Evict(c) else c;
      Cache(c.capacity, [key] + room.order, room.values[key := value])
  }

  // ---------------------------------------------------------------------------
  // Facts about Without

  lemma {:induction false} WithoutAbsent(s: seq<int>, x: int)
    requires x !in s
    ensures Without(s, x) == s
  {
    if s != [] {
      WithoutAbsent(s[1..], x);
    }
  }

  /** For a key listed once, removing it is cutting it out at its position. */
  lemma {:induction false} WithoutAt(s: seq<int>, i: int)
    requires Distinct(s) && 0 <= i < |s|
    ensures Without(s, s[i]) == s[..i] + s[i + 1..]
  {
    if i == 0 {
      assert s[0] !in s[1..];
      WithoutAbsent(s[1..], s[0]);
    } else {
      WithoutAt(s[1..], i - 1);
      assert s[1..][i - 1] == s[i];
      assert s[1..][..i - 1] + s[1..][i..] == s[1..i] + s[i + 1..];
      assert [s[0]] + s[1..i] == s[..i];
    }
  }

  /** Where each element lands when the one at position `i` moves to the front. */
  lemma PromotedAt(s: seq<int>, i: int, j: int)
    requires 0 <= i < |s| && 0 <= j < |s|
    ensures |[s[i]] + (s[..i] + s[i + 1..])| == |s|
    ensures ([s[i]] + (s[..i] + s[i + 1..]))[j] == if j == 0 then s[i] else if j <= i then s[j - 1] else s[j]
  {
    var t := s[..i] + s[i + 1..];
    if j > 0 {
      assert ([s[i]] + t)[j] == t[j - 1];
      if j - 1 >= i {
        assert t[j - 1] == s[i + 1..][j - 1 - i];
      }
    }
  }

  lemma {:induction false} WithoutDistinct(s: seq<int>, x: int)
    requires Distinct(s)
    ensures Distinct(Without(s, x))
  {
    if s != [] {
      assert Distinct(s[1..]);
      WithoutDistinct(s[1..], x);
      if s[0] != x {
        var w := Without(s[1..], x);
        assert s[0] !in w;
        assert forall j :: 0 <= j < |w| ==> ([s[0]] + w)[j + 1] == w[j];
      }
    }
  }

  /** Removing a key that occurs once shortens the order by exactly one. */
  lemma WithoutLength(s: seq<int>, x: int)
    requires Distinct(s) && x in s
    ensures |Without(s, x)| == |s| - 1
  {
    var i :| 0 <= i < |s| && s[i] == x;
    WithoutAt(s, i);
  }

  // ---------------------------------------------------------------------------
  // The operations keep the invariant

  lemma GetPreservesInv(c: Cache, key: int)
    requires Inv(c)
    ensures Inv(Get(c, key).0)
  {
    if key in c.values {
      WithoutDistinct(c.order, key);
      WithoutLength(c.order, key);
    }
  }

  /** Eviction keeps the invariant and removes exactly one key: the last one. */
  lemma EvictPreservesInv(c: Cache)
    requires Inv(c) && c.order != []
    ensures Inv(Evict(c)) && |Evict(c).order| == |c.order| - 1
    ensures c.order[|c.order| - 1] !in Evict(c).order
  {
    var n, c1 := |c.order|, Evict(c);
    forall k ensures k in c1.values <==> k in c1.order {
      if k in c1.order {
        var j :| 0 <= j < n - 1 && c1.order[j] == k;
        assert c.order[j] == k && c.order[n - 1] != k;
      }
    }
  }

  /** A key put in front of a list lacking it keeps the list free of repeats. */
  lemma ConsDistinct(x: int, s: seq<int>)
    requires Distinct(s) && x !in s
    ensures Distinct([x] + s)
  {
    assert forall j :: 0 <= j < |s| ==> ([x] + s)[j + 1] == s[j];
  }

  /** The capacity bound and the index/list agreement survive every `put`. */
  lemma PutPreservesInv(c: Cache, key: int, value: int)
    requires Inv(c)
    ensures Inv(Put(c, key, value))
  {
    if key in c.values {
      WithoutDistinct(c.order, key);
      WithoutLength(c.order, key);
      ConsDistinct(key, Without(c.order, key));
    } else {
      var room := if |c.order| >= c.capacity then Evict(c) else c;
      if |c.order| >= c.capacity {
        EvictPreservesInv(c);
      }
      ConsDistinct(key, room.order);
    }
  }

  // ---------------------------------------------------------------------------
  // What get and put promise

  /** A miss returns `Miss` and leaves the order and the values alone. */
  lemma GetMiss(c: Cache, key: int)
    requires key !in c.values
    ensures Get(c, key).1 == Miss && Get(c, key).0 == c
  {
  }

  /** A hit returns the stored value, leaves every value alone, makes the key
      the most recent one and keeps the relative order of all other keys. */
  lemma GetHit(c: Cache, key: int)
    requires Inv(c) && key in c.values
    ensures Get(c, key).1 == c.values[key]
    ensures Get(c, key).0.values == c.values && Get(c, key).0.capacity == c.capacity
    ensures Get(c, key).0.order[0] == key && |Get(c, key).0.order| == |c.order|
    ensures Without(Get(c, key).0.order, key) == Without(c.order, key)
  {
    var w := Without(c.order, key);
    WithoutLength(c.order, key);
    WithoutAbsent(w, key);
  }

  /** `put` on a present key replaces its value, promotes it, keeps the number
      of entries, every other value and the relative order of the other keys. */
  lemma PutPresent(c: Cache, key: int, value: int)
    requires Inv(c) && key in c.values
    ensures Put(c, key, value).values == c.values[key := value]
    ensures Put(c, key, value).order[0] == key
    ensures |Put(c, key, value).order| == |c.order|
    ensures Without(Put(c, key, value).order, key) == Without(c.order, key)
  {
    var w := Without(c.order, key);
    WithoutLength(c.order, key);
    WithoutAbsent(w, key);
  }

  /** `put` of a new key on a full cache first removes exactly the least
      recently used key, then adds the new key in front of the rest. */
  lemma PutEvicts(c: Cache, key: int, value: int)
    requires Inv(c) && key !in c.values && |c.order| == c.capacity
    ensures var lru := c.order[|c.order| - 1];
      var r := Put(c, key, value);
      && r.order == [key] + c.order[..|c.order| - 1]
      && lru !in r.values
      && r.values[key] == value
      && (forall k :: k in c.values && k != lru ==> k in r.values && r.values[k] == c.values[k])
      && |r.order| == |c.order|
  {
  }

  /** `put` of a new key with room to spare adds it in front and evicts nothing. */
  lemma PutWithRoom(c: Cache, key: int, value: int)
    requires Inv(c) && key !in c.values && |c.order| < c.capacity
    ensures Put(c, key, value).order == [key] + c.order
    ensures Put(c, key, value).values == c.values[key := value]
  {
  }

  /** After `put(k, v)`, `k` is the most recent key and `get(k)` returns `v`. */
  lemma PutThenGet(c: Cache, key: int, value: int)
    requires Inv(c)
    ensures Put(c, key, value).order[0] == key
    ensures Get(Put(c, key, value), key).1 == value
  {
  }

  /** Whatever its branch, `put` leaves the key in front of a rest that lacks
      it, over values that do not depend on the value being put. */
  lemma PutFront(c: Cache, key: int) returns (rest: seq<int>, base: map<int, int>)
    requires Inv(c)
    ensures key !in rest
    ensures forall v :: Put(c, key, v) == Cache(c.capacity, [key] + rest, base[key := v])
  {
    if key in c.values {
      rest, base := Without(c.order, key), c.values;
    } else {
      var room := if |c.order| >= c.capacity then Evict(c) else c;
      rest, base := room.order, room.values;
    }
  }

  /** Two `put`s of one key in a row act as the second alone: they touch one
      entry, not two. */
  lemma PutOverwrite(c: Cache, key: int, v1: int, v2: int)
    requires Inv(c)
    ensures Put(Put(c, key, v1), key, v2) == Put(c, key, v2)
  {
    var rest, base := PutFront(c, key);
    var c1 := Put(c, key, v1);
    assert c1 == Cache(c.capacity, [key] + rest, base[key := v1]);
    assert ([key] + rest)[1..] == rest;
    WithoutAbsent(rest, key);
    assert Without([key] + rest, key) == rest;
    assert base[key := v1][key := v2] == base[key := v2];
  }

  /** A second `get` of the same key in a row returns the same value and leaves
      the state as the first left it. */
  lemma GetIdempotent(c: Cache, key: int)
    requires Inv(c)
    ensures Get(Get(c, key).0, key) == Get(c, key)
  {
    if key in c.values {
      WithoutAbsent(Without(c.order, key), key);
    }
  }

  /** A stored `-1` cannot be told apart from a missing key by `get`. */
  lemma StoredMissLooksAbsent(c: Cache, key: int, other: int)
    requires Inv(c) && other !in c.values
    ensures Get(Put(c, key, Miss), key).1 == Get(c, other).1
  {
  }

  // ---------------------------------------------------------------------------
  // The demonstration in the program's entry point

  /** The run of the entry point on a cache of capacity 2: put 1, put 2, get 1,
      put 3 (evicts 2), get 2, put 4 (evicts 1), get 1, get 3, get 4 prints
      1, -1, -1, 3, 4. The intermediate states are parameters so that a client
      of the class can hand over what each of its calls produced. */
  lemma MainRun(c3: Cache, c5: Cache, c7: Cache, c8: Cache)
    requires c3 == Get(Put(Put(Init(2), 1, 1), 2, 2), 1).0
    requires c5 == Get(Put(c3, 3, 3), 2).0
    requires c7 == Get(Put(c5, 4, 4), 1).0
    requires c8 == Get(c7, 3).0
    ensures Get(Put(Put(Init(2), 1, 1), 2, 2), 1).1 == 1
    ensures Get(Put(c3, 3, 3), 2).1 == Miss
    ensures Get(Put(c5, 4, 4), 1).1 == Miss
    ensures Get(c7, 3).1 == 3
    ensures Get(c8, 4).1 == 4
  {
    assert Without([2, 1], 1) == [2];
  }
}
