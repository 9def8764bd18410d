# Homework: the LRU cache, the bounded stack and five array drills

This project models the parts of the `Homework` repository that hold real
logic, and proves what each of them promises. It covers three things.

**The least-recently-used cache (`14LRUcache.cpp`)** is a key/value store
with a fixed capacity. It is built from two parts:

- an index from keys to list nodes;
- a doubly linked recency list between two sentinel nodes, most recently
  used entry first.

`get` returns the stored value and promotes the key to the front. A missing
key gives `-1`. `put` works in one of two ways:

- for a present key, it overwrites the value and promotes the key;
- for a new key, it first evicts the entry before the tail sentinel once
  the index holds `capacity` keys or more, then links a new node in front.

The model comes in two layers:

- `LruSpec` states the observable behaviour on values: `Cache` holds the
  capacity, the keys from most to least recent, and a map of values.
- `LruCache.LRUCache` is a class with the source's `capacity` and index;
  the two sentinels are the fixed handles `Head` and `Tail`. The index is a
  `map` from keys to node handles. Nodes live in an arena, a `map` from
  integer handles to `Node` records with `prev`/`next` handles. `new` takes
  a handle never used before, and `delete` removes the handle from the
  arena.

`Get`, `Put`, `Overwrite`, `Insert` and `RemoveLRU` are each proved to
move the class's abstract state exactly as the matching `LruSpec` function
does. The link helpers `AddToFront`, `RemoveNode` and `MoveToFront` are
proved against the sequence of node handles in the chain, and `Dispose`
against the arena. The invariant `Represents` ties the two
layers together:

- the chain of links runs head, entries in recency order, tail;
- every key indexes its own node;
- no node is leaked.

The source's `put` is split three ways, following its two branches:

- `Put` dispatches on whether the key is present;
- `Overwrite` is the branch for a present key;
- `Insert` is the branch for a new key: it evicts when needed, then calls
  `AddNew` to link the new node.

**The bounded stack (`classStack.cpp`)** is a template `Stack<T, Capacity>`
over a fixed array and a top index. `push` throws on a full stack, and
`pop` and `top` throw on an empty one. The model has two modules:

- `StackSpec` describes the contents as a sequence. Each operation has a
  `Result` outcome: an `Overflow` or `Underflow` error stands for each
  thrown message.
- `BoundedStack.Stack` is the class over an `array`, proved against
  `StackSpec`.

**Five array drills**, one module each:

- `removeDuplicates` collapses runs of equal neighbours in place.
- `sortedSquares` is a two-pointer merge of squares, written from the back.
- `moveZeroes` moves the zeros to the end in place and keeps the order of
  the other elements.
- `findMissed` is a cyclic sort followed by a scan for the values of 1..n
  missing from the input.
- `smartUmn` gives, for each position, the product of all elements but
  that one. It runs a prefix pass and a suffix pass and uses no division.

Each drill works the way the source does:

- a `vector<int>&` the drill mutates is an `array<int>` the method modifies;
- a returned `vector<int>` is a `seq<int>`.

Each method is proved against a specification function: `Dedup`,
`MergeFrom`/`Squares`, `Compacted`, `Missing`, or `Product`/`AllBut`.
Lemmas then prove what that function means. Each source `main` becomes a
method that returns the values the source prints, with the printed values
as its postcondition.

Two details of the source are kept as written:

- `put` evicts once the index holds `capacity` keys or more
  (`cache.size() >= capacity`).
- `-1` is both the miss signal and a value that can be stored.
  `LruSpec.StoredMissLooksAbsent` shows that a stored `-1` cannot be told
  apart from a missing key.

## Model

| member | source | states |
|---|---|---|
| LruSpec.Init | 14LRUcache.cpp:45-50 | a new cache holds no keys and no values; with a capacity of at least 1 it satisfies the cache invariant |
| LruSpec.GetMiss | 14LRUcache.cpp:61-64 | `get` of a key not in the index returns -1 and leaves the cache unchanged |
| LruSpec.GetHit | 14LRUcache.cpp:66-69 | `get` of a present key returns its stored value, moves it to the front, keeps every value and the length of the order, and keeps the relative order of the other keys |
| LruSpec.GetPreservesInv | 14LRUcache.cpp:61-70 | `get` preserves the invariant (capacity respected, keys distinct, keys in the order exactly the keys with values) |
| LruSpec.GetIdempotent | 14LRUcache.cpp:61-70 | a second `get` of the same key returns the same value and leaves the same cache |
| LruSpec.EvictPreservesInv | 14LRUcache.cpp:37-42 | removing the least recently used entry keeps the invariant, shrinks the order by one and drops that key |
| LruSpec.PutPresent | 14LRUcache.cpp:73-78 | `put` of a present key overwrites its value, moves it to the front, keeps the size, and keeps the relative order of the other keys |
| LruSpec.PutEvicts | 14LRUcache.cpp:80-86 | `put` of a new key into a full cache drops exactly the least recently used key and puts the new key in front of the remaining keys |
| LruSpec.PutWithRoom | 14LRUcache.cpp:84-86 | `put` of a new key into a cache with room puts the key in front of the unchanged order and adds its value |
| LruSpec.PutPreservesInv | 14LRUcache.cpp:72-87 | `put` preserves the invariant; in particular the number of entries never exceeds the capacity |
| LruSpec.PutThenGet | 14LRUcache.cpp:72-87 | after `put(key, value)` the key is the most recent and `get(key)` returns `value` |
| LruSpec.PutFront | 14LRUcache.cpp:72-87 | whatever value is put, the key ends up first and the rest of the order and the other values do not depend on that value |
| LruSpec.PutOverwrite | 14LRUcache.cpp:73-78 | two puts of the same key leave the same cache as the second put alone |
| LruSpec.StoredMissLooksAbsent | 14LRUcache.cpp:61-69 | a key stored with value -1 gives the same `get` result as a key that is absent |
| LruSpec.MainRun | 14LRUcache.cpp:90-103 | the run in `main` on a capacity-2 cache makes its five `get` calls return 1, -1, -1, 3, 4 |
| LruCache.ChainLinkFront | 14LRUcache.cpp:20-25 | the four link updates of `addToFront` on an unlinked node give a well-formed chain with the node first |
| LruCache.ChainUnlink | 14LRUcache.cpp:27-30 | the two link updates of `removeNode` on the node at position `i` give a well-formed chain of the other nodes in their order, and change no key or value |
| LruCache.EvictTarget | 14LRUcache.cpp:38 | the node before the tail sentinel is the last slot and carries the least recently used key |
| LruCache.PromotedEntries | 14LRUcache.cpp:74-76 | at every position of the promoted chain and order, the key is indexed to that node, and the node holds that key and its (new) value |
| LruCache.RepresentsPromote | 14LRUcache.cpp:73-78 | after the node's value is set and the node is moved to the front, the concrete state represents the promoted abstract cache |
| LruCache.RepresentsEvict | 14LRUcache.cpp:37-42 | unlinking, un-indexing and freeing the last node leaves a state that represents the cache after eviction |
| LruCache.InsertedEntries | 14LRUcache.cpp:84-86 | at every position of the chain and order with the new key in front, the key is indexed to that node, and the node holds that key and its value |
| LruCache.RepresentsInsert | 14LRUcache.cpp:84-86 | a fresh node, indexed and linked in front, leaves a state that represents the cache with the new key first |
| LruCache.LRUCache.constructor | 14LRUcache.cpp:45-50 | an empty cache whose two sentinels point at each other, representing `LruSpec.Init(capacity)` |
| LruCache.LRUCache.AddToFront | 14LRUcache.cpp:20-25 | links the node right after the head sentinel: the slots become the node followed by the old slots, with no key or value changed |
| LruCache.LRUCache.RemoveNode | 14LRUcache.cpp:27-30 | unlinks the node: the slots lose exactly that node and keep their order |
| LruCache.LRUCache.MoveToFront | 14LRUcache.cpp:32-35 | the slots become the node followed by the other slots in their old order |
| LruCache.LRUCache.RemoveLRU | 14LRUcache.cpp:37-42 | the abstract state becomes `LruSpec.Evict` of the old one, and the invariant is kept |
| LruCache.LRUCache.Get | 14LRUcache.cpp:61-70 | returns and moves to exactly what `LruSpec.Get` gives, and keeps the invariant |
| LruCache.LRUCache.Put | 14LRUcache.cpp:72-87 | moves the abstract state to exactly `LruSpec.Put` of the old one, and keeps the invariant |
| LruCache.LRUCache.Overwrite | 14LRUcache.cpp:73-78 | the present-key branch of `put` moves the abstract state to `LruSpec.Put` of the old one |
| LruCache.LRUCache.Insert | 14LRUcache.cpp:80-86 | the new-key branch of `put` evicts at `size >= capacity`, then adds; the result is `LruSpec.Put` of the old state |
| LruCache.LRUCache.AddNew | 14LRUcache.cpp:84-86 | a new node for the key is linked in front: the key heads the order and its value is stored, everything else unchanged |
| LruCache.LRUCache.Dispose | 14LRUcache.cpp:52-59 | walking from the head sentinel along `next` frees every node, sentinels included: the arena ends empty |
| LruCache.MainScenario | 14LRUcache.cpp:90-103 | the class, run as in `main`, returns 1, -1, -1, 3, 4 from its five `get` calls |
| LruCache.SingleSlotScenario | 14LRUcache.cpp:80-86 | with capacity 1 a second key evicts the first at once: `get(1)` misses and `get(2)` returns 2 |
| StackSpec.PushOutcome | classStack.cpp:13-18 | `push` fails with `Overflow` exactly when the stack holds `Capacity` elements; otherwise the old contents stay below and the value is on top |
| StackSpec.PopOutcome | classStack.cpp:20-32 | `pop` fails with `Underflow` exactly on an empty stack, as `top` does; otherwise it returns the element `top` shows and the stack loses exactly that element |
| StackSpec.PushThenPop | classStack.cpp:13-25 | a push onto a stack with room, followed by a pop, returns the pushed value and restores the contents |
| StackSpec.PushAllContents | classStack.cpp:13-18 | pushing a sequence of values that fits appends them in order |
| StackSpec.PopNContents | classStack.cpp:20-25 | popping as many times as there are values on top returns those values in reverse order and leaves what was below |
| StackSpec.PushAllThenPopAll | classStack.cpp:13-25 | last in, first out: pushing values and popping them all back yields them reversed and the original stack |
| StackSpec.SizeStaysInBounds | classStack.cpp:13-25 | neither a successful push nor a successful pop takes the size above the capacity |
| BoundedStack.Stack.constructor | classStack.cpp:11 | a new stack is empty, with `Capacity` slots |
| BoundedStack.Stack.Push | classStack.cpp:13-18 | on a full stack, returns `Overflow` and changes nothing; otherwise the contents become those `StackSpec.Push` gives |
| BoundedStack.Stack.Pop | classStack.cpp:20-25 | on an empty stack, returns `Underflow` and changes nothing; otherwise returns the top element, which leaves the stack, as `StackSpec.Pop` says |
| BoundedStack.Stack.Top | classStack.cpp:27-32 | fails exactly on an empty stack; otherwise returns the element in the top slot |
| BoundedStack.Stack.Empty | classStack.cpp:34-36 | true exactly when the size is zero and the stack has no elements |
| BoundedStack.Stack.Full | classStack.cpp:38-40 | true exactly when the size equals the capacity |
| BoundedStack.Stack.Size | classStack.cpp:42-44 | the number of elements, between 0 and the capacity |
| BoundedStack.NormalRun | classStack.cpp:51-66 | three pushes onto a capacity-3 stack give size 3, not empty, full; popping until empty returns 30, 20, 10 |
| BoundedStack.ErrorRun | classStack.cpp:68-100 | a third push onto a capacity-2 stack, a pop of an empty stack and a top of an empty stack each fail, with the source's messages |
| BoundedStack.StringRun | classStack.cpp:102-110 | with "Hello" and "World" pushed, `top` shows "World", `pop` returns it, and `top` then shows "Hello" |
| BoundedStack.SingleRun | classStack.cpp:112-119 | a capacity-1 stack is full after one push, and empty again after the pop returns 3.14 |
| RemoveDuplicates.RemoveDuplicates | 2leetcode.cpp:6-17 | returns 0 for an empty array and at least 1 otherwise; the first `k` slots hold the input with each run of equal neighbours collapsed; the slots from `k` on are unchanged |
| RemoveDuplicates.DedupEnds | 2leetcode.cpp:7-16 | a non-empty input keeps its first and last elements and between 1 and all of its elements |
| RemoveDuplicates.DedupElements | 2leetcode.cpp:10-15 | the kept elements are exactly the values of the input |
| RemoveDuplicates.DedupNoAdjacentEqual | 2leetcode.cpp:10-15 | no two neighbours of the result are equal |
| RemoveDuplicates.DedupSorted | 2leetcode.cpp:6-17 | on sorted input the result is strictly increasing and holds exactly the input's distinct values |
| RemoveDuplicates.DedupIdempotent | 2leetcode.cpp:6-17 | running the collapse twice gives the same as once |
| RemoveDuplicates.NoAdjacentEqualFixed | 2leetcode.cpp:10-15 | an input without equal neighbours is kept whole |
| RemoveDuplicates.DedupSnoc | 2leetcode.cpp:11-14 | one more input element extends the result exactly when it differs from its left neighbour |
| RemoveDuplicates.SampleDedup | 2leetcode.cpp:20-21 | the sample {1,1,2,3,3,3,3,3,3,3,5} collapses to 1 2 3 5 |
| RemoveDuplicates.Demo | 2leetcode.cpp:19-28 | `main` prints 4 and then 1 2 3 5 |
| SortedSquares.SortedSquares | 3leetcode.cpp:6-27 | the result has the input's length, holds each square of the input exactly once, is sorted whenever the input is sorted, and is the two-pointer merge of the squares |
| SortedSquares.MergeFromSpec | 3leetcode.cpp:12-24 | the full merge writes every square once, and on sorted input writes them in non-decreasing order |
| SortedSquares.MergeFromPermutation | 3leetcode.cpp:12-24 | each merge step moves one square from the unplaced stretch into the result, so the result is a permutation of the squares |
| SortedSquares.MergeFromSorted | 3leetcode.cpp:16-22 | on squares that fall and then rise, placing the larger end square at each step yields a sorted result |
| SortedSquares.SquaresValley | 3leetcode.cpp:13-14 | the squares of a sorted sequence fall towards zero and then rise, so the larger of the two ends is the largest unplaced square |
| SortedSquares.SampleMerge | 3leetcode.cpp:30-31 | the merge of 16, 1, 0, 9, 100 is 0, 1, 9, 16, 100 |
| SortedSquares.Demo | 3leetcode.cpp:29-37 | `main` prints 0 1 9 16 100 |
| MoveZeroes.MoveZeroes | 4leetcode.cpp:6-18 | the array becomes its non-zero elements in their original order followed by zeros, and stays a permutation of the input |
| MoveZeroes.CompactedPermutation | 4leetcode.cpp:6-18 | the compacted form has the input's element counts, and ends in exactly as many zeros as the input holds |
| MoveZeroes.NoZerosUnchanged | 4leetcode.cpp:9-17 | an input without zeros is left as it is |
| MoveZeroes.SwapProgress | 4leetcode.cpp:10-15 | swapping a non-zero element down to `last_non_zero` keeps the loop invariant: non-zeros so far in order, then zeros, then the untouched rest |
| MoveZeroes.SkipProgress | 4leetcode.cpp:9-10 | a zero element is left in place and the same loop invariant holds one step further |
| MoveZeroes.NonZerosSnoc | 4leetcode.cpp:10-16 | one more element extends the non-zero prefix exactly when it is non-zero |
| MoveZeroes.CompactedShape | 4leetcode.cpp:9-17 | the loop's final state (non-zeros in order, then zeros) is the compacted input and a permutation of it |
| MoveZeroes.SampleCompacted | 4leetcode.cpp:21-22 | {0, 1, 0, 3, 12} compacts to {1, 3, 12, 0, 0} |
| MoveZeroes.Demo | 4leetcode.cpp:20-29 | `main` prints 1 3 12 0 0 |
| FindMissed.FindMissed | 5leetcode.cpp:7-28 | for values in 1..n, returns exactly the values of 1..n absent from the input, in ascending order; the array stays a permutation of the input |
| FindMissed.MissingElements | 5leetcode.cpp:20-25 | a value is in the result exactly when it lies in 1..n and does not occur in the input |
| FindMissed.MissingIncreasing | 5leetcode.cpp:20-25 | the result is strictly increasing |
| FindMissed.MissingSameValues | 5leetcode.cpp:8-18 | the result depends only on which values occur, so the reordering done by the cyclic sort does not change it |
| FindMissed.PlacedMembership | 5leetcode.cpp:20-25 | once every value sits at its home slot, `v` occurs exactly when slot `v - 1` holds `v` |
| FindMissed.CollectStep | 5leetcode.cpp:22-24 | the scan adds `k + 1` exactly when `k + 1` is missing |
| FindMissed.StayStep | 5leetcode.cpp:15-17 | a slot whose value is already at its home slot joins the placed prefix |
| FindMissed.SwapStep | 5leetcode.cpp:11-14 | a swap keeps the values, their counts and the placed prefix, and puts one more slot at home, so the loop terminates |
| FindMissed.SwapKeepsPlaced | 5leetcode.cpp:11-14 | a swap keeps every value in range and leaves the placed prefix placed |
| FindMissed.SwapHomesOneMore | 5leetcode.cpp:11-14 | after a swap, strictly fewer slots are not at home |
| FindMissed.SampleMissing | 5leetcode.cpp:31-32 | 5 and 6 are the values of 1..8 missing from {4, 3, 2, 7, 8, 2, 3, 1} |
| FindMissed.Demo | 5leetcode.cpp:30-39 | `main` prints 5 6 |
| SmartUmn.SmartUmn | 6leetcode.cpp:6-23 | slot `i` of the result is the product of all input elements except the one at `i`; the input is not changed |
| SmartUmn.PrefixPass | 6leetcode.cpp:8-14 | after the first loop, slot `i` holds the product of the elements before `i` |
| SmartUmn.SuffixPass | 6leetcode.cpp:16-20 | the second loop multiplies each slot by the product of the elements after it, so it holds the product of all elements but its own |
| SmartUmn.ProductConcat | 6leetcode.cpp:11-20 | the product of a concatenation is the product of the products |
| SmartUmn.ProductAllBut | 6leetcode.cpp:18 | the product of all but position `i` is the product before `i` times the product after `i`; times the element at `i`, it gives the product of all elements |
| SmartUmn.ProductSplit | 6leetcode.cpp:11-20 | the product of a sequence is the product before `i`, times the element at `i`, times the product after `i` |
| SmartUmn.ProductPrefixStep | 6leetcode.cpp:13 | `left_product *= nums[i]` turns the product before `i` into the product up to and including `i` |
| SmartUmn.ProductSuffixStep | 6leetcode.cpp:19 | `right_product *= nums[i]` turns the product after `i` into the product from `i` on |
| SmartUmn.SuffixStep | 6leetcode.cpp:18-19 | one step of the second loop: slot `i` becomes the product of all elements but its own, and the running product extends to `i` |
| SmartUmn.SampleProducts | 6leetcode.cpp:26-27 | the products 24, 12, 8 and 6 of the sample, each leaving one element out |
| SmartUmn.Demo | 6leetcode.cpp:25-34 | `main` prints 24 12 8 6 |

## Left out

- Machine integers: `int` is unbounded throughout, so overflow of squares, products and counters in the C++ code is not modelled.
- SortedSquares.SortedSquares: squares of large elements overflow a 32-bit `int` in the source, which is undefined behaviour; the model's squares are exact.
- SmartUmn.SmartUmn: products overflow a 32-bit `int` for large inputs in the source; the model's products are exact.
- SmartUmn.SmartUmn: the two loops of the source are the two methods `PrefixPass` and `SuffixPass`, called in turn. The arithmetic is the same.
- FindMissed.FindMissed: requires every value to lie in 1..n. Any other value makes the source read outside the vector, which is undefined behaviour.
- LruCache.LRUCache.constructor: requires a capacity of at least 1, so two source behaviours outside that range are not modelled. With capacity 0, the first `put` of a new key runs `removeLRU` on an empty list: it unlinks the head sentinel and dereferences its null `prev`. With a negative capacity, `cache.size() >= capacity` compares against the capacity converted to a huge unsigned value, so it never holds: the source cache never evicts and grows without bound.
- Pointers: `Node*` is an integer handle into an arena `map`. `new` takes a fresh handle and `delete` removes it. Aliasing of raw memory, use after free and allocation failure are not modelled.
- The destructor is `Dispose`, called explicitly; object lifetime and scope exit are not modelled.
- `std::unordered_map` is a `map`. Hashing, bucket order and iteration order are not modelled.
- BoundedStack.Stack.constructor: `Capacity` is a template argument in the source and a constructor argument here. `T` must have a default value, because the source's array `T data[Capacity]` default-initialises its slots.
- The stack's `throw` of a C string is an error `Result` (`Overflow`/`Underflow`) carrying the same message; the `try`/`catch` blocks of `main` become checks of those results.
- `double` in the stack's last test is `real`; rounding is not modelled.
- Console output (`std::cout`) is not modelled. Each `main` returns the values it would print.
- `classStack.cpp` prints booleans as 0/1; the model returns the booleans.
- The other files of the repository (`7dzRectangle.cpp`, `8smartRec.cpp`, `9Vector3D.cpp`, `11Wizards.cpp`, `polymorphVehicle.cpp`) are not part of this model.
