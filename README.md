# Verified model of the LRU/LFU cache simulator

The repository implements a fixed-capacity cache of integer keys and integer
values with two eviction policies. It does so twice: in C++ (`main.cpp`) and
in the browser (`UI/script.js`).

- **LRU** (least recently used) keeps its entries in recency order. `get` of
  a held key and `put` of any key make that key the most recent. A new key
  that finds the cache full evicts the least recent entry.
- **LFU** (least frequently used) keeps, for every key, its value and a use
  count (`keyMap`). Keys are grouped in one bucket per count (`freqMap`),
  and `minFreq` is the smallest count held. `updateFreq` moves a key from
  bucket `f` to bucket `f + 1`. It drops a bucket that becomes empty and
  advances `minFreq` when that bucket was the minimum. A new key that finds
  the cache full evicts the least recently touched key of bucket `minFreq`,
  then enters at count 1, and `minFreq` becomes 1.

The model has three layers.

- `LruSpec` and `LfuSpec` describe each policy as a value with pure
  transitions (`Get`, `Put`, `Touch`, `Evict`, `Insert`). They use the C++
  orientation, with the most recent entry first. The lemmas beside the
  transitions state what each one does to the cache: invariants kept,
  values returned, keys moved, keys evicted. They also prove the recency
  law, the frequency law and the two worked examples.
- `CacheCpp` holds the classes of `main.cpp`. A `std::list` is a `seq`, and
  an iterator stored in `hashmap` or `iterMap` is a position in that
  sequence. A position moves when elements ahead of it are erased or pushed
  in front of it. Every `get`, `put` and `updateFreq` is proved to leave
  exactly the state of the corresponding `LruSpec`/`LfuSpec` transition,
  with every stored position still pointing at its key. The step methods
  they are built from state their own effect on the fields.
- `CacheJs` holds the classes of `script.js`. They are built on the
  JavaScript `Map` and `Set` of `JsCollections`, where the most recent entry
  comes last. Every `get`, `put` and `updateFreq` is proved to leave the
  `LruSpec`/`LfuSpec` state read back to front (`Seqs.Reverse`,
  `CacheJs.NewestFirst`). So, for the same capacity of at least 1, the
  browser caches hold the same keys and values as the C++ caches, return
  the same results and evict the same key. For smaller capacities the two
  differ, as set out below.

`get` returns an `Option<int>`. Both sources return the integer -1 for a
missing key, so a stored value of -1 reads exactly like a miss
(`Wrappers.Reported`).

Capacities below 1 behave as follows.

- The LRU caches are not a no-op at capacity 0. In C++, the first `put`
  into a 0-capacity LRU cache reads `dll.back()` of an empty list, so the
  model excludes capacity 0 for the C++ LRU. In the browser, an LRU cache
  of capacity 0 or less keeps one entry: `size >= capacity` deletes the
  oldest key, or nothing when the map is empty, and then the new key is set.
  The model keeps that behaviour, with `CacheJs.Bound`, and
  `CacheJs.OneEntryBelowOne` proves that such a cache holds exactly the
  entry just set.
- Both LFU caches ignore every `put` at capacity 0.
- C++ stores the capacity as an `int` and compares `size() == capacity`
  against a `size_t`. A negative capacity therefore never counts as full, so
  the C++ caches never evict (`CacheBase.SizeReached`). The browser LFU with
  a negative capacity fails at its first `put` of a new key, so the model
  excludes it.

## Model

| member | source | states |
|---|---|---|
| Wrappers.Reported | main.cpp:33-34 | A missing key is reported as -1 and a found key as its value. The integer is -1 exactly for a miss or a stored -1, so the two cannot be told apart |
| LruSpec.Lookup | main.cpp:33-37 | A value is found exactly when the key is held, and that key-value entry is in the list |
| LruSpec.Drop | main.cpp:38 | Erasing a key removes exactly that key. The other entries stay, keys stay unique, and the size drops by one when the key was held |
| LruSpec.LookupDrop | main.cpp:38 | After a key is erased, every other key is found with the same value and the erased key is not found |
| LruSpec.DropAt | main.cpp:36-38 | Erasing the node that `hashmap` points at removes exactly that key's entry, whose value is the one `get` reads |
| LruSpec.DropLast | main.cpp:52-54 | Popping the back node removes exactly the back key |
| LruSpec.GetCorrect | main.cpp:31-42 | A miss returns nothing and changes nothing. A hit returns the stored value and makes the key the front entry. The keys, the size, every stored value and the relative order of the other entries are unchanged |
| LruSpec.PutCorrect | main.cpp:44-58 | After `put`, the key is the front entry with the new value. A new key at capacity removes exactly the back entry. Every other key keeps its value and relative order. The size grows by one only for a new key without eviction |
| LruSpec.PutKeepsInv | main.cpp:44-58 | `put` keeps keys unique and, for a positive capacity, the size within the capacity |
| LruSpec.PutFresh | main.cpp:50-57 | A new key below capacity is pushed to the front and nothing is evicted |
| LruSpec.FillFresh | main.cpp:44-58 | Distinct new keys put below capacity pile up in front, newest first |
| LruSpec.FirstInsertedEvicted | main.cpp:50-55 | After `capacity + 1` distinct keys are put into an empty cache, the first is gone and every other one is held |
| LruSpec.Example | main.cpp:31-58 | With capacity 2: put(1,10), put(2,20), get(1) = 10, put(3,30); then get(2) misses, get(1) = 10, get(3) = 30 |
| LfuSpec.TouchKeepsInv | main.cpp:84-99 | `updateFreq` keeps the bucket invariant: each key is in exactly the bucket of its count, no bucket is empty, and `minFreq` names a held minimum |
| LfuSpec.TouchCorrect | main.cpp:84-99 | `updateFreq` keeps all keys and values and raises the key's count by exactly one. The key becomes the first of bucket `f + 1`. Apart from that key, every bucket lists the same keys in the same order. `minFreq` moves only when the key leaves bucket `minFreq` empty, and then by one |
| LfuSpec.SetValue | main.cpp:120 | Only the key's value changes: the same keys, the same counts and the same buckets, and the invariant holds |
| LfuSpec.VictimLeastFrequent | main.cpp:125-127 | The evicted key is held, has the smallest count, and is the back (least recently touched) key of its bucket |
| LfuSpec.FrequentKeySurvives | main.cpp:125-132 | A key used more often than some other held key is never the one evicted |
| LfuSpec.EvictCorrect | main.cpp:127-132 | Eviction forgets exactly the victim, keeps every other key and value, and keeps the buckets consistent. The `minFreq` bucket loses only its back key, and every other bucket keeps its keys in order |
| LfuSpec.InsertKeepsInv | main.cpp:135-138 | Inserting a new key keeps the invariant and adds exactly that key |
| LfuSpec.InsertCorrect | main.cpp:135-138 | A new key enters with count 1, and `minFreq` becomes 1. Bucket 1 becomes the key followed by the old bucket 1, every other bucket keeps its keys in order, and no other key changes |
| LfuSpec.GetCorrect | main.cpp:104-111 | A miss returns nothing and changes nothing. A hit returns the stored value unchanged and raises its count by exactly one. No other key changes and the invariant holds |
| LfuSpec.PutKeepsInv | main.cpp:113-140 | `put` keeps the invariant and the size within the capacity |
| LfuSpec.PutCorrect | main.cpp:113-140 | Capacity 0 changes nothing. A held key gets the new value and one more use, with the same keys, and moves to the front of bucket `f + 1`. Every bucket otherwise keeps its keys in order, and `minFreq` steps as in `updateFreq`. A new key evicts the victim when the cache is full and enters at count 1, first in bucket 1, with `minFreq` 1. Apart from the victim, every bucket keeps its keys in order. In both cases no other key changes |
| LfuSpec.PutHit | main.cpp:118-122 | `put` of a held key replaces its value, raises its count by one and keeps the key set. The key becomes the first of bucket `f + 1`, every bucket otherwise lists the same keys in the same order, and `minFreq` moves only when the key leaves bucket `minFreq` empty, and then by one |
| LfuSpec.PutNew | main.cpp:123-139 | `put` of a new key drops exactly the victim when the cache is full, then adds the key at count 1, first in bucket 1. Bucket 1 behind the key, and every other bucket, are the buckets left after the eviction, in the same order |
| LfuSpec.Example | main.cpp:104-140 | With capacity 2: put(1,10), put(2,20), get(1), get(1), put(3,30) evicts key 2, then get(2) misses and get(1) = 10 |
| Seqs.Remove | UI/script.js:44 | `Set.delete` keeps at most the same elements, changes nothing when the element is absent, and shrinks a duplicate-free set by one when it is present |
| Seqs.RemoveMembers | UI/script.js:44 | After `Set.delete`, exactly the other elements remain |
| Seqs.RemoveAt | main.cpp:87 | Erasing at the position of a key in a duplicate-free bucket removes exactly that key |
| JsCollections.MapSet | UI/script.js:13 | `Map.set` adds the key to the key set. A new key goes last, an existing key leaves the size unchanged, and keys stay unique |
| JsCollections.MapSetInPlace | UI/script.js:13 | `Map.set` of a held key rewrites that entry where it stands. Every other entry, and the insertion order, stay the same |
| JsCollections.MapSetLookup | UI/script.js:13 | After `Map.set`, `get` of that key returns the new value and every other key's value is unchanged |
| JsCollections.DropFirst | UI/script.js:20 | Deleting the first key of the iteration order drops the first entry |
| JsCollections.ReverseLookup | UI/script.js:9-15 | Read newest first, a map holds the same keys, without duplicates, with the same values |
| JsCollections.ReverseDrop | UI/script.js:12 | `Map.delete` commutes with reading the map newest first |
| JsCollections.SetAdd | UI/script.js:52 | `Set.add` keeps the old elements and adds the new one at the end of the insertion order; adding an element already there changes nothing |
| CacheJs.OneEntryBelowOne | UI/script.js:17-22 | At a capacity of 0 or less, `put` leaves exactly the entry just set, whatever the cache held |
| CacheJs.LRUCache.constructor | UI/script.js:4-7 | A new cache is empty and valid |
| CacheJs.LRUCache.Get | UI/script.js:9-15 | The result, and the map read newest first, are those of `LruSpec.Get`. A hit moves to the end of the insertion order |
| CacheJs.LRUCache.Put | UI/script.js:17-22 | The map read newest first is `LruSpec.Put` with the bound `Bound(capacity)`. The map stays valid: no key twice, and at most `Bound(capacity)` entries (`capacity` when it is positive, 1 otherwise) |
| CacheJs.KeptMirror | UI/script.js:18-20 | The entries left after deleting the key, or the oldest key of a full cache, are the entries `LruSpec.Put` keeps, read back to front. They leave room for the new key |
| CacheJs.PutLeaves | UI/script.js:17-22 | Setting the key behind the kept entries gives `LruSpec.Put` read newest first, within the bound |
| CacheJs.SetBehind | UI/script.js:21 | `set` of a key that is not held puts it behind the entries, so read newest first it comes in front of what `LruSpec.Put` keeps, with no key twice and within the bound |
| CacheJs.NewestFirstInverse | UI/script.js:37 | Reading the buckets newest first loses nothing: read back again, they are the stored sets. So a claim about a browser cache's view fixes all of its fields |
| CacheJs.LinkMirror | UI/script.js:51-52 | Adding a key to bucket `f`, read newest first, puts it in front of that bucket |
| CacheJs.UnlinkMirror | UI/script.js:44-46 | Deleting a key from bucket `f` and dropping the bucket once it is empty commutes with reading newest first |
| CacheJs.BucketsMirror | UI/script.js:44-52 | Moving a key from bucket `f` to bucket `f + 1`, read newest first, is the bucket move of `LfuSpec.Touch` |
| CacheJs.TouchStepsMirror | UI/script.js:41-53 | Every field that browser `updateFreq` leaves, read newest first, equals the corresponding field after the steps of `LfuSpec.Touch` |
| CacheJs.TouchMirror | UI/script.js:41-53 | Browser `updateFreq`, read newest first, is `LfuSpec.Touch` |
| CacheJs.TouchLeaves | UI/script.js:41-53 | The fields browser `updateFreq` leaves are `LfuSpec.Touch` of the ones it found, and keep the invariant and the capacity bound |
| CacheJs.FreshKeyMirror | UI/script.js:76-78 | A key the cache does not hold is in no bucket, so `add` puts it at the end of bucket 1 |
| CacheJs.EvictMirror | UI/script.js:69-73 | The first key of set `minFreq` is `LfuSpec.Victim`. Deleting it, and the set once it is empty, is `LfuSpec.Evict` |
| CacheJs.LFUCache.constructor | UI/script.js:34-39 | A new cache is the empty `LfuSpec` state, valid for a non-negative capacity |
| CacheJs.LFUCache.Unlink | UI/script.js:44-47 | The key leaves set `freq`. The set is deleted when it is empty, and then `minFreq` moves up by one if it was that set |
| CacheJs.LFUCache.Link | UI/script.js:51-52 | The key is added to set `freq`, which is created when missing |
| CacheJs.LFUCache.Move | UI/script.js:42-52 | The key's count rises by one and it moves from set `freq` to set `freq + 1`. `minFreq` is adjusted as `Unlink` does |
| CacheJs.LFUCache.UpdateFreq | UI/script.js:41-53 | The cache read newest first becomes `LfuSpec.Touch` of what it was, and stays valid |
| CacheJs.LFUCache.Get | UI/script.js:55-59 | The result and the new state read newest first are those of `LfuSpec.Get` |
| CacheJs.LFUCache.EvictOldest | UI/script.js:69-73 | The cache read newest first becomes `LfuSpec.Evict` of what it was |
| CacheJs.LFUCache.AddNew | UI/script.js:76-79 | The cache read newest first becomes `LfuSpec.Insert` of what it was |
| CacheJs.LFUCache.Put | UI/script.js:61-81 | The cache read newest first becomes `LfuSpec.Put` of what it was, and stays valid |
| CacheCpp.EraseLocates | main.cpp:38 | After `dll.erase`, every other key's stored position still points at its node |
| CacheCpp.PopBackLocates | main.cpp:54 | After `dll.pop_back`, every other key's stored position still points at its node |
| CacheCpp.PushFrontLocates | main.cpp:39-40 | After `push_front` and recording position 0, every key's stored position points at its node |
| CacheCpp.LRUCache.constructor | main.cpp:29 | A new cache is empty and valid, for a non-zero capacity |
| CacheCpp.LRUCache.Unlink | main.cpp:36-38 | The key's node leaves `dll`, which becomes `LruSpec.Drop`, and its stored value is returned |
| CacheCpp.LRUCache.PopBack | main.cpp:52-54 | The back node and its key are removed, with every other position kept right |
| CacheCpp.LRUCache.PushFront | main.cpp:39-40 | The entry goes to the front, and `hashmap` again places every key of `dll` |
| CacheCpp.LRUCache.Get | main.cpp:31-42 | The result and the new list are those of `LruSpec.Get`, and the cache stays valid |
| CacheCpp.LRUCache.MakeRoom | main.cpp:46-55 | What stays in `dll` is what `LruSpec.Put` keeps behind the new front entry |
| CacheCpp.LRUCache.Put | main.cpp:44-58 | The new list is `LruSpec.Put` of the old one, and the cache stays valid |
| CacheCpp.ErasePoints | main.cpp:87-91 | Erasing a key from its bucket, and dropping the bucket once it is empty, keeps every other key's stored position right |
| CacheCpp.PushPoints | main.cpp:97-98 | Pushing a key to the front of its bucket and recording position 0 keeps every stored position right |
| CacheCpp.TouchSteps | main.cpp:84-99 | Erasing the key at its stored position and pushing it to the front of bucket `f + 1` is `LfuSpec.Touch` |
| CacheCpp.TouchPoints | main.cpp:84-99 | The positions `updateFreq` leaves point at every key in the buckets it leaves |
| CacheCpp.TouchLeaves | main.cpp:84-99 | The fields `updateFreq` leaves are `LfuSpec.Touch` of those it found, valid, within the capacity, and with every position right |
| CacheCpp.EvictPoints | main.cpp:127-132 | After eviction, every remaining key's stored position still points at it |
| CacheCpp.EvictLeaves | main.cpp:127-132 | The eviction steps leave `LfuSpec.Evict` of the state they found, with every position right |
| CacheCpp.NewKeyLeaves | main.cpp:124-138 | The new-key branch, eviction included, leaves `LfuSpec.Put` of the state it found: valid, within the capacity, with every position right |
| CacheCpp.InsertPoints | main.cpp:135-137 | After a new key is inserted, every stored position is right and `iterMap` holds exactly the held keys |
| CacheCpp.SetValuePoints | main.cpp:120 | Changing a value keeps every stored position right and the size unchanged |
| CacheCpp.LFUCache.constructor | main.cpp:102 | A new cache is the empty `LfuSpec` state, with `minFreq` 0 |
| CacheCpp.LFUCache.EraseAt | main.cpp:87-93 | The key at the stored position leaves bucket `freq`. The bucket is dropped when it is empty, and then `minFreq` moves up by one if it was that bucket |
| CacheCpp.LFUCache.PushFront | main.cpp:97-98 | The key goes in front of bucket `freq`, which is created when missing. Its recorded position is 0 and the other keys of that bucket move back by one |
| CacheCpp.LFUCache.UpdateFreq | main.cpp:84-99 | The state becomes `LfuSpec.Touch` of what it was, and stays valid |
| CacheCpp.LFUCache.Get | main.cpp:104-111 | The result and the new state are those of `LfuSpec.Get` |
| CacheCpp.LFUCache.PopBack | main.cpp:127-130 | The back key of bucket `minFreq` is removed and returned. The bucket is dropped when it is empty |
| CacheCpp.LFUCache.Put | main.cpp:113-140 | The new state is `LfuSpec.Put` of the old one, and the cache stays valid |

## Left out

- `display` of all four classes, the C++ `main` loop, and the DOM functions of `UI/script.js` (`initializeCache`, `put`, `get`, `display`): these are input and output only.
- The `Cache` base class: its virtual dispatch and virtual destructor are not modelled. Each class keeps its own `capacity`.
- Memory management, and the O(1) cost that the hash maps and iterators buy: costs are not modelled.
- Iterator validity is modelled as positions in sequences, not as pointers. Aliasing between `dll` nodes and `hashmap` entries is not modelled.
- 32-bit `int` overflow of keys, values, counts and `minFreq` is not modelled. All are unbounded integers.
- The -1 sentinel: `get` returns `Option<int>`, so inside the model a stored value of -1 stays distinguishable from a miss. `Wrappers.Reported` gives the integer the source returns, where the two collide.
- CacheCpp.LRUCache.constructor: a capacity of 0 is excluded, because the first `put` would read the back of an empty list (main.cpp:50-52).
- CacheJs.LFUCache.constructor: a negative capacity is excluded, because the first `put` would read the `minFreq` set of an empty cache, which does not exist (UI/script.js:68-69).
- `LFUNode.key` of main.cpp is never read, so it is not kept.
- The insertion order of the JavaScript `keyMap` and of the outer `freqMap` is only visible to `display`. Those two are Dafny maps. The order inside each `Set` is kept.
