/** The two cache classes of main.cpp. A `std::list` is a sequence; an
    iterator kept in a side map is the position of its element in that
    sequence, which moves when elements before it are erased or pushed in
    front of it. */
module CacheCpp {
  import opened Wrappers
  import Seqs
  import CacheBase
  import LruSpec
  import LfuSpec

  /** Positions after the element at `pos` is erased from a list: the
      elements of that list (`within`) behind it move up by one. */
  function AfterErase(handles: map<int, nat>, within: set<int>, pos: nat): map<int, nat> {
    map k | k in handles :: if k in within && handles[k] > pos then handles[k] - 1 else handles[k]
  }

  /** Positions after an element is pushed to the front of a list: every
      element of that list (`within`) moves down by one. */
  function AfterPushFront(handles: map<int, nat>, within: set<int>): map<int, nat> {
    map k | k in handles :: if k in within then handles[k] + 1 else handles[k]
  }

  /** `hashmap` holds, for each of its keys, a position in `dll` where that
      key's node sits. */
  ghost predicate Locates(dll: seq<LruSpec.Entry>, hashmap: map<int, nat>) {
    forall k :: k in hashmap ==> hashmap[k] < |dll| && dll[hashmap[k]].key == k
  }

  /** `dll.erase(it)` keeps every other key's position right. */
  lemma EraseLocates(dll: seq<LruSpec.Entry>, hashmap: map<int, nat>, node: nat)
    requires Locates(dll, hashmap) && node < |dll|
    ensures Locates(dll[..node] + dll[node + 1..], AfterErase(hashmap, hashmap.Keys, node) - {dll[node].key})
  {
    var d := dll[..node] + dll[node + 1..];
    forall k | k in hashmap && k != dll[node].key
      ensures AfterErase(hashmap, hashmap.Keys, node)[k] < |d|
      ensures d[AfterErase(hashmap, hashmap.Keys, node)[k]].key == k
    {
      var p := hashmap[k];
      if p > node { assert d[p - 1] == dll[p]; } else { assert p < node && d[p] == dll[p]; }
    }
  }

  /** `dll.pop_back()` keeps every other key's position right. */
  lemma PopBackLocates(dll: seq<LruSpec.Entry>, hashmap: map<int, nat>)
    requires Locates(dll, hashmap) && dll != []
    ensures Locates(dll[..|dll| - 1], hashmap - {dll[|dll| - 1].key})
  {
  }

  /** `dll.push_front(e); hashmap[e.key] = dll.begin()` makes every position
      right again. */
  lemma PushFrontLocates(dll: seq<LruSpec.Entry>, hashmap: map<int, nat>, e: LruSpec.Entry)
    requires Locates(dll, hashmap - {e.key})
    ensures Locates([e] + dll, AfterPushFront(hashmap, hashmap.Keys)[e.key := 0])
  {
    var d, h := [e] + dll, AfterPushFront(hashmap, hashmap.Keys)[e.key := 0];
    forall k | k in h ensures h[k] < |d| && d[h[k]].key == k {
      if k != e.key { assert k in hashmap - {e.key} && d[h[k]] == dll[hashmap[k]]; }
    }
  }

  /** main.cpp:23-69: `dll` in recency order, most recent first, and
      `hashmap` from each key to its node. */
  class LRUCache {
    const capacity: int
    var dll: seq<LruSpec.Entry>
    var hashmap: map<int, nat>

    /** `hashmap` locates every key of `dll` and no other; keys are unique;
        a positive capacity bounds the size. */
    ghost predicate Valid()
      reads this
    {
      && capacity != 0
      && LruSpec.Inv(dll, capacity)
      && hashmap.Keys == LruSpec.Keys(dll)
      && Locates(dll, hashmap)
    }

    /** main.cpp:29. A capacity of 0 makes the first `put` read the back of
        an empty list (main.cpp:52), so it is excluded. */
    constructor (cap: int)
      requires cap != 0
      ensures Valid() && capacity == cap && dll == []
    {
      capacity := cap;
      dll := [];
      hashmap := map[];
    }

    /** The state between the steps of `get` and `put`: `key` has no node
        in `dll`, and every other key's position is right. */
    ghost predicate Detached(key: int)
      reads this
    {
      && LruSpec.DistinctKeys(dll)
      && hashmap.Keys - {key} == LruSpec.Keys(dll)
      && Locates(dll, hashmap - {key})
    }

    /** `dll.erase(hashmap[key])` (main.cpp:38, main.cpp:48): the node goes,
        its value is returned. `hashmap[key]` is left dangling. */
    method Unlink(key: int) returns (value: int)
      requires Valid() && key in hashmap
      modifies this
      ensures Detached(key) && hashmap.Keys == old(hashmap.Keys)
      ensures dll == LruSpec.Drop(old(dll), key)
      ensures LruSpec.Lookup(old(dll), key) == Some(value)
    {
      var node := hashmap[key];
      value := dll[node].value;
      LruSpec.DropAt(dll, node);
      EraseLocates(dll, hashmap, node);
      dll := dll[..node] + dll[node + 1..];
      hashmap := AfterErase(hashmap, hashmap.Keys, node);
    }

    /** main.cpp:52-54: the back node and its key go. */
    method PopBack()
      requires Valid() && dll != []
      modifies this
      ensures LruSpec.DistinctKeys(dll) && hashmap.Keys == LruSpec.Keys(dll) && Locates(dll, hashmap)
      ensures dll == old(dll)[..|old(dll)| - 1]
    {
      var last := dll[|dll| - 1];
      LruSpec.DropLast(dll);
      PopBackLocates(dll, hashmap);
      hashmap := hashmap - {last.key};
      dll := dll[..|dll| - 1];
    }

    /** `dll.push_front({key, value}); hashmap[key] = dll.begin()`
        (main.cpp:39-40, main.cpp:56-57). */
    method PushFront(key: int, value: int)
      requires Detached(key)
      modifies this
      ensures dll == [LruSpec.Entry(key, value)] + old(dll)
      ensures hashmap.Keys == LruSpec.Keys(dll) && Locates(dll, hashmap)
      ensures LruSpec.DistinctKeys(dll)
    {
      LruSpec.KeysCons(LruSpec.Entry(key, value), dll);
      PushFrontLocates(dll, hashmap, LruSpec.Entry(key, value));
      dll := [LruSpec.Entry(key, value)] + dll;
      hashmap := AfterPushFront(hashmap, hashmap.Keys)[key := 0];
    }

    /** main.cpp:31-42. */
    method Get(key: int) returns (r: Option<int>)
      requires Valid()
      modifies this
      ensures Valid()
      ensures (r, dll) == LruSpec.Get(old(dll), key)
    {
      if key !in hashmap {
        return None;
      }
      LruSpec.GetCorrect(dll, key);
      var value := Unlink(key);
      PushFront(key, value);
      r := Some(value);
    }

    /** main.cpp:46-55: an old node of `key` is erased, or else a full
        cache drops its back node; what stays is what `put` keeps behind the
        new front entry. */
    method MakeRoom(key: int, value: int)
      requires Valid()
      modifies this
      ensures Detached(key)
      ensures dll == LruSpec.Put(old(dll), capacity, key, value)[1..]
    {
      if key in hashmap {
        var _ := Unlink(key);
      } else {
        if CacheBase.SizeReached(|dll|, capacity) {
          LruSpec.DropLast(dll);
          PopBack();
        }
        assert hashmap - {key} == hashmap;
      }
    }

    /** main.cpp:44-58. */
    method Put(key: int, value: int)
      requires Valid()
      modifies this
      ensures Valid()
      ensures dll == LruSpec.Put(old(dll), capacity, key, value)
    {
      LruSpec.PutKeepsInv(dll, capacity, key, value);
      MakeRoom(key, value);
      PushFront(key, value);
    }
  }

  /** `iterMap` holds, for each of its keys, the position of that key in the
      bucket of the key's frequency. */
  ghost predicate Points(keyMap: map<int, LfuSpec.Node>, freqMap: map<int, seq<int>>, iterMap: map<int, nat>) {
    forall k :: k in iterMap ==>
      && k in keyMap
      && keyMap[k].freq in freqMap
      && iterMap[k] < |freqMap[keyMap[k].freq]|
      && freqMap[keyMap[k].freq][iterMap[k]] == k
  }

  /** The elements of a list. */
  function Elements(s: seq<int>): set<int> {
    set x | x in s
  }

  /** The buckets after the key at position `pos` of bucket `freq` is erased
      and the bucket dropped if that empties it (main.cpp:87-91). */
  function Unlinked(freqMap: map<int, seq<int>>, freq: int, pos: nat): map<int, seq<int>>
    requires freq in freqMap && pos < |freqMap[freq]|
  {
    var b := freqMap[freq];
    var left := b[..pos] + b[pos + 1..];
    if left == [] then freqMap - {freq} else freqMap[freq := left]
  }

  /** `minFreq` after that erasure (main.cpp:92-93). */
  function NextMin(freqMap: map<int, seq<int>>, freq: int, pos: nat, minFreq: int): int
    requires freq in freqMap && pos < |freqMap[freq]|
  {
    if |freqMap[freq]| == 1 && minFreq == freq then minFreq + 1 else minFreq
  }

  /** The buckets after `key` is pushed to the front of bucket `freq`. */
  function Linked(freqMap: map<int, seq<int>>, freq: int, key: int): map<int, seq<int>> {
    freqMap[freq := [key] + LfuSpec.Bucket(freqMap, freq)]
  }

  /** Erasing `key` from its bucket, and dropping the bucket when that
      leaves it empty, keeps every other key's position right. */
  lemma ErasePoints(keyMap: map<int, LfuSpec.Node>, freqMap: map<int, seq<int>>, iterMap: map<int, nat>, key: int)
    requires key in iterMap && Points(keyMap, freqMap, iterMap)
    requires forall x :: x in iterMap && x in Elements(freqMap[keyMap[key].freq]) ==> keyMap[x].freq == keyMap[key].freq
    ensures var f, pos := keyMap[key].freq, iterMap[key];
      Points(keyMap, Unlinked(freqMap, f, pos), AfterErase(iterMap, Elements(freqMap[f]), pos) - {key})
  {
    var f := keyMap[key].freq;
    var b, pos := freqMap[f], iterMap[key];
    var left := b[..pos] + b[pos + 1..];
    var pruned := Unlinked(freqMap, f, pos);
    var h := AfterErase(iterMap, Elements(b), pos) - {key};
    forall k | k in h
      ensures keyMap[k].freq in pruned && h[k] < |pruned[keyMap[k].freq]| && pruned[keyMap[k].freq][h[k]] == k
    {
      var p := iterMap[k];
      if keyMap[k].freq == f {
        assert b[p] == k && p != pos;
        if p > pos {
          assert left[p - 1] == b[p];
        } else {
          assert left[p] == b[p];
        }
      } else {
        assert k !in Elements(b);
      }
    }
  }

  /** Pushing `key`, now at frequency `node.freq`, to the front of that
      bucket keeps every position right when every position in that bucket
      moves down by one and `key` takes position 0. */
  lemma PushPoints(keyMap: map<int, LfuSpec.Node>, freqMap: map<int, seq<int>>, iterMap: map<int, nat>, key: int, node: LfuSpec.Node)
    requires key !in iterMap && Points(keyMap, freqMap, iterMap)
    requires forall x :: x in LfuSpec.Bucket(freqMap, node.freq) ==> x in keyMap && x != key && keyMap[x].freq == node.freq
    ensures Points(keyMap[key := node], Linked(freqMap, node.freq, key),
      AfterPushFront(iterMap, Elements(LfuSpec.Bucket(freqMap, node.freq)))[key := 0])
  {
    var g := node.freq;
    var above := LfuSpec.Bucket(freqMap, g);
    var km, fm := keyMap[key := node], Linked(freqMap, g, key);
    var h := AfterPushFront(iterMap, Elements(above))[key := 0];
    forall k | k in h
      ensures k in km && km[k].freq in fm && h[k] < |fm[km[k].freq]| && fm[km[k].freq][h[k]] == k
    {
      if k != key {
        var p := iterMap[k];
        if keyMap[k].freq == g {
          assert above[p] == k;
          assert h[k] == p + 1;
        } else {
          assert k !in Elements(above);
        }
      }
    }
  }

  /** `updateFreq` spelled out step by step, with the key erased at its
      recorded position. */
  lemma TouchSteps(st: LfuSpec.State, iterMap: map<int, nat>, key: int)
    requires LfuSpec.Inv(st) && key in st.keyMap && key in iterMap
    requires Points(st.keyMap, st.freqMap, iterMap)
    ensures var f, pos := st.keyMap[key].freq, iterMap[key];
      LfuSpec.Touch(st, key) == LfuSpec.State(st.keyMap[key := st.keyMap[key].(freq := f + 1)],
        Linked(Unlinked(st.freqMap, f, pos), f + 1, key), NextMin(st.freqMap, f, pos, st.minFreq))
  {
    var f := st.keyMap[key].freq;
    var b, pos := st.freqMap[f], iterMap[key];
    Seqs.RemoveAt(b, pos);
    assert |b[..pos] + b[pos + 1..]| == |b| - 1;
  }

  /** The positions `updateFreq` leaves are right for the state it leaves. */
  lemma TouchPoints(st: LfuSpec.State, iterMap: map<int, nat>, key: int)
    requires LfuSpec.Inv(st) && key in st.keyMap && key in iterMap
    requires Points(st.keyMap, st.freqMap, iterMap)
    ensures var f, pos := st.keyMap[key].freq, iterMap[key];
      var pruned := Unlinked(st.freqMap, f, pos);
      Points(st.keyMap[key := st.keyMap[key].(freq := f + 1)], Linked(pruned, f + 1, key),
        AfterPushFront(AfterErase(iterMap, Elements(st.freqMap[f]), pos), Elements(LfuSpec.Bucket(pruned, f + 1)))[key := 0])
  {
    var f, pos := st.keyMap[key].freq, iterMap[key];
    var pruned := Unlinked(st.freqMap, f, pos);
    var h1 := AfterErase(iterMap, Elements(st.freqMap[f]), pos);
    ErasePoints(st.keyMap, st.freqMap, iterMap, key);
    assert LfuSpec.Bucket(pruned, f + 1) == LfuSpec.Bucket(st.freqMap, f + 1);
    PushPoints(st.keyMap, pruned, h1 - {key}, key, st.keyMap[key].(freq := f + 1));
    PushFrontOver(h1, Elements(LfuSpec.Bucket(pruned, f + 1)), key);
  }

  /** The state `updateFreq` leaves is `LfuSpec.Touch` of the state it
      found, with every position right. */
  lemma TouchLeaves(st: LfuSpec.State, handles: map<int, nat>, key: int, keyMap: map<int, LfuSpec.Node>,
                    freqMap: map<int, seq<int>>, minFreq: int, iterMap: map<int, nat>, capacity: int)
    requires LfuSpec.Inv(st) && LfuSpec.Fits(st, capacity) && key in st.keyMap
    requires handles.Keys == st.keyMap.Keys && Points(st.keyMap, st.freqMap, handles)
    requires var f, pos := st.keyMap[key].freq, handles[key];
      && keyMap == st.keyMap[key := st.keyMap[key].(freq := f + 1)]
      && freqMap == Linked(Unlinked(st.freqMap, f, pos), f + 1, key)
      && minFreq == NextMin(st.freqMap, f, pos, st.minFreq)
      && iterMap == AfterPushFront(AfterErase(handles, Elements(st.freqMap[f]), pos), Elements(LfuSpec.Bucket(Unlinked(st.freqMap, f, pos), f + 1)))[key := 0]
    ensures LfuSpec.State(keyMap, freqMap, minFreq) == LfuSpec.Touch(st, key)
    ensures LfuSpec.Inv(LfuSpec.State(keyMap, freqMap, minFreq)) && LfuSpec.Fits(LfuSpec.State(keyMap, freqMap, minFreq), capacity)
    ensures iterMap.Keys == keyMap.Keys && Points(keyMap, freqMap, iterMap)
  {
    TouchSteps(st, handles, key);
    LfuSpec.TouchKeepsInv(st, key);
    TouchPoints(st, handles, key);
    assert keyMap.Keys == st.keyMap.Keys;
  }

  /** Whether a stale position for `key` is kept or dropped does not matter
      once `key` is given a new one. */
  lemma PushFrontOver(handles: map<int, nat>, within: set<int>, key: int)
    ensures AfterPushFront(handles - {key}, within)[key := 0] == AfterPushFront(handles, within)[key := 0]
  {
    var x, y := AfterPushFront(handles - {key}, within)[key := 0], AfterPushFront(handles, within)[key := 0];
    assert x.Keys == y.Keys;
    forall k | k in x ensures x[k] == y[k] { }
  }

  /** Positions after the eviction of main.cpp:127-132: the victim is the
      last of its bucket, so every other key keeps its position. */
  lemma EvictPoints(st: LfuSpec.State, iterMap: map<int, nat>)
    requires LfuSpec.Inv(st) && st.keyMap != map[]
    requires Points(st.keyMap, st.freqMap, iterMap) && iterMap.Keys == st.keyMap.Keys
    ensures var r := LfuSpec.Evict(st);
      && Points(r.keyMap, r.freqMap, iterMap - {LfuSpec.Victim(st)})
      && (iterMap - {LfuSpec.Victim(st)}).Keys == r.keyMap.Keys
  {
    var r, b := LfuSpec.Evict(st), st.freqMap[st.minFreq];
    var v := LfuSpec.Victim(st);
    var left := b[..|b| - 1];
    forall k | k in iterMap && k != v
      ensures r.keyMap[k].freq in r.freqMap && iterMap[k] < |r.freqMap[r.keyMap[k].freq]|
      ensures r.freqMap[r.keyMap[k].freq][iterMap[k]] == k
    {
      var g, p := st.keyMap[k].freq, iterMap[k];
      if g == st.minFreq {
        assert b[p] == k && p != |b| - 1;
        assert left[p] == k;
      }
    }
  }

  /** The eviction of main.cpp:127-132 leaves `LfuSpec.Evict` of the state
      it found, with every position right. */
  lemma EvictLeaves(st: LfuSpec.State, handles: map<int, nat>, victim: int,
                    keyMap: map<int, LfuSpec.Node>, freqMap: map<int, seq<int>>, iterMap: map<int, nat>)
    requires LfuSpec.Inv(st) && st.keyMap != map[]
    requires handles.Keys == st.keyMap.Keys && Points(st.keyMap, st.freqMap, handles)
    requires var b := st.freqMap[st.minFreq];
      var left := b[..|b| - 1];
      && victim == b[|b| - 1]
      && keyMap == st.keyMap - {victim}
      && freqMap == (if left == [] then st.freqMap - {st.minFreq} else st.freqMap[st.minFreq := left])
      && iterMap == handles - {victim}
    ensures LfuSpec.State(keyMap, freqMap, st.minFreq) == LfuSpec.Evict(st)
    ensures iterMap.Keys == keyMap.Keys && Points(keyMap, freqMap, iterMap)
  {
    EvictPoints(st, handles);
  }

  /** The new-key branch of main.cpp:124-138, eviction included, leaves
      `LfuSpec.Put` of the state it found, with every position right. */
  lemma NewKeyLeaves(st: LfuSpec.State, mid: LfuSpec.State, handles: map<int, nat>, capacity: int, key: int, value: int,
                     keyMap: map<int, LfuSpec.Node>, freqMap: map<int, seq<int>>, iterMap: map<int, nat>)
    requires LfuSpec.Inv(st) && LfuSpec.Fits(st, capacity) && capacity != 0 && key !in st.keyMap
    requires mid == if CacheBase.SizeReached(|st.keyMap|, capacity) then LfuSpec.Evict(st) else st
    requires handles.Keys == mid.keyMap.Keys && Points(mid.keyMap, mid.freqMap, handles)
    requires keyMap == mid.keyMap[key := LfuSpec.Node(value, 1)]
    requires freqMap == Linked(mid.freqMap, 1, key)
    requires iterMap == AfterPushFront(handles, Elements(LfuSpec.Bucket(mid.freqMap, 1)))[key := 0]
    ensures LfuSpec.State(keyMap, freqMap, 1) == LfuSpec.Put(st, capacity, key, value)
    ensures LfuSpec.Inv(LfuSpec.State(keyMap, freqMap, 1)) && LfuSpec.Fits(LfuSpec.State(keyMap, freqMap, 1), capacity)
    ensures iterMap.Keys == keyMap.Keys && Points(keyMap, freqMap, iterMap)
  {
    if CacheBase.SizeReached(|st.keyMap|, capacity) {
      LfuSpec.EvictCorrect(st);
    }
    InsertPoints(mid, handles, key, value);
    LfuSpec.PutKeepsInv(st, capacity, key, value);
    assert LfuSpec.Put(st, capacity, key, value) == LfuSpec.Insert(mid, key, value);
  }

  /** Positions after the insertion of main.cpp:135-138. */
  lemma InsertPoints(st: LfuSpec.State, iterMap: map<int, nat>, key: int, value: int)
    requires LfuSpec.Buckets(st) && key !in st.keyMap
    requires Points(st.keyMap, st.freqMap, iterMap) && iterMap.Keys == st.keyMap.Keys
    ensures var r, h := LfuSpec.Insert(st, key, value), AfterPushFront(iterMap, Elements(LfuSpec.Bucket(st.freqMap, 1)))[key := 0];
      Points(r.keyMap, r.freqMap, h) && h.Keys == r.keyMap.Keys
  {
    PushPoints(st.keyMap, st.freqMap, iterMap, key, LfuSpec.Node(value, 1));
  }

  /** Changing a value keeps every position right (main.cpp:120). */
  lemma SetValuePoints(st: LfuSpec.State, iterMap: map<int, nat>, key: int, value: int)
    requires LfuSpec.Inv(st) && key in st.keyMap && Points(st.keyMap, st.freqMap, iterMap)
    ensures var r := LfuSpec.SetValue(st, key, value);
      Points(r.keyMap, r.freqMap, iterMap) && |r.keyMap| == |st.keyMap|
  {
    var r := LfuSpec.SetValue(st, key, value);
    assert r.keyMap.Keys == st.keyMap.Keys;
  }

  /** main.cpp:72-160: `keyMap` from each key to its value and frequency,
      `freqMap` from each frequency to its keys (most recently touched
      first), `iterMap` from each key to its place in that list, and
      `minFreq`. `LFUNode.key` is never read and is not kept. */
  class LFUCache {
    const capacity: int
    var minFreq: int
    var keyMap: map<int, LfuSpec.Node>
    var freqMap: map<int, seq<int>>
    var iterMap: map<int, nat>

    /** The abstract state. */
    function State(): LfuSpec.State
      reads this
    {
      LfuSpec.State(keyMap, freqMap, minFreq)
    }

    /** Buckets and `minFreq` agree with `keyMap`, the capacity bounds the
        size, and `iterMap` places every key, and only those. */
    ghost predicate Valid()
      reads this
    {
      && LfuSpec.Inv(State())
      && LfuSpec.Fits(State(), capacity)
      && iterMap.Keys == keyMap.Keys
      && Points(keyMap, freqMap, iterMap)
    }

    /** main.cpp:102. */
    constructor (cap: int)
      ensures Valid() && capacity == cap && State() == LfuSpec.Empty
    {
      capacity := cap;
      minFreq := 0;
      keyMap := map[];
      freqMap := map[];
      iterMap := map[];
    }

    /** main.cpp:87-94: erases the key at position `pos` of bucket `freq`,
        drops the bucket if that empties it, and then moves `minFreq` past it
        if it was the minimum. */
    method EraseAt(freq: int, pos: nat)
      requires freq in freqMap && pos < |freqMap[freq]|
      modifies this
      ensures keyMap == old(keyMap)
      ensures freqMap == Unlinked(old(freqMap), freq, pos)
      ensures minFreq == NextMin(old(freqMap), freq, pos, old(minFreq))
      ensures iterMap == AfterErase(old(iterMap), Elements(old(freqMap)[freq]), pos)
    {
      var bucket := freqMap[freq];
      freqMap := freqMap[freq := bucket[..pos] + bucket[pos + 1..]];
      iterMap := AfterErase(iterMap, Elements(bucket), pos);
      if freqMap[freq] == [] {
        freqMap := freqMap - {freq};
        if minFreq == freq {
          minFreq := minFreq + 1;
        }
      }
    }

    /** main.cpp:97-98 and main.cpp:136-137: pushes `key` to the front of
        bucket `freq`, creating the bucket if needed, and records position 0
        for it. */
    method PushFront(key: int, freq: int)
      modifies this
      ensures keyMap == old(keyMap) && minFreq == old(minFreq)
      ensures freqMap == Linked(old(freqMap), freq, key)
      ensures iterMap == AfterPushFront(old(iterMap), Elements(LfuSpec.Bucket(old(freqMap), freq)))[key := 0]
    {
      var above := if freq in freqMap then freqMap[freq] else [];
      freqMap := freqMap[freq := [key] + above];
      iterMap := AfterPushFront(iterMap, Elements(above))[key := 0];
    }

    /** main.cpp:84-99. */
    method UpdateFreq(key: int)
      requires Valid() && key in keyMap
      modifies this
      ensures Valid()
      ensures State() == LfuSpec.Touch(old(State()), key)
    {
      ghost var st, handles := State(), iterMap;
      var freq := keyMap[key].freq;
      ghost var pos := iterMap[key];
      EraseAt(freq, iterMap[key]);
      keyMap := keyMap[key := keyMap[key].(freq := freq + 1)];
      PushFront(key, freq + 1);
      TouchLeaves(st, handles, key, keyMap, freqMap, minFreq, iterMap, capacity);
    }

    /** main.cpp:104-111. */
    method Get(key: int) returns (r: Option<int>)
      requires Valid()
      modifies this
      ensures Valid()
      ensures (r, State()) == LfuSpec.Get(old(State()), key)
    {
      if key !in keyMap {
        return None;
      }
      UpdateFreq(key);
      r := Some(keyMap[key].value);
    }

    /** main.cpp:127-129: takes the least recently touched key off the back
        of the `minFreq` bucket, and drops the bucket if that empties it. */
    method PopBack() returns (evictKey: int)
      requires minFreq in freqMap && freqMap[minFreq] != []
      modifies this
      ensures keyMap == old(keyMap) && iterMap == old(iterMap) && minFreq == old(minFreq)
      ensures var b := old(freqMap[minFreq]);
        var left := b[..|b| - 1];
        && evictKey == b[|b| - 1]
        && freqMap == (if left == [] then old(freqMap) - {minFreq} else old(freqMap)[minFreq := left])
    {
      var bucket := freqMap[minFreq];
      evictKey := bucket[|bucket| - 1];
      freqMap := freqMap[minFreq := bucket[..|bucket| - 1]];
      if freqMap[minFreq] == [] {
        freqMap := freqMap - {minFreq};
      }
    }

    /** main.cpp:113-140. */
    method Put(key: int, value: int)
      requires Valid()
      modifies this
      ensures Valid()
      ensures State() == LfuSpec.Put(old(State()), capacity, key, value)
    {
      ghost var st := State();
      if capacity == 0 {
        return;
      }
      if key in keyMap {
        SetValuePoints(st, iterMap, key, value);
        keyMap := keyMap[key := keyMap[key].(value := value)];
        UpdateFreq(key);
      } else {
        ghost var handles := iterMap;
        if CacheBase.SizeReached(|keyMap|, capacity) {
          var evictKey := PopBack();
          keyMap := keyMap - {evictKey};
          iterMap := iterMap - {evictKey};
          EvictLeaves(st, handles, evictKey, keyMap, freqMap, iterMap);
        }
        ghost var mid, midHandles := State(), iterMap;
        keyMap := keyMap[key := LfuSpec.Node(value, 1)];
        PushFront(key, 1);
        minFreq := 1;
        NewKeyLeaves(st, mid, midHandles, capacity, key, value, keyMap, freqMap, iterMap);
      }
    }
  }
}
