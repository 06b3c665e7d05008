/** The browser caches of UI/script.js. They keep their entries in
    insertion order, oldest first, where the C++ caches keep theirs newest
    first; read back to front, each is proved to be the cache of `LruSpec`
    or `LfuSpec`. */
module CacheJs {
  import opened Wrappers
  import Seqs
  import CacheBase
  import LruSpec
  import LfuSpec
  import JsCollections

  /** The number of entries the browser LRU keeps: `put` of a new key
      deletes the oldest one whenever `size >= capacity`, so a capacity of
      zero or less keeps one entry (deleting from an empty `Map` deletes
      nothing). */
  function Bound(capacity: int): (b: int)
    ensures b >= 1
    ensures capacity >= 1 ==> b == capacity
    ensures capacity <= 0 ==> b == 1
  {
    if capacity <= 0 then 1 else capacity
  }

  /** At a capacity of 0 or less the browser LRU holds exactly the entry
      just set: script.js:19-21 first deletes the key or the oldest entry,
      whichever applies, and the one entry allowed is gone. */
  lemma OneEntryBelowOne(order: seq<LruSpec.Entry>, capacity: int, key: int, value: int)
    requires capacity <= 0 && LruSpec.Inv(order, Bound(capacity))
    ensures LruSpec.Put(order, Bound(capacity), key, value) == [LruSpec.Entry(key, value)]
  {
    if key in LruSpec.Keys(order) {
      assert |LruSpec.Drop(order, key)| == 0;
    } else if |order| == 1 {
      assert order[..0] == [];
    }
  }

  /** script.js:3-31: `entries` is the contents of its `Map` field `map`,
      in insertion order (`map` is a Dafny keyword). */
  class LRUCache {
    const capacity: int
    var entries: seq<LruSpec.Entry>

    /** No key twice, and at most `Bound(capacity)` entries. */
    ghost predicate Valid()
      reads this
    {
      LruSpec.Inv(entries, Bound(capacity))
    }

    /** script.js:4-7. */
    constructor (cap: int)
      ensures Valid() && capacity == cap && entries == []
    {
      capacity := cap;
      entries := [];
    }

    /** script.js:9-15: a hit is deleted and set again, which makes it the
        newest entry. */
    method Get(key: int) returns (r: Option<int>)
      requires Valid()
      modifies this
      ensures Valid()
      ensures (r, Seqs.Reverse(entries)) == LruSpec.Get(Seqs.Reverse(old(entries)), key)
    {
      JsCollections.ReverseLookup(entries, key);
      if key !in LruSpec.Keys(entries) {
        return None;
      }
      var value := LruSpec.Lookup(entries, key).value;
      JsCollections.ReverseDrop(entries, key);
      entries := LruSpec.Drop(entries, key);
      Seqs.ReverseEnds(entries, LruSpec.Entry(key, value));
      entries := JsCollections.MapSet(entries, key, value);
      return Some(value);
    }

    /** script.js:17-22. */
    method Put(key: int, value: int)
      requires Valid()
      modifies this
      ensures Valid()
      ensures Seqs.Reverse(entries) == LruSpec.Put(Seqs.Reverse(old(entries)), Bound(capacity), key, value)
    {
      ghost var before := entries;
      if key in LruSpec.Keys(entries) {
        entries := LruSpec.Drop(entries, key);
      } else if |entries| >= capacity {
        match JsCollections.FirstKey(entries) {
          case None =>
          case Some(oldest) =>
            JsCollections.DropFirst(entries);
            entries := LruSpec.Drop(entries, oldest);
        }
      }
      PutLeaves(before, capacity, key, value, entries);
      entries := JsCollections.MapSet(entries, key, value);
    }
  }

  /** The entries script.js:18-21 keep before setting `key` again: without
      `key`, and without the oldest entry when a new key finds the cache
      full. Read newest first, they are what `LruSpec.Put` keeps behind the
      new front entry, and they leave room for it. */
  lemma KeptMirror(before: seq<LruSpec.Entry>, capacity: int, key: int, kept: seq<LruSpec.Entry>)
    requires LruSpec.Inv(before, Bound(capacity))
    requires kept == if key in LruSpec.Keys(before) then LruSpec.Drop(before, key)
      else if |before| >= capacity && before != [] then before[1..]
      else before
    ensures var newest := Seqs.Reverse(before);
      Seqs.Reverse(kept) == if key in LruSpec.Keys(newest) then LruSpec.Drop(newest, key)
        else if CacheBase.SizeReached(|newest|, Bound(capacity)) then newest[..|newest| - 1]
        else newest
    ensures key !in LruSpec.Keys(kept) && LruSpec.DistinctKeys(kept) && |kept| < Bound(capacity)
  {
    JsCollections.ReverseLookup(before, key);
    if key in LruSpec.Keys(before) {
      JsCollections.ReverseDrop(before, key);
    } else if |before| >= capacity && before != [] {
      JsCollections.DropFirst(before);
      Seqs.ReverseTail(before);
    }
  }

  /** Setting `key` behind the kept entries gives `LruSpec.Put` read newest
      first, within the bound. */
  lemma PutLeaves(before: seq<LruSpec.Entry>, capacity: int, key: int, value: int, kept: seq<LruSpec.Entry>)
    requires LruSpec.Inv(before, Bound(capacity))
    requires kept == if key in LruSpec.Keys(before) then LruSpec.Drop(before, key)
      else if |before| >= capacity && before != [] then before[1..]
      else before
    ensures Seqs.Reverse(JsCollections.MapSet(kept, key, value))
      == LruSpec.Put(Seqs.Reverse(before), Bound(capacity), key, value)
    ensures LruSpec.Inv(JsCollections.MapSet(kept, key, value), Bound(capacity))
  {
    KeptMirror(before, capacity, key, kept);
    SetBehind(Seqs.Reverse(before), Bound(capacity), key, value, kept);
  }

  /** Setting a key that is not in `kept` behind it: read newest first, the
      key comes in front of what `LruSpec.Put` keeps. */
  lemma SetBehind(newest: seq<LruSpec.Entry>, bound: int, key: int, value: int, kept: seq<LruSpec.Entry>)
    requires bound >= 1 && LruSpec.DistinctKeys(kept) && key !in LruSpec.Keys(kept) && |kept| < bound
    requires Seqs.Reverse(kept) == if key in LruSpec.Keys(newest) then LruSpec.Drop(newest, key)
        else if CacheBase.SizeReached(|newest|, bound) then newest[..|newest| - 1]
        else newest
    ensures Seqs.Reverse(JsCollections.MapSet(kept, key, value)) == LruSpec.Put(newest, bound, key, value)
    ensures LruSpec.Inv(JsCollections.MapSet(kept, key, value), bound)
  {
    var e := LruSpec.Entry(key, value);
    assert JsCollections.MapSet(kept, key, value) == kept + [e];
    Seqs.ReverseEnds(kept, e);
  }

  /** Every bucket read newest first. */
  function NewestFirst(freqMap: map<int, seq<int>>): (r: map<int, seq<int>>)
    ensures r.Keys == freqMap.Keys
    ensures forall f :: f in r ==> r[f] == Seqs.Reverse(freqMap[f])
  {
    map f | f in freqMap :: Seqs.Reverse(freqMap[f])
  }

  /** Reading the buckets newest first loses nothing: read back again they
      are the sets as stored, so a claim about the view of a browser cache
      fixes every field of it. */
  lemma NewestFirstInverse(freqMap: map<int, seq<int>>)
    ensures NewestFirst(NewestFirst(freqMap)) == freqMap
  {
    forall f | f in freqMap ensures NewestFirst(NewestFirst(freqMap))[f] == freqMap[f] {
      Seqs.ReverseReverse(freqMap[f]);
    }
  }

  /** Replacing one bucket, read newest first. */
  lemma NewestFirstUpdate(freqMap: map<int, seq<int>>, freq: int, bucket: seq<int>)
    ensures NewestFirst(freqMap[freq := bucket]) == NewestFirst(freqMap)[freq := Seqs.Reverse(bucket)]
  {
    var a, b := NewestFirst(freqMap[freq := bucket]), NewestFirst(freqMap)[freq := Seqs.Reverse(bucket)];
    assert a.Keys == b.Keys;
    forall f | f in a ensures a[f] == b[f] { }
  }

  /** Dropping one bucket, read newest first. */
  lemma NewestFirstRemove(freqMap: map<int, seq<int>>, freq: int)
    ensures NewestFirst(freqMap - {freq}) == NewestFirst(freqMap) - {freq}
  {
    var a, b := NewestFirst(freqMap - {freq}), NewestFirst(freqMap) - {freq};
    assert a.Keys == b.Keys;
    forall f | f in a ensures a[f] == b[f] { }
  }

  /** The buckets after script.js:44-46 delete `key` from the bucket of
      `freq`: that bucket without the key, or no bucket once it is empty. */
  function Unlinked(freqMap: map<int, seq<int>>, freq: int, key: int): map<int, seq<int>>
    requires freq in freqMap
  {
    var left := Seqs.Remove(freqMap[freq], key);
    if |left| == 0 then freqMap - {freq} else freqMap[freq := left]
  }

  /** `minFreq` after that deletion (script.js:47). */
  function NextMin(freqMap: map<int, seq<int>>, freq: int, key: int, minFreq: int): int
    requires freq in freqMap
  {
    if |Seqs.Remove(freqMap[freq], key)| == 0 && minFreq == freq then minFreq + 1 else minFreq
  }

  /** The buckets after script.js:51-52 add `key` to the bucket of `freq`,
      creating the bucket if there is none. */
  function Linked(freqMap: map<int, seq<int>>, freq: int, key: int): map<int, seq<int>> {
    freqMap[freq := JsCollections.SetAdd(LfuSpec.Bucket(freqMap, freq), key)]
  }

  /** Adding a key to the end of a bucket, and then reading it newest first,
      puts the key in front of that bucket read newest first. */
  lemma LinkMirror(freqMap: map<int, seq<int>>, freq: int, key: int)
    requires key !in LfuSpec.Bucket(freqMap, freq)
    ensures NewestFirst(Linked(freqMap, freq, key))
      == NewestFirst(freqMap)[freq := [key] + LfuSpec.Bucket(NewestFirst(freqMap), freq)]
  {
    var b := LfuSpec.Bucket(freqMap, freq);
    assert JsCollections.SetAdd(b, key) == b + [key];
    Seqs.ReverseEnds(b, key);
    NewestFirstUpdate(freqMap, freq, b + [key]);
    assert LfuSpec.Bucket(NewestFirst(freqMap), freq) == Seqs.Reverse(b);
  }

  /** Deleting a key from a bucket, dropping the bucket if that empties it,
      and reading every bucket newest first. */
  lemma UnlinkMirror(freqMap: map<int, seq<int>>, freq: int, key: int)
    requires freq in freqMap
    ensures var mleft := Seqs.Remove(NewestFirst(freqMap)[freq], key);
      && (|Seqs.Remove(freqMap[freq], key)| == 0 <==> mleft == [])
      && NewestFirst(Unlinked(freqMap, freq, key))
         == (if mleft == [] then NewestFirst(freqMap) - {freq} else NewestFirst(freqMap)[freq := mleft])
  {
    var left := Seqs.Remove(freqMap[freq], key);
    Seqs.ReverseRemove(freqMap[freq], key);
    assert NewestFirst(freqMap)[freq] == Seqs.Reverse(freqMap[freq]);
    assert |Seqs.Reverse(left)| == |left|;
    NewestFirstRemove(freqMap, freq);
    NewestFirstUpdate(freqMap, freq, left);
  }

  /** The buckets script.js:44-52 leave, read newest first: the key leaves
      its bucket and enters the front of the next one. */
  lemma BucketsMirror(freqMap: map<int, seq<int>>, f: int, key: int)
    requires f in freqMap && key !in LfuSpec.Bucket(freqMap, f + 1)
    ensures var mleft := Seqs.Remove(NewestFirst(freqMap)[f], key);
      var mpruned := if mleft == [] then NewestFirst(freqMap) - {f} else NewestFirst(freqMap)[f := mleft];
      && (|Seqs.Remove(freqMap[f], key)| == 0 <==> mleft == [])
      && NewestFirst(Linked(Unlinked(freqMap, f, key), f + 1, key))
         == mpruned[f + 1 := [key] + LfuSpec.Bucket(mpruned, f + 1)]
  {
    var pruned := Unlinked(freqMap, f, key);
    UnlinkMirror(freqMap, f, key);
    assert LfuSpec.Bucket(pruned, f + 1) == LfuSpec.Bucket(freqMap, f + 1);
    LinkMirror(pruned, f + 1, key);
  }

  /** The steps of `LfuSpec.Touch` again, for any state where `key` sits in
      the bucket of its frequency, not only one known to keep the invariant
      (`TouchIsSteps` ties the two together). The browser proof matches this
      copy field by field, which keeps each of its steps small enough for
      the solver. */
  function TouchSteps(st: LfuSpec.State, key: int): LfuSpec.State
    requires key in st.keyMap && st.keyMap[key].freq in st.freqMap
  {
    var f := st.keyMap[key].freq;
    var left := Seqs.Remove(st.freqMap[f], key);
    var pruned := if left == [] then st.freqMap - {f} else st.freqMap[f := left];
    var minFreq := if left == [] && st.minFreq == f then st.minFreq + 1 else st.minFreq;
    var above := if f + 1 in pruned then pruned[f + 1] else [];
    LfuSpec.State(st.keyMap[key := LfuSpec.Node(st.keyMap[key].value, f + 1)], pruned[f + 1 := [key] + above], minFreq)
  }

  lemma TouchIsSteps(st: LfuSpec.State, key: int)
    requires LfuSpec.Inv(st) && key in st.keyMap
    ensures st.keyMap[key].freq in st.freqMap
    ensures LfuSpec.Touch(st, key) == TouchSteps(st, key)
  {
  }

  /** What `TouchSteps` leaves in each field. */
  lemma TouchStepsParts(st: LfuSpec.State, key: int)
    requires key in st.keyMap && st.keyMap[key].freq in st.freqMap
    ensures var f := st.keyMap[key].freq;
      var left := Seqs.Remove(st.freqMap[f], key);
      var pruned := if left == [] then st.freqMap - {f} else st.freqMap[f := left];
      && TouchSteps(st, key).keyMap == st.keyMap[key := st.keyMap[key].(freq := f + 1)]
      && TouchSteps(st, key).minFreq == (if left == [] && st.minFreq == f then st.minFreq + 1 else st.minFreq)
      && TouchSteps(st, key).freqMap == pruned[f + 1 := [key] + LfuSpec.Bucket(pruned, f + 1)]
  {
  }

  /** The JavaScript steps, read newest first, are the steps of `Touch`. */
  lemma TouchStepsMirror(keyMap: map<int, LfuSpec.Node>, freqMap: map<int, seq<int>>, minFreq: int, key: int)
    requires key in keyMap && keyMap[key].freq in freqMap
    requires key !in LfuSpec.Bucket(freqMap, keyMap[key].freq + 1)
    ensures var f := keyMap[key].freq;
      TouchSteps(LfuSpec.State(keyMap, NewestFirst(freqMap), minFreq), key)
      == LfuSpec.State(keyMap[key := keyMap[key].(freq := f + 1)],
           NewestFirst(Linked(Unlinked(freqMap, f, key), f + 1, key)), NextMin(freqMap, f, key, minFreq))
  {
    var st := LfuSpec.State(keyMap, NewestFirst(freqMap), minFreq);
    var f := keyMap[key].freq;
    BucketsMirror(freqMap, f, key);
    TouchStepsParts(st, key);
  }

  /** script.js:41-53 read newest first is `LfuSpec.Touch`. */
  lemma TouchMirror(keyMap: map<int, LfuSpec.Node>, freqMap: map<int, seq<int>>, minFreq: int, key: int)
    requires LfuSpec.Inv(LfuSpec.State(keyMap, NewestFirst(freqMap), minFreq)) && key in keyMap
    ensures keyMap[key].freq in freqMap
    ensures var f := keyMap[key].freq;
      LfuSpec.Touch(LfuSpec.State(keyMap, NewestFirst(freqMap), minFreq), key)
      == LfuSpec.State(keyMap[key := keyMap[key].(freq := f + 1)],
           NewestFirst(Linked(Unlinked(freqMap, f, key), f + 1, key)), NextMin(freqMap, f, key, minFreq))
  {
    var st := LfuSpec.State(keyMap, NewestFirst(freqMap), minFreq);
    var f := keyMap[key].freq;
    var above := LfuSpec.Bucket(freqMap, f + 1);
    assert key !in above by {
      Seqs.ReverseMembers(above);
      assert LfuSpec.Bucket(st.freqMap, f + 1) == Seqs.Reverse(above);
      assert forall x :: x in LfuSpec.Bucket(st.freqMap, f + 1) ==> x in keyMap && keyMap[x].freq == f + 1;
    }
    TouchIsSteps(st, key);
    TouchStepsMirror(keyMap, freqMap, minFreq, key);
  }

  /** The fields script.js:41-53 leave, with `freq` the frequency `key` had,
      read newest first. */
  function Touched(keyMap: map<int, LfuSpec.Node>, freqMap: map<int, seq<int>>, minFreq: int, key: int, freq: int): LfuSpec.State
    requires key in keyMap && freq in freqMap
  {
    LfuSpec.State(keyMap[key := keyMap[key].(freq := freq + 1)],
      NewestFirst(Linked(Unlinked(freqMap, freq, key), freq + 1, key)), NextMin(freqMap, freq, key, minFreq))
  }

  /** Fields that moved `key` up from `freq` as script.js:44-52 do are read
      as `Touched`. */
  lemma MovedFields(keyMap0: map<int, LfuSpec.Node>, freqMap0: map<int, seq<int>>, minFreq0: int, key: int, freq: int,
                    keyMap: map<int, LfuSpec.Node>, freqMap: map<int, seq<int>>, minFreq: int)
    requires key in keyMap0 && freq in freqMap0
    requires keyMap == keyMap0[key := keyMap0[key].(freq := freq + 1)]
    requires freqMap == Linked(Unlinked(freqMap0, freq, key), freq + 1, key)
    requires minFreq == NextMin(freqMap0, freq, key, minFreq0)
    ensures LfuSpec.State(keyMap, NewestFirst(freqMap), minFreq) == Touched(keyMap0, freqMap0, minFreq0, key, freq)
  {
  }

  /** Those fields are `LfuSpec.Touch` of the fields script.js:41-53 found,
      and keep the invariant and the capacity bound. */
  lemma TouchLeaves(keyMap: map<int, LfuSpec.Node>, freqMap: map<int, seq<int>>, minFreq: int, capacity: int, key: int)
    requires LfuSpec.Inv(LfuSpec.State(keyMap, NewestFirst(freqMap), minFreq)) && key in keyMap
    requires LfuSpec.Fits(LfuSpec.State(keyMap, NewestFirst(freqMap), minFreq), capacity)
    ensures keyMap[key].freq in freqMap
    ensures Touched(keyMap, freqMap, minFreq, key, keyMap[key].freq)
      == LfuSpec.Touch(LfuSpec.State(keyMap, NewestFirst(freqMap), minFreq), key)
    ensures LfuSpec.Inv(Touched(keyMap, freqMap, minFreq, key, keyMap[key].freq))
    ensures LfuSpec.Fits(Touched(keyMap, freqMap, minFreq, key, keyMap[key].freq), capacity)
  {
    var st := LfuSpec.State(keyMap, NewestFirst(freqMap), minFreq);
    TouchMirror(keyMap, freqMap, minFreq, key);
    LfuSpec.TouchKeepsInv(st, key);
    LfuSpec.TouchCorrect(st, key);
  }

  /** A key the cache does not hold is in no bucket, in particular not in
      the bucket of frequency 1 that script.js:78 adds it to. */
  lemma FreshKeyMirror(keyMap: map<int, LfuSpec.Node>, freqMap: map<int, seq<int>>, minFreq: int, key: int)
    requires LfuSpec.Buckets(LfuSpec.State(keyMap, NewestFirst(freqMap), minFreq)) && key !in keyMap
    ensures key !in LfuSpec.Bucket(freqMap, 1)
  {
    var st := LfuSpec.State(keyMap, NewestFirst(freqMap), minFreq);
    Seqs.ReverseMembers(LfuSpec.Bucket(freqMap, 1));
    assert LfuSpec.Bucket(freqMap, 1) != [] ==> LfuSpec.Bucket(st.freqMap, 1) == Seqs.Reverse(LfuSpec.Bucket(freqMap, 1));
  }

  /** script.js:68-74 read newest first is `LfuSpec.Evict`: the first key of
      the `minFreq` bucket is its last read newest first. */
  lemma EvictMirror(keyMap: map<int, LfuSpec.Node>, freqMap: map<int, seq<int>>, minFreq: int)
    requires LfuSpec.Inv(LfuSpec.State(keyMap, NewestFirst(freqMap), minFreq)) && keyMap != map[]
    ensures minFreq in freqMap && freqMap[minFreq] != []
    ensures var v, st := freqMap[minFreq][0], LfuSpec.State(keyMap, NewestFirst(freqMap), minFreq);
      && v == LfuSpec.Victim(st)
      && LfuSpec.Evict(st) == LfuSpec.State(keyMap - {v}, NewestFirst(Unlinked(freqMap, minFreq, v)), minFreq)
  {
    var st := LfuSpec.State(keyMap, NewestFirst(freqMap), minFreq);
    var b := freqMap[minFreq];
    var v := b[0];
    var nb := st.freqMap[minFreq];
    assert nb == Seqs.Reverse(b);
    Seqs.ReverseTail(b);
    Seqs.ReverseMembers(b);
    Seqs.RemoveAt(b, 0);
    Seqs.ReverseRemove(b, v);
    var mleft := Seqs.Remove(nb, v);
    assert nb[..|nb| - 1] == mleft;
    UnlinkMirror(freqMap, minFreq, v);
    var e := LfuSpec.Evict(st);
    assert e.keyMap == keyMap - {v};
    assert e.freqMap == (if mleft == [] then st.freqMap - {minFreq} else st.freqMap[minFreq := mleft]);
  }

  /** script.js:34-94: `keyMap` from each key to its value and frequency,
      `freqMap` from each frequency to the `Set` of its keys in insertion
      order, and `minFreq`. */
  class LFUCache {
    const capacity: int
    var keyMap: map<int, LfuSpec.Node>
    var freqMap: map<int, seq<int>>
    var minFreq: int

    /** The cache with every bucket read newest first. */
    function View(): LfuSpec.State
      reads this
    {
      LfuSpec.State(keyMap, NewestFirst(freqMap), minFreq)
    }

    /** A capacity below zero fails at the first `put` of a new key
        (script.js:69), so it is excluded. */
    ghost predicate Valid()
      reads this
    {
      capacity >= 0 && LfuSpec.Inv(View()) && LfuSpec.Fits(View(), capacity)
    }

    /** script.js:34-39. */
    constructor (cap: int)
      requires cap >= 0
      ensures Valid() && capacity == cap && View() == LfuSpec.Empty
    {
      capacity := cap;
      keyMap := map[];
      freqMap := map[];
      minFreq := 0;
      assert NewestFirst(map[]) == map[];
    }

    /** script.js:44-47: deletes `key` from the bucket of `freq`, drops the
        bucket if that empties it, and then moves `minFreq` past it if it was
        the minimum. */
    method Unlink(key: int, freq: int)
      requires freq in freqMap
      modifies this
      ensures keyMap == old(keyMap)
      ensures freqMap == Unlinked(old(freqMap), freq, key)
      ensures minFreq == NextMin(old(freqMap), freq, key, old(minFreq))
    {
      freqMap := freqMap[freq := Seqs.Remove(freqMap[freq], key)];
      if |freqMap[freq]| == 0 {
        freqMap := freqMap - {freq};
        if minFreq == freq {
          minFreq := minFreq + 1;
        }
      }
    }

    /** script.js:51-52 and script.js:76-77: adds `key` to the bucket of
        `freq`, creating the bucket if needed. */
    method Link(key: int, freq: int)
      modifies this
      ensures keyMap == old(keyMap) && minFreq == old(minFreq)
      ensures freqMap == Linked(old(freqMap), freq, key)
    {
      if freq !in freqMap {
        freqMap := freqMap[freq := []];
      }
      freqMap := freqMap[freq := JsCollections.SetAdd(freqMap[freq], key)];
    }

    /** script.js:42-53 once `freq` is read: moves `key` from the bucket of
        `freq` to that of `freq + 1`. */
    method Move(key: int, freq: int)
      requires key in keyMap && keyMap[key].freq == freq && freq in freqMap
      modifies this
      ensures keyMap == old(keyMap)[key := old(keyMap)[key].(freq := freq + 1)]
      ensures freqMap == Linked(Unlinked(old(freqMap), freq, key), freq + 1, key)
      ensures minFreq == NextMin(old(freqMap), freq, key, old(minFreq))
    {
      var node := keyMap[key];
      Unlink(key, freq);
      keyMap := keyMap[key := node.(freq := freq + 1)];
      Link(key, freq + 1);
    }

    /** script.js:41-53. */
    method UpdateFreq(key: int)
      requires Valid() && key in keyMap
      modifies this
      ensures Valid()
      ensures View() == LfuSpec.Touch(old(View()), key)
    {
      ghost var keyMap0, freqMap0, minFreq0 := keyMap, freqMap, minFreq;
      TouchLeaves(keyMap, freqMap, minFreq, capacity, key);
      var freq := keyMap[key].freq;
      Move(key, freq);
      MovedFields(keyMap0, freqMap0, minFreq0, key, freq, keyMap, freqMap, minFreq);
    }

    /** script.js:55-59. */
    method Get(key: int) returns (r: Option<int>)
      requires Valid()
      modifies this
      ensures Valid()
      ensures (r, View()) == LfuSpec.Get(old(View()), key)
    {
      if key !in keyMap {
        return None;
      }
      UpdateFreq(key);
      return Some(keyMap[key].value);
    }

    /** script.js:68-74: forgets the first key of the `minFreq` bucket. */
    method EvictOldest()
      requires Valid() && keyMap != map[]
      modifies this
      ensures View() == LfuSpec.Evict(old(View()))
    {
      EvictMirror(keyMap, freqMap, minFreq);
      var keyToEvict := freqMap[minFreq][0];
      freqMap := freqMap[minFreq := Seqs.Remove(freqMap[minFreq], keyToEvict)];
      if |freqMap[minFreq]| == 0 {
        freqMap := freqMap - {minFreq};
      }
      keyMap := keyMap - {keyToEvict};
    }

    /** script.js:76-79: a new key starts at frequency 1, at the end of that
        bucket, and `minFreq` becomes 1. */
    method AddNew(key: int, value: int)
      requires key !in LfuSpec.Bucket(freqMap, 1)
      modifies this
      ensures View() == LfuSpec.Insert(old(View()), key, value)
    {
      ghost var keyMap0, freqMap0 := keyMap, freqMap;
      LinkMirror(freqMap, 1, key);
      keyMap := keyMap[key := LfuSpec.Node(value, 1)];
      Link(key, 1);
      minFreq := 1;
      assert freqMap == Linked(freqMap0, 1, key);
    }

    /** script.js:61-81. */
    method Put(key: int, value: int)
      requires Valid()
      modifies this
      ensures Valid()
      ensures View() == LfuSpec.Put(old(View()), capacity, key, value)
    {
      ghost var st := View();
      if capacity == 0 {
        return;
      }
      if key in keyMap {
        keyMap := keyMap[key := keyMap[key].(value := value)];
        assert View() == LfuSpec.SetValue(st, key, value);
        assert keyMap.Keys == st.keyMap.Keys;
        UpdateFreq(key);
      } else {
        if |keyMap| >= capacity {
          LfuSpec.EvictCorrect(st);
          EvictOldest();
        }
        FreshKeyMirror(keyMap, freqMap, minFreq, key);
        AddNew(key, value);
        LfuSpec.PutKeepsInv(st, capacity, key, value);
      }
    }
  }
}
