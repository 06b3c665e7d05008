/** The LFU cache as a value: `keyMap`, `freqMap` and `minFreq` of
    main.cpp:79-81. Each frequency bucket lists its keys most recently
    touched first (the orientation of the `std::list` buckets). */
module LfuSpec {
  import opened Wrappers
  import Seqs
  import CacheBase

  /** What `keyMap` stores for a key: its value and how often it was used. */
  datatype Node = Node(value: int, freq: int)

  datatype State = State(keyMap: map<int, Node>, freqMap: map<int, seq<int>>, minFreq: int)

  /** A fresh cache: `minFreq` starts at 0 (main.cpp:102). */
  const Empty: State := State(map[], map[], 0)

  /** Every key sits in the bucket of its frequency, which is at least 1;
      buckets are non-empty, hold each key once, and hold only keys of their
      own frequency. So each key is in exactly one bucket. */
  predicate Buckets(st: State) {
    && (forall k :: k in st.keyMap ==>
          st.keyMap[k].freq >= 1 && st.keyMap[k].freq in st.freqMap && k in st.freqMap[st.keyMap[k].freq])
    && (forall f :: f in st.freqMap ==>
          && st.freqMap[f] != []
          && Seqs.Distinct(st.freqMap[f])
          && forall k :: k in st.freqMap[f] ==> k in st.keyMap && st.keyMap[k].freq == f)
  }

  /** While a key is held, `minFreq` names a bucket and no key is used less. */
  predicate MinFreqOk(st: State) {
    st.keyMap != map[] ==>
      && st.minFreq in st.freqMap
      && forall k :: k in st.keyMap ==> st.minFreq <= st.keyMap[k].freq
  }

  predicate Inv(st: State) {
    Buckets(st) && MinFreqOk(st)
  }

  /** `updateFreq` (main.cpp:84-99): the key leaves bucket `f`, which is
      pruned when it empties, moving `minFreq` up if it was that bucket; the
      key's frequency becomes `f + 1` and it goes to the front of that bucket. */
  function Touch(st: State, key: int): State
    requires Inv(st) && key in st.keyMap
  {
    var f := st.keyMap[key].freq;
    var left := Seqs.Remove(st.freqMap[f], key);
    var pruned := if left == [] then st.freqMap - {f} else st.freqMap[f := left];
    var minFreq := if left == [] && st.minFreq == f then st.minFreq + 1 else st.minFreq;
    var above := if f + 1 in pruned then pruned[f + 1] else [];
    State(st.keyMap[key := Node(st.keyMap[key].value, f + 1)], pruned[f + 1 := [key] + above], minFreq)
  }

  /** `updateFreq` keeps the invariant. */
  lemma TouchKeepsInv(st: State, key: int)
    requires Inv(st) && key in st.keyMap
    ensures Inv(Touch(st, key))
  {
    var f := st.keyMap[key].freq;
    var old_f := st.freqMap[f];
    var left := Seqs.Remove(old_f, key);
    Seqs.RemoveMembers(old_f, key);
    var r := Touch(st, key);
    var above := if f + 1 in st.freqMap then st.freqMap[f + 1] else [];
    assert key !in above;
    assert r.freqMap[f + 1] == [key] + above;
    forall k | k in r.keyMap
      ensures r.keyMap[k].freq >= 1 && r.keyMap[k].freq in r.freqMap && k in r.freqMap[r.keyMap[k].freq]
    {
      var g := st.keyMap[k].freq;
      if k != key && g == f {
        assert k in left;
      }
    }
    forall g | g in r.freqMap
      ensures r.freqMap[g] != [] && Seqs.Distinct(r.freqMap[g])
      ensures forall k :: k in r.freqMap[g] ==> k in r.keyMap && r.keyMap[k].freq == g
    {
      if g == f + 1 {
        var b := r.freqMap[g];
        forall i, j | 0 <= i < j < |b| ensures b[i] != b[j] {
          if i > 0 { assert b[i] == above[i - 1] && b[j] == above[j - 1]; }
          else { assert b[j] in above; }
        }
      } else if g == f {
        assert r.freqMap[g] == left;
        forall k | k in left ensures k in r.keyMap && r.keyMap[k].freq == g {
          var i :| 0 <= i < |left| && left[i] == k;
        }
      } else {
        assert r.freqMap[g] == st.freqMap[g];
        assert key !in st.freqMap[g];
      }
    }
    if left == [] && st.minFreq == f {
      forall k | k in r.keyMap ensures r.minFreq <= r.keyMap[k].freq {
        assert k != key && st.keyMap[k].freq == f ==> k in left;
      }
    } else if st.minFreq == f {
      assert r.freqMap[f] == left;
    }
  }

  /** The keys at frequency `f`, most recently touched first; none when the
      bucket is absent. */
  function Bucket(freqMap: map<int, seq<int>>, f: int): seq<int> {
    if f in freqMap then freqMap[f] else []
  }

  /** What `updateFreq` does, in terms of the cache's contents: the same
      keys and values, one more use of `key`, which becomes the most recent
      key of its new frequency; apart from `key` every bucket lists the same
      keys in the same order; `minFreq` moves only when `key` leaves the
      minimum bucket empty, and then by one. */
  lemma TouchCorrect(st: State, key: int)
    requires Inv(st) && key in st.keyMap
    ensures var r, f := Touch(st, key), st.keyMap[key].freq;
      && r.keyMap.Keys == st.keyMap.Keys
      && r.keyMap[key] == Node(st.keyMap[key].value, f + 1)
      && (forall k :: k in st.keyMap && k != key ==> r.keyMap[k] == st.keyMap[k])
      && Bucket(r.freqMap, f + 1)[0] == key
      && (forall g :: Seqs.Remove(Bucket(r.freqMap, g), key) == Seqs.Remove(Bucket(st.freqMap, g), key))
      && (r.minFreq == st.minFreq || (r.minFreq == f + 1 && st.minFreq == f && Bucket(r.freqMap, f) == []))
  {
    var r, f := Touch(st, key), st.keyMap[key].freq;
    var left := Seqs.Remove(st.freqMap[f], key);
    Seqs.RemoveMembers(st.freqMap[f], key);
    var above := Bucket(st.freqMap, f + 1);
    assert key !in above;
    forall g ensures Seqs.Remove(Bucket(r.freqMap, g), key) == Seqs.Remove(Bucket(st.freqMap, g), key) {
      if g == f + 1 {
        assert Bucket(r.freqMap, g) == [key] + above;
        Seqs.RemoveAppend([key], above, key);
        assert Seqs.Remove([key], key) == [];
      } else if g == f {
        assert Bucket(r.freqMap, g) == left;
        assert key !in left;
      }
    }
  }

  /** The value of a held key is replaced (main.cpp:120). */
  function SetValue(st: State, key: int, value: int): (r: State)
    requires Inv(st) && key in st.keyMap
    ensures Inv(r) && r.keyMap.Keys == st.keyMap.Keys
    ensures r.keyMap[key] == Node(value, st.keyMap[key].freq)
    ensures forall k :: k in st.keyMap && k != key ==> r.keyMap[k] == st.keyMap[k]
    ensures r.freqMap == st.freqMap && r.minFreq == st.minFreq
  {
    st.(keyMap := st.keyMap[key := st.keyMap[key].(value := value)])
  }

  /** `get` (main.cpp:104-111): a miss changes nothing; a hit counts as a use. */
  function Get(st: State, key: int): (Option<int>, State)
    requires Inv(st)
  {
    if key !in st.keyMap then (None, st)
    else (Some(st.keyMap[key].value), Touch(st, key))
  }

  /** The key an eviction removes: the back of the `minFreq` bucket
      (main.cpp:127). */
  function Victim(st: State): int
    requires Inv(st) && st.keyMap != map[]
  {
    var b := st.freqMap[st.minFreq];
    b[|b| - 1]
  }

  /** main.cpp:127-132: the victim leaves its bucket, the bucket is pruned
      if it empties, and the key is forgotten. `minFreq` is left alone. */
  function Evict(st: State): State
    requires Inv(st) && st.keyMap != map[]
  {
    var b := st.freqMap[st.minFreq];
    var left := b[..|b| - 1];
    State(st.keyMap - {b[|b| - 1]},
          if left == [] then st.freqMap - {st.minFreq} else st.freqMap[st.minFreq := left],
          st.minFreq)
  }

  /** main.cpp:135-138: a new key starts at frequency 1, in front of that
      bucket, and `minFreq` becomes 1. */
  function Insert(st: State, key: int, value: int): State {
    State(st.keyMap[key := Node(value, 1)], st.freqMap[1 := [key] + Bucket(st.freqMap, 1)], 1)
  }

  /** `put` (main.cpp:113-140). */
  function Put(st: State, capacity: int, key: int, value: int): State
    requires Inv(st)
  {
    if capacity == 0 then st
    else if key in st.keyMap then Touch(SetValue(st, key, value), key)
    else Insert(if CacheBase.SizeReached(|st.keyMap|, capacity) then Evict(st) else st, key, value)
  }

  /** The victim is held, is used no more often than any other key, and of
      the keys used that rarely it was touched longest ago. */
  lemma VictimLeastFrequent(st: State)
    requires Inv(st) && st.keyMap != map[]
    ensures var v := Victim(st);
      && v in st.keyMap
      && (forall k :: k in st.keyMap ==> st.keyMap[v].freq <= st.keyMap[k].freq)
      && Bucket(st.freqMap, st.keyMap[v].freq)[|Bucket(st.freqMap, st.keyMap[v].freq)| - 1] == v
  {
    var b := st.freqMap[st.minFreq];
    assert b[|b| - 1] in b;
  }

  /** The frequency law: a key used more often than some other held key is
      never the one evicted. */
  lemma FrequentKeySurvives(st: State, hot: int, cold: int)
    requires Inv(st) && hot in st.keyMap && cold in st.keyMap
    requires st.keyMap[cold].freq < st.keyMap[hot].freq
    ensures Victim(st) != hot
  {
    VictimLeastFrequent(st);
  }

  /** Eviction keeps every bucket consistent and forgets exactly the victim;
      the rest of the `minFreq` bucket and every other bucket keep their
      order. */
  lemma EvictCorrect(st: State)
    requires Inv(st) && st.keyMap != map[]
    ensures var r, b := Evict(st), st.freqMap[st.minFreq];
      && Buckets(r)
      && r.keyMap.Keys == st.keyMap.Keys - {Victim(st)}
      && (forall k :: k in r.keyMap ==> r.keyMap[k] == st.keyMap[k])
      && |r.keyMap| == |st.keyMap| - 1
      && Bucket(r.freqMap, st.minFreq) == b[..|b| - 1]
      && (forall g :: g != st.minFreq ==> Bucket(r.freqMap, g) == Bucket(st.freqMap, g))
  {
    var r, b := Evict(st), st.freqMap[st.minFreq];
    var v := b[|b| - 1];
    var left := b[..|b| - 1];
    assert v in b;
    forall k | k in r.keyMap
      ensures r.keyMap[k].freq in r.freqMap && k in r.freqMap[r.keyMap[k].freq]
    {
      if st.keyMap[k].freq == st.minFreq {
        var i :| 0 <= i < |b| && b[i] == k;
        assert i < |b| - 1;
        assert k in left;
      }
    }
    forall g | g in r.freqMap
      ensures Seqs.Distinct(r.freqMap[g])
      ensures forall k :: k in r.freqMap[g] ==> k in r.keyMap && r.keyMap[k].freq == g
    {
      if g == st.minFreq {
        forall k | k in left ensures k in r.keyMap {
          var i :| 0 <= i < |left| && left[i] == k;
          assert b[i] == k;
        }
      } else {
        assert v !in st.freqMap[g];
      }
    }
  }

  /** Inserting a key that is not held restores the whole invariant. */
  lemma InsertKeepsInv(st: State, key: int, value: int)
    requires Buckets(st) && key !in st.keyMap
    ensures Inv(Insert(st, key, value))
    ensures Insert(st, key, value).keyMap.Keys == st.keyMap.Keys + {key}
  {
    var r, ones := Insert(st, key, value), Bucket(st.freqMap, 1);
    assert key !in ones;
    forall g | g in r.freqMap
      ensures r.freqMap[g] != [] && Seqs.Distinct(r.freqMap[g])
      ensures forall k :: k in r.freqMap[g] ==> k in r.keyMap && r.keyMap[k].freq == g
    {
      if g == 1 {
        var b := r.freqMap[g];
        assert b == [key] + ones;
        forall i, j | 0 <= i < j < |b| ensures b[i] != b[j] {
          if i > 0 { assert b[i] == ones[i - 1] && b[j] == ones[j - 1]; }
          else { assert b[j] in ones; }
        }
      } else {
        assert key !in st.freqMap[g];
      }
    }
  }

  /** A positive capacity bounds the number of keys; a capacity of 0 keeps
      the cache empty; a negative one is never reached. */
  predicate Fits(st: State, capacity: int) {
    capacity >= 0 ==> |st.keyMap| <= capacity
  }

  /** Whether `put` of `key` has to evict first. */
  predicate Evicts(st: State, capacity: int, key: int) {
    capacity != 0 && key !in st.keyMap && CacheBase.SizeReached(|st.keyMap|, capacity)
  }

  /** Bucket `g` as `put` of a new `key` finds it after the eviction, if
      there is one: the `minFreq` bucket without its back key. */
  function Kept(st: State, capacity: int, key: int, g: int): seq<int>
    requires Inv(st)
  {
    if Evicts(st, capacity, key) && g == st.minFreq then
      var b := st.freqMap[st.minFreq];
      b[..|b| - 1]
    else Bucket(st.freqMap, g)
  }

  /** `get`: a miss is reported and changes nothing; a hit returns the
      stored value, leaves it as it is and counts one more use of the key;
      no other key changes. */
  lemma GetCorrect(st: State, key: int)
    requires Inv(st)
    ensures var (r, next) := Get(st, key);
      && Inv(next)
      && (r.Some? <==> key in st.keyMap)
      && (r.None? ==> next == st)
      && (r.Some? ==> r.value == st.keyMap[key].value
                      && next.keyMap[key] == Node(r.value, st.keyMap[key].freq + 1))
      && next.keyMap.Keys == st.keyMap.Keys
      && (forall k :: k in st.keyMap && k != key ==> next.keyMap[k] == st.keyMap[k])
  {
    if key in st.keyMap {
      TouchKeepsInv(st, key);
      TouchCorrect(st, key);
    }
  }

  /** `put` keeps the invariant and the capacity bound. */
  lemma PutKeepsInv(st: State, capacity: int, key: int, value: int)
    requires Inv(st) && Fits(st, capacity)
    ensures Inv(Put(st, capacity, key, value)) && Fits(Put(st, capacity, key, value), capacity)
  {
    if capacity != 0 {
      if key in st.keyMap {
        var st' := SetValue(st, key, value);
        TouchKeepsInv(st', key);
        TouchCorrect(st', key);
      } else if CacheBase.SizeReached(|st.keyMap|, capacity) {
        EvictCorrect(st);
        InsertKeepsInv(Evict(st), key, value);
      } else {
        InsertKeepsInv(st, key, value);
      }
    }
  }

  /** `put`: with capacity 0 nothing happens. A held key gets the new value
      and one more use, and the size stays. A new key enters with frequency
      1 in front of bucket 1 and `minFreq` becomes 1, after the victim is
      evicted when the cache is full. No other key changes, and apart from
      the key put and the victim every bucket keeps its order. */
  lemma PutCorrect(st: State, capacity: int, key: int, value: int)
    requires Inv(st)
    ensures var r := Put(st, capacity, key, value);
      && (capacity == 0 ==> r == st)
      && (capacity != 0 && key in st.keyMap ==>
            var f := st.keyMap[key].freq;
            && r.keyMap.Keys == st.keyMap.Keys
            && r.keyMap[key] == Node(value, f + 1)
            && Bucket(r.freqMap, f + 1)[0] == key
            && (forall g :: Seqs.Remove(Bucket(r.freqMap, g), key) == Seqs.Remove(Bucket(st.freqMap, g), key))
            && (r.minFreq == st.minFreq || (r.minFreq == f + 1 && st.minFreq == f && Bucket(r.freqMap, f) == [])))
      && (capacity != 0 && key !in st.keyMap ==>
            && r.keyMap[key] == Node(value, 1)
            && r.minFreq == 1
            && Bucket(r.freqMap, 1) == [key] + Kept(st, capacity, key, 1)
            && (forall g :: g != 1 ==> Bucket(r.freqMap, g) == Kept(st, capacity, key, g))
            && r.keyMap.Keys == st.keyMap.Keys - (if Evicts(st, capacity, key) then {Victim(st)} else {}) + {key})
      && (forall k :: k in r.keyMap && k != key ==> k in st.keyMap && r.keyMap[k] == st.keyMap[k])
  {
    if capacity != 0 {
      if key in st.keyMap {
        PutHit(st, capacity, key, value);
      } else {
        PutNew(st, capacity, key, value);
      }
    }
  }

  /** `put` of a held key: the value is replaced and one more use counted;
      the buckets and `minFreq` move as `updateFreq` moves them. */
  lemma PutHit(st: State, capacity: int, key: int, value: int)
    requires Inv(st) && capacity != 0 && key in st.keyMap
    ensures var r, f := Put(st, capacity, key, value), st.keyMap[key].freq;
      && r.keyMap.Keys == st.keyMap.Keys
      && r.keyMap[key] == Node(value, f + 1)
      && Bucket(r.freqMap, f + 1)[0] == key
      && (forall g :: Seqs.Remove(Bucket(r.freqMap, g), key) == Seqs.Remove(Bucket(st.freqMap, g), key))
      && (r.minFreq == st.minFreq || (r.minFreq == f + 1 && st.minFreq == f && Bucket(r.freqMap, f) == []))
      && (forall k :: k in r.keyMap && k != key ==> k in st.keyMap && r.keyMap[k] == st.keyMap[k])
  {
    var st' := SetValue(st, key, value);
    assert Put(st, capacity, key, value) == Touch(st', key);
    TouchCorrect(st', key);
  }

  /** `put` of a new key: it enters at frequency 1, in front of that bucket,
      after the victim leaves if the cache is full; the other buckets keep
      their order. */
  lemma PutNew(st: State, capacity: int, key: int, value: int)
    requires Inv(st) && capacity != 0 && key !in st.keyMap
    ensures var r := Put(st, capacity, key, value);
      && r.keyMap[key] == Node(value, 1)
      && r.minFreq == 1
      && Bucket(r.freqMap, 1) == [key] + Kept(st, capacity, key, 1)
      && (forall g :: g != 1 ==> Bucket(r.freqMap, g) == Kept(st, capacity, key, g))
      && r.keyMap.Keys == st.keyMap.Keys - (if Evicts(st, capacity, key) then {Victim(st)} else {}) + {key}
      && (forall k :: k in r.keyMap && k != key ==> k in st.keyMap && r.keyMap[k] == st.keyMap[k])
  {
    var mid := if Evicts(st, capacity, key) then Evict(st) else st;
    if Evicts(st, capacity, key) {
      EvictCorrect(st);
    }
    assert mid.keyMap.Keys == st.keyMap.Keys - (if Evicts(st, capacity, key) then {Victim(st)} else {});
    assert forall k :: k in mid.keyMap ==> k in st.keyMap && mid.keyMap[k] == st.keyMap[k];
    assert forall g :: Bucket(mid.freqMap, g) == Kept(st, capacity, key, g);
    assert Put(st, capacity, key, value) == Insert(mid, key, value);
    InsertCorrect(mid, key, value);
  }

  /** A new key enters at frequency 1, in front of that bucket; no other
      key changes, and every bucket keeps its order. */
  lemma InsertCorrect(st: State, key: int, value: int)
    ensures var r := Insert(st, key, value);
      && r.keyMap[key] == Node(value, 1)
      && r.minFreq == 1
      && Bucket(r.freqMap, 1) == [key] + Bucket(st.freqMap, 1)
      && (forall g :: g != 1 ==> Bucket(r.freqMap, g) == Bucket(st.freqMap, g))
      && r.keyMap.Keys == st.keyMap.Keys + {key}
      && (forall k :: k in st.keyMap && k != key ==> r.keyMap[k] == st.keyMap[k])
  {
  }

  /** The worked example for a capacity of 2: put(1,10); put(2,20);
      get(1); get(1); put(3,30) evicts key 2, used once against key 1's
      three uses; afterwards get(2) misses and get(1) still finds 10. */
  lemma Example()
    ensures Inv(Empty) && Inv(Put(Empty, 2, 1, 10))
    ensures var s2 := Put(Put(Empty, 2, 1, 10), 2, 2, 20);
      Inv(s2) &&
      var (r3, s3) := Get(s2, 1);
      Inv(s3) &&
      var (r4, s4) := Get(s3, 1);
      Inv(s4) && 1 in s4.keyMap &&
      var s5 := Put(s4, 2, 3, 30);
      Inv(s5)
      && r3 == Some(10) && r4 == Some(10)
      && Victim(s4) == 2
      && Get(s5, 2).0 == None
      && Get(s5, 1).0 == Some(10)
  {
    ExampleFill();
    var s2 := Put(Put(Empty, 2, 1, 10), 2, 2, 20);
    PutKeepsInv(Put(Empty, 2, 1, 10), 2, 2, 20);
    ExampleFirstGet();
    var s3 := Get(s2, 1).1;
    GetCorrect(s2, 1);
    ExampleSecondGet();
    var s4 := Get(s3, 1).1;
    GetCorrect(s3, 1);
    ExampleEvict();
    PutKeepsInv(s4, 2, 3, 30);
  }

  lemma ExampleFill()
    ensures Inv(Put(Empty, 2, 1, 10))
    ensures Put(Put(Empty, 2, 1, 10), 2, 2, 20)
            == State(map[1 := Node(10, 1), 2 := Node(20, 1)], map[1 := [2, 1]], 1)
  {
    assert Inv(Empty);
    PutKeepsInv(Empty, 2, 1, 10);
    assert [1] + [] == [1];
    var s1 := Put(Empty, 2, 1, 10);
    assert s1 == State(map[1 := Node(10, 1)], map[1 := [1]], 1);
    assert |s1.keyMap| == 1;
    assert [2] + [1] == [2, 1];
  }

  lemma ExampleFirstGet()
    requires Inv(State(map[1 := Node(10, 1), 2 := Node(20, 1)], map[1 := [2, 1]], 1))
    ensures Get(State(map[1 := Node(10, 1), 2 := Node(20, 1)], map[1 := [2, 1]], 1), 1)
            == (Some(10), State(map[1 := Node(10, 2), 2 := Node(20, 1)], map[1 := [2], 2 := [1]], 1))
  {
    var s2 := State(map[1 := Node(10, 1), 2 := Node(20, 1)], map[1 := [2, 1]], 1);
    assert Seqs.Remove([2, 1], 1) == [2] by {
      assert [2, 1][1..] == [1] && [1][1..] == [];
    }
    assert [1] + [] == [1];
    var t := Touch(s2, 1);
    assert t.keyMap == map[1 := Node(10, 2), 2 := Node(20, 1)];
    assert 2 !in map[1 := [2]];
    assert t.freqMap == map[1 := [2], 2 := [1]];
  }

  lemma ExampleSecondGet()
    requires Inv(State(map[1 := Node(10, 2), 2 := Node(20, 1)], map[1 := [2], 2 := [1]], 1))
    ensures Get(State(map[1 := Node(10, 2), 2 := Node(20, 1)], map[1 := [2], 2 := [1]], 1), 1)
            == (Some(10), State(map[1 := Node(10, 3), 2 := Node(20, 1)], map[1 := [2], 3 := [1]], 1))
  {
    var s3 := State(map[1 := Node(10, 2), 2 := Node(20, 1)], map[1 := [2], 2 := [1]], 1);
    assert Seqs.Remove([1], 1) == [] by {
      assert [1][1..] == [];
    }
    assert [1] + [] == [1];
    var t := Touch(s3, 1);
    assert t.keyMap == map[1 := Node(10, 3), 2 := Node(20, 1)];
    assert 3 !in map[1 := [2]];
    assert t.freqMap == map[1 := [2], 3 := [1]];
  }

  lemma ExampleEvict()
    requires Inv(State(map[1 := Node(10, 3), 2 := Node(20, 1)], map[1 := [2], 3 := [1]], 1))
    ensures var s4 := State(map[1 := Node(10, 3), 2 := Node(20, 1)], map[1 := [2], 3 := [1]], 1);
      && 1 in s4.keyMap
      && Victim(s4) == 2
      && Put(s4, 2, 3, 30).keyMap == map[1 := Node(10, 3), 3 := Node(30, 1)]
  {
    var s4 := State(map[1 := Node(10, 3), 2 := Node(20, 1)], map[1 := [2], 3 := [1]], 1);
    assert |s4.keyMap| == 2 by {
      assert s4.keyMap.Keys == {1, 2};
    }
    assert Evict(s4).keyMap == map[1 := Node(10, 3)];
  }
}
