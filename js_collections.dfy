/** The JavaScript `Map` and `Set` the browser caches of UI/script.js are
    built on, as their contents in insertion order (oldest first). A `Map`
    of numbers to numbers is a sequence of `LruSpec.Entry`: `delete` is
    `LruSpec.Drop` and `get` is `LruSpec.Lookup`. A `Set` of numbers is a
    duplicate-free sequence: `delete` is `Seqs.Remove`. */
module JsCollections {
  import opened Wrappers
  import Seqs
  import LruSpec

  /** `Map.prototype.set`: a new key goes to the end of the insertion order,
      an existing key keeps its place and takes the new value. */
  function MapSet(m: seq<LruSpec.Entry>, key: int, value: int): (r: seq<LruSpec.Entry>)
    ensures LruSpec.Keys(r) == LruSpec.Keys(m) + {key}
    ensures key !in LruSpec.Keys(m) ==> r == m + [LruSpec.Entry(key, value)]
    ensures key in LruSpec.Keys(m) ==> |r| == |m|
    ensures LruSpec.DistinctKeys(m) ==> LruSpec.DistinctKeys(r)
  {
    if m == [] then [LruSpec.Entry(key, value)]
    else
      assert m == [m[0]] + m[1..];
      LruSpec.KeysCons(m[0], m[1..]);
      if m[0].key == key then
        LruSpec.KeysCons(LruSpec.Entry(key, value), m[1..]);
        [LruSpec.Entry(key, value)] + m[1..]
      else
        var rest := MapSet(m[1..], key, value);
        LruSpec.KeysCons(m[0], rest);
        assert key !in LruSpec.Keys(m) ==> [m[0]] + rest == m + [LruSpec.Entry(key, value)];
        [m[0]] + rest
  }

  /** `set` of a key the map holds rewrites that entry where it stands:
      every other entry, and the insertion order, stay as they were. */
  lemma {:induction false} MapSetInPlace(m: seq<LruSpec.Entry>, key: int, value: int)
    requires LruSpec.DistinctKeys(m) && key in LruSpec.Keys(m)
    ensures |MapSet(m, key, value)| == |m|
    ensures forall i :: 0 <= i < |m| ==>
      MapSet(m, key, value)[i] == if m[i].key == key then LruSpec.Entry(key, value) else m[i]
  {
    var r := MapSet(m, key, value);
    assert m == [m[0]] + m[1..];
    LruSpec.KeysCons(m[0], m[1..]);
    if m[0].key == key {
      forall i | 0 < i < |m| ensures r[i] == m[i] && m[i].key != key {
        assert m[0].key != m[i].key;
      }
    } else {
      var t := m[1..];
      assert LruSpec.DistinctKeys(t) by {
        forall i, j | 0 <= i < j < |t| ensures t[i].key != t[j].key {
          assert t[i] == m[i + 1] && t[j] == m[j + 1];
        }
      }
      MapSetInPlace(t, key, value);
      forall i | 0 < i < |m|
        ensures r[i] == if m[i].key == key then LruSpec.Entry(key, value) else m[i]
      {
        assert r[i] == MapSet(t, key, value)[i - 1] && t[i - 1] == m[i];
      }
    }
  }

  /** After `set`, `get` of that key returns the new value and every other
      key's value is unchanged. */
  lemma {:induction false} MapSetLookup(m: seq<LruSpec.Entry>, key: int, value: int, other: int)
    ensures LruSpec.Lookup(MapSet(m, key, value), other) ==
      if other == key then Some(value) else LruSpec.Lookup(m, other)
  {
    if m != [] {
      assert m == [m[0]] + m[1..];
      LruSpec.LookupFront(m[0], m[1..], other);
      if m[0].key == key {
        LruSpec.LookupFront(LruSpec.Entry(key, value), m[1..], other);
      } else {
        MapSetLookup(m[1..], key, value, other);
        LruSpec.LookupFront(m[0], MapSet(m[1..], key, value), other);
      }
    }
  }

  /** `m.keys().next().value`: the oldest key, or nothing for an empty map. */
  function FirstKey(m: seq<LruSpec.Entry>): Option<int> {
    if m == [] then None else Some(m[0].key)
  }

  /** Deleting the oldest key of a map drops its first entry. */
  lemma DropFirst(m: seq<LruSpec.Entry>)
    requires LruSpec.DistinctKeys(m) && m != []
    ensures LruSpec.Drop(m, m[0].key) == m[1..]
  {
    LruSpec.DropAt(m, 0);
  }

  /** Reading a map newest first: the same keys, no key twice, and each key
      with the same value. */
  lemma ReverseLookup(m: seq<LruSpec.Entry>, key: int)
    requires LruSpec.DistinctKeys(m)
    ensures LruSpec.Keys(Seqs.Reverse(m)) == LruSpec.Keys(m)
    ensures LruSpec.DistinctKeys(Seqs.Reverse(m))
    ensures LruSpec.Lookup(Seqs.Reverse(m), key) == LruSpec.Lookup(m, key)
  {
    var r := Seqs.Reverse(m);
    LruSpec.KeysReverse(m);
    forall i, j | 0 <= i < j < |r| ensures r[i].key != r[j].key {
      assert r[i] == m[|m| - 1 - i] && r[j] == m[|m| - 1 - j];
    }
    if key in LruSpec.Keys(m) {
      var i :| 0 <= i < |m| && m[i].key == key;
      LruSpec.DropAt(m, i);
      assert r[|m| - 1 - i] == m[i];
      LruSpec.DropAt(r, |m| - 1 - i);
    }
  }

  /** Deleting a key from two maps laid end to end. */
  lemma {:induction false} DropAppend(a: seq<LruSpec.Entry>, b: seq<LruSpec.Entry>, key: int)
    ensures LruSpec.Drop(a + b, key) == LruSpec.Drop(a, key) + LruSpec.Drop(b, key)
  {
    if a == [] {
      assert a + b == b;
    } else {
      assert (a + b)[0] == a[0] && (a + b)[1..] == a[1..] + b;
      DropAppend(a[1..], b, key);
    }
  }

  /** Deleting a key commutes with reading the map newest first. */
  lemma {:induction false} ReverseDrop(m: seq<LruSpec.Entry>, key: int)
    ensures Seqs.Reverse(LruSpec.Drop(m, key)) == LruSpec.Drop(Seqs.Reverse(m), key)
  {
    if m != [] {
      ReverseDrop(m[1..], key);
      DropAppend(Seqs.Reverse(m[1..]), [m[0]], key);
      assert LruSpec.Drop([m[0]], key) == if m[0].key == key then [] else [m[0]] by {
        assert [m[0]][1..] == [];
      }
      if m[0].key != key {
        Seqs.ReverseEnds(LruSpec.Drop(m[1..], key), m[0]);
      } else {
        assert LruSpec.Drop(Seqs.Reverse(m[1..]), key) + [] == LruSpec.Drop(Seqs.Reverse(m[1..]), key);
      }
    }
  }

  /** `Set.prototype.add`: a new element goes to the end of the insertion
      order; adding an element already there changes nothing. */
  function SetAdd(s: seq<int>, x: int): (r: seq<int>)
    ensures forall y :: y in r <==> y in s || y == x
    ensures Seqs.Distinct(s) ==> Seqs.Distinct(r)
    ensures x !in s ==> |r| == |s| + 1 && r[..|s|] == s && r[|s|] == x
    ensures x in s ==> r == s
  {
    if x in s then s else s + [x]
  }
}
