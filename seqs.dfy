/** Sequences as ordered containers: removal of an element (std::list::erase,
    Set.prototype.delete) and reversal (the two sources keep opposite
    orientations). */
module Seqs {

  /** No element occurs twice. */
  predicate Distinct<T(==)>(s: seq<T>) {
    forall i, j :: 0 <= i < j < |s| ==> s[i] != s[j]
  }

  /** `s` with every occurrence of `x` removed; the rest keep their order. */
  function Remove(s: seq<int>, x: int): (r: seq<int>)
    ensures |r| <= |s|
    ensures x !in s ==> r == s
    ensures Distinct(s) ==> Distinct(r)
    ensures Distinct(s) && x in s ==> |r| == |s| - 1
    decreases |s|, 0
  {
    if s == [] then []
    else if s[0] == x then Remove(s[1..], x)
    else
      var rest := Remove(s[1..], x);
      var r := [s[0]] + rest;
      assert Distinct(s) ==> Distinct(r) by {
        if Distinct(s) {
          RemoveMembers(s[1..], x);
          assert s[0] !in s[1..];
          forall i, j | 0 <= i < j < |r| ensures r[i] != r[j] {
            if i == 0 {
              assert r[j] == rest[j - 1] && r[j] in rest;
            } else {
              assert r[i] == rest[i - 1] && r[j] == rest[j - 1];
            }
          }
        }
      }
      r
  }

  /** What `Remove` keeps: every element other than `x`, and nothing else. */
  lemma {:induction false} RemoveMembers(s: seq<int>, x: int)
    ensures forall y :: y in Remove(s, x) <==> y in s && y != x
    decreases |s|, 1
  {
    if s != [] {
      RemoveMembers(s[1..], x);
      assert s == [s[0]] + s[1..];
    }
  }

  /** Erasing the element at a position of a duplicate-free sequence removes
      exactly that element. */
  lemma {:induction false} RemoveAt(s: seq<int>, i: nat)
    requires Distinct(s) && i < |s|
    ensures s[..i] + s[i + 1..] == Remove(s, s[i])
  {
    if i > 0 {
      assert Distinct(s[1..]);
      RemoveAt(s[1..], i - 1);
      assert s[1..][..i - 1] + s[1..][i..] == s[1..i] + s[i + 1..];
      assert s[..i] + s[i + 1..] == [s[0]] + (s[1..i] + s[i + 1..]);
    } else {
      assert s[i] !in s[1..];
    }
  }

  /** Erasing a position past the front of a sequence keeps the front
      element ahead of the same erasure in the tail. */
  lemma EraseBehindFront<T>(s: seq<T>, i: nat)
    requires 0 < i < |s|
    ensures s[..i] + s[i + 1..] == [s[0]] + (s[1..][..i - 1] + s[1..][i..])
  {
    assert s[1..][..i - 1] == s[1..i] && s[1..][i..] == s[i + 1..];
    assert s[..i] == [s[0]] + s[1..i];
  }

  /** Removal distributes over concatenation. */
  lemma {:induction false} RemoveAppend(a: seq<int>, b: seq<int>, x: int)
    ensures Remove(a + b, x) == Remove(a, x) + Remove(b, x)
  {
    if a != [] {
      assert (a + b)[1..] == a[1..] + b;
      RemoveAppend(a[1..], b, x);
    } else {
      assert a + b == b;
    }
  }

  /** `s` back to front. */
  function Reverse<T>(s: seq<T>): (r: seq<T>)
    ensures |r| == |s|
    ensures forall i :: 0 <= i < |s| ==> r[i] == s[|s| - 1 - i]
  {
    if s == [] then [] else Reverse(s[1..]) + [s[0]]
  }

  lemma ReverseReverse<T>(s: seq<T>)
    ensures Reverse(Reverse(s)) == s
  {
  }

  lemma ReverseMembers<T>(s: seq<T>)
    ensures forall y :: y in Reverse(s) <==> y in s
    ensures Distinct(Reverse(s)) <==> Distinct(s)
  {
    var r := Reverse(s);
    forall y | y in s ensures y in r {
      var i :| 0 <= i < |s| && s[i] == y;
      assert r[|s| - 1 - i] == y;
    }
    if Distinct(s) {
      forall i, j | 0 <= i < j < |r| ensures r[i] != r[j] {
        assert r[i] == s[|s| - 1 - i] && r[j] == s[|s| - 1 - j];
      }
    }
    if Distinct(r) {
      forall i, j | 0 <= i < j < |s| ensures s[i] != s[j] {
        assert s[i] == r[|s| - 1 - i] && s[j] == r[|s| - 1 - j];
      }
    }
  }

  /** Removing an element commutes with reversal. */
  lemma {:induction false} ReverseRemove(s: seq<int>, x: int)
    ensures Reverse(Remove(s, x)) == Remove(Reverse(s), x)
  {
    if s != [] {
      ReverseRemove(s[1..], x);
      RemoveAppend(Reverse(s[1..]), [s[0]], x);
      if s[0] == x {
        assert Remove([s[0]], x) == [];
        assert Remove(Reverse(s[1..]), x) + [] == Remove(Reverse(s[1..]), x);
      } else {
        assert Remove([s[0]], x) == [s[0]];
        assert Reverse([s[0]] + Remove(s[1..], x)) == Reverse(Remove(s[1..], x)) + [s[0]] by {
          assert ([s[0]] + Remove(s[1..], x))[1..] == Remove(s[1..], x);
        }
      }
    }
  }

  /** Reversal swaps the two ends. */
  lemma ReverseEnds<T>(s: seq<T>, x: T)
    ensures Reverse([x] + s) == Reverse(s) + [x]
    ensures Reverse(s + [x]) == [x] + Reverse(s)
  {
    assert ([x] + s)[1..] == s;
    var a, b := Reverse(s + [x]), [x] + Reverse(s);
    assert |a| == |b|;
    forall i | 0 <= i < |a| ensures a[i] == b[i] {
      if i > 0 {
        assert a[i] == (s + [x])[|s| - i];
        assert b[i] == Reverse(s)[i - 1];
      }
    }
  }

  /** Dropping the first element drops the last one of the reversal. */
  lemma ReverseTail<T>(s: seq<T>)
    requires |s| > 0
    ensures Reverse(s[1..]) == Reverse(s)[..|s| - 1]
    ensures Reverse(s)[|s| - 1] == s[0]
  {
  }
}
