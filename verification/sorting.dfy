/** Python's `sorted(s, key=key)` for string keys: a stable sort, written
    as an insertion sort. */
module Sorting {
  import opened Text
  import opened Seqs

  predicate SortedBy<T>(s: seq<T>, key: T -> string) {
    forall i, j :: 0 <= i < j < |s| ==> LexLe(key(s[i]), key(s[j]))
  }

  /** The elements of `s` whose key is `k`, in their order in `s`. */
  function WithKey<T>(s: seq<T>, key: T -> string, k: string): seq<T> {
    if s == [] then [] else (if key(s[0]) == k then [s[0]] else []) + WithKey(s[1..], key, k)
  }

  /** Puts `x` in front of the first element whose key is not below its own. */
  function Insert<T>(x: T, t: seq<T>, key: T -> string): (r: seq<T>)
    ensures multiset(r) == multiset([x] + t)
  {
    if t == [] || LexLe(key(x), key(t[0])) then [x] + t
    else
      assert t == [t[0]] + t[1..];
      [t[0]] + Insert(x, t[1..], key)
  }

  /** `sorted(s, key=key)` */
  function SortBy<T>(s: seq<T>, key: T -> string): (r: seq<T>)
    ensures multiset(r) == multiset(s)
  {
    if s == [] then []
    else
      assert s == [s[0]] + s[1..];
      Insert(s[0], SortBy(s[1..], key), key)
  }

  /** Two elements whose keys are out of order are swapped. */
  lemma SortOfTwo<T>(y: T, z: T, key: T -> string)
    requires !LexLe(key(y), key(z))
    ensures SortBy([y, z], key) == [z, y]
  {
    assert [y, z][1..] == [z];
    assert SortBy([z], key) == [z];
  }

  /** An element whose key is below every key of a sorted list can go in
      front of it. */
  lemma PrependSorted<T>(x: T, t: seq<T>, key: T -> string)
    requires SortedBy(t, key)
    requires forall e :: e in t ==> LexLe(key(x), key(e))
    ensures SortedBy([x] + t, key)
  {
    var r := [x] + t;
    forall i, j | 0 <= i < j < |r| ensures LexLe(key(r[i]), key(r[j])) {
      if i > 0 {
        assert r[i] == t[i - 1] && r[j] == t[j - 1];
      } else {
        assert r[j] == t[j - 1];
        assert t[j - 1] in t;
      }
    }
  }

  lemma {:induction false} InsertSorted<T>(x: T, t: seq<T>, key: T -> string)
    requires SortedBy(t, key)
    ensures SortedBy(Insert(x, t, key), key)
  {
    var kx := key(x);
    if t == [] {
      assert Insert(x, t, key) == [x];
    } else if LexLe(kx, key(t[0])) {
      forall e | e in t ensures LexLe(kx, key(e)) {
        var j :| 0 <= j < |t| && t[j] == e;
        if j > 0 { LexLeTransitive(kx, key(t[0]), key(t[j])); }
      }
      PrependSorted(x, t, key);
    } else {
      LexLeTotal(kx, key(t[0]));
      var t' := t[1..];
      assert SortedBy(t', key) by {
        forall i, j | 0 <= i < j < |t'| ensures LexLe(key(t'[i]), key(t'[j])) {
          assert t'[i] == t[i + 1] && t'[j] == t[j + 1];
        }
      }
      InsertSorted(x, t', key);
      var rest := Insert(x, t', key);
      forall e | e in rest ensures LexLe(key(t[0]), key(e)) {
        assert e in multiset([x] + t');
        if e != x {
          assert e in t';
          var j :| 0 <= j < |t'| && t'[j] == e;
          assert t[j + 1] == e;
        }
      }
      PrependSorted(t[0], rest, key);
    }
  }

  /** The result is in nondecreasing order of the keys. */
  lemma {:induction false} SortIsSorted<T>(s: seq<T>, key: T -> string)
    ensures SortedBy(SortBy(s, key), key)
  {
    if s != [] {
      SortIsSorted(s[1..], key);
      InsertSorted(s[0], SortBy(s[1..], key), key);
    }
  }

  lemma {:induction false} InsertKeepsKeyOrder<T>(x: T, t: seq<T>, key: T -> string, k: string)
    ensures WithKey(Insert(x, t, key), key, k) == WithKey([x] + t, key, k)
  {
    if t != [] && !LexLe(key(x), key(t[0])) {
      LexLeReflexive(key(x));
      InsertKeepsKeyOrder(x, t[1..], key, k);
      var r := [t[0]] + Insert(x, t[1..], key);
      assert r[1..] == Insert(x, t[1..], key);
      assert ([x] + t[1..])[1..] == t[1..];
      assert ([x] + t)[1..] == t;
    }
  }

  /** The sort is stable: elements with equal keys keep their order. */
  lemma {:induction false} SortIsStable<T>(s: seq<T>, key: T -> string, k: string)
    ensures WithKey(SortBy(s, key), key, k) == WithKey(s, key, k)
  {
    if s != [] {
      SortIsStable(s[1..], key, k);
      InsertKeepsKeyOrder(s[0], SortBy(s[1..], key), key, k);
      assert ([s[0]] + SortBy(s[1..], key))[1..] == SortBy(s[1..], key);
    }
  }

  /** Sorting the elements that pass `p` and appending the others in their
      order gives a permutation whose first part is exactly the sorted
      passing elements and whose second part is exactly the others. */
  lemma {:induction false} SortedPartition<T(!new)>(s: seq<T>, p: T -> bool, key: T -> string)
    ensures
      var pinned := Filter(s, p);
      var r := SortBy(pinned, key) + Reject(s, p);
      var n := |pinned|;
      && |r| == |s| && multiset(r) == multiset(s)
      && (forall i :: 0 <= i < n ==> p(r[i]))
      && (forall i :: n <= i < |r| ==> !p(r[i]))
      && r[..n] == SortBy(pinned, key) && r[n..] == Reject(s, p)
      && SortedBy(r[..n], key)
      && multiset(r[..n]) == multiset(pinned)
      && (forall k :: WithKey(r[..n], key, k) == WithKey(pinned, key, k))
  {
    var pinned := Filter(s, p);
    var sorted := SortBy(pinned, key);
    var rest := Reject(s, p);
    var r := sorted + rest;
    var n := |pinned|;
    SortIsSorted(pinned, key);
    PartitionMultiset(s, p);
    PartitionLength(s, p);
    SortKeepsPassing(pinned, p, key);
    assert r[..n] == sorted && r[n..] == rest;
    forall k ensures WithKey(sorted, key, k) == WithKey(pinned, key, k) {
      SortIsStable(pinned, key, k);
    }
    forall i | n <= i < |r| ensures !p(r[i]) {
      assert r[i] == rest[i - n];
      assert rest[i - n] in rest;
    }
  }

  /** Sorting elements that all pass `p` gives as many elements, all of
      which pass `p`. */
  lemma SortKeepsPassing<T(!new)>(pinned: seq<T>, p: T -> bool, key: T -> string)
    requires forall x :: x in pinned ==> p(x)
    ensures |SortBy(pinned, key)| == |pinned|
    ensures forall i :: 0 <= i < |pinned| ==> p(SortBy(pinned, key)[i])
  {
    var sorted := SortBy(pinned, key);
    assert |multiset(sorted)| == |multiset(pinned)|;
    forall i | 0 <= i < |pinned| ensures p(sorted[i]) {
      assert sorted[i] in multiset(pinned);
    }
  }
}
