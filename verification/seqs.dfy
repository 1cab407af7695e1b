/** Generic list operations: list comprehensions with a condition,
    duplicate-free lists and order-preserving sub-lists. */
module Seqs {

  /** `[x for x in s if p(x)]` */
  function Filter<T(!new)>(s: seq<T>, p: T -> bool): (r: seq<T>)
    ensures |r| <= |s|
    ensures forall x :: x in r <==> x in s && p(x)
  {
    if s == [] then [] else (if p(s[0]) then [s[0]] else []) + Filter(s[1..], p)
  }

  /** `[x for x in s if not p(x)]` */
  function Reject<T(!new)>(s: seq<T>, p: T -> bool): (r: seq<T>)
    ensures |r| <= |s|
    ensures forall x :: x in r <==> x in s && !p(x)
  {
    if s == [] then [] else (if p(s[0]) then [] else [s[0]]) + Reject(s[1..], p)
  }

  /** Filtering a list that grows at its end. */
  lemma {:induction false} FilterAppend<T(!new)>(s: seq<T>, x: T, p: T -> bool)
    ensures Filter(s + [x], p) == Filter(s, p) + (if p(x) then [x] else [])
  {
    if s != [] {
      assert (s + [x])[1..] == s[1..] + [x];
      FilterAppend(s[1..], x, p);
    }
  }

  /** Filtering distributes over concatenation. */
  lemma {:induction false} FilterConcat<T(!new)>(a: seq<T>, b: seq<T>, p: T -> bool)
    ensures Filter(a + b, p) == Filter(a, p) + Filter(b, p)
  {
    if a == [] {
      assert a + b == b;
    } else {
      assert (a + b)[1..] == a[1..] + b;
      FilterConcat(a[1..], b, p);
    }
  }

  /** The two halves of a partition hold, between them, exactly the
      elements of the list. */
  lemma {:induction false} PartitionMultiset<T(!new)>(s: seq<T>, p: T -> bool)
    ensures multiset(Filter(s, p)) + multiset(Reject(s, p)) == multiset(s)
  {
    if s != [] {
      var h := s[0];
      var t := s[1..];
      PartitionMultiset(t, p);
      assert s == [h] + t;
      assert multiset(s) == multiset{h} + multiset(t);
      if p(h) {
        assert Filter(s, p) == [h] + Filter(t, p);
        assert Reject(s, p) == Reject(t, p);
        assert multiset(Filter(s, p)) == multiset{h} + multiset(Filter(t, p));
      } else {
        assert Filter(s, p) == Filter(t, p);
        assert Reject(s, p) == [h] + Reject(t, p);
        assert multiset(Reject(s, p)) == multiset{h} + multiset(Reject(t, p));
      }
    }
  }

  lemma {:induction false} PartitionLength<T(!new)>(s: seq<T>, p: T -> bool)
    ensures |Filter(s, p)| + |Reject(s, p)| == |s|
  {
    if s != [] {
      PartitionLength(s[1..], p);
    }
  }

  /** `a` is `b` with some elements left out and the rest in their order. */
  predicate IsSubsequence<T(==)>(a: seq<T>, b: seq<T>)
    decreases |b|
  {
    a == [] || (b != [] && if a[0] == b[0] then IsSubsequence(a[1..], b[1..]) else IsSubsequence(a, b[1..]))
  }

  lemma {:induction false} FilterIsSubsequence<T(!new)>(s: seq<T>, p: T -> bool)
    ensures IsSubsequence(Filter(s, p), s)
  {
    if s != [] {
      FilterIsSubsequence(s[1..], p);
      var f := Filter(s[1..], p);
      if p(s[0]) {
        assert Filter(s, p) == [s[0]] + f;
        assert Filter(s, p)[1..] == f;
      } else {
        assert Filter(s, p) == f;
        assert s[0] !in f;
      }
    }
  }

  /** The complement of a comprehension keeps its elements in their order too. */
  lemma {:induction false} RejectIsSubsequence<T(!new)>(s: seq<T>, p: T -> bool)
    ensures IsSubsequence(Reject(s, p), s)
  {
    if s != [] {
      RejectIsSubsequence(s[1..], p);
      var f := Reject(s[1..], p);
      if !p(s[0]) {
        assert Reject(s, p) == [s[0]] + f;
        assert Reject(s, p)[1..] == f;
      } else {
        assert Reject(s, p) == f;
        assert s[0] !in f;
      }
    }
  }

  predicate Distinct<T(==)>(s: seq<T>) {
    forall i, j :: 0 <= i < j < |s| ==> s[i] != s[j]
  }

  /** Dropping the first element of a duplicate-free list leaves one
      without that element. */
  lemma DistinctTail<T>(s: seq<T>)
    requires s != []
    ensures Distinct(s) ==> Distinct(s[1..]) && s[0] !in s[1..]
  {
    if Distinct(s) {
      forall i, j | 0 <= i < j < |s| - 1 ensures s[1..][i] != s[1..][j] {
        assert s[i + 1] != s[j + 1];
      }
    }
  }

  /** The keys a Python dict holds after assigning every element of `s` in
      turn: the first occurrences, in the order they were first seen. */
  function Dedup<T(==,!new)>(s: seq<T>): (r: seq<T>)
    ensures Distinct(r)
    ensures forall x :: x in r <==> x in s
  {
    if s == [] then []
    else
      var d := Dedup(s[..|s| - 1]);
      assert forall x :: x in s <==> x in s[..|s| - 1] || x == s[|s| - 1];
      if s[|s| - 1] in s[..|s| - 1] then d else d + [s[|s| - 1]]
  }

  /** The position at which `x` first occurs in `s`. */
  function FirstIndex<T(==)>(s: seq<T>, x: T): (k: nat)
    requires x in s
    ensures k < |s| && s[k] == x && x !in s[..k]
  {
    if s[0] == x then 0
    else
      assert x in s[1..];
      var k := 1 + FirstIndex(s[1..], x);
      assert s[..k] == [s[0]] + s[1..][..k - 1];
      k
  }

  /** Only one position is the first occurrence. */
  lemma FirstIndexUnique<T>(s: seq<T>, x: T, k: int)
    requires 0 <= k < |s| && s[k] == x && x !in s[..k]
    ensures FirstIndex(s, x) == k
  {
    var f := FirstIndex(s, x);
    assert forall m :: 0 <= m < f ==> s[..f][m] == s[m];
    assert forall m :: 0 <= m < k ==> s[..k][m] == s[m];
  }

  /** Dedup keeps the elements in the order of their first occurrence:
      an element whose first occurrence comes earlier is listed earlier. */
  lemma {:induction false} DedupFirstOccurrenceOrder<T(!new)>(s: seq<T>)
    ensures forall i, j :: 0 <= i < j < |Dedup(s)| ==>
      FirstIndex(s, Dedup(s)[i]) < FirstIndex(s, Dedup(s)[j])
  {
    if s != [] {
      var init := s[..|s| - 1];
      var last := s[|s| - 1];
      DedupFirstOccurrenceOrder(init);
      var d := Dedup(init);
      forall x | x in init ensures FirstIndex(s, x) == FirstIndex(init, x) {
        var k := FirstIndex(init, x);
        assert s[..k] == init[..k];
        FirstIndexUnique(s, x, k);
      }
      if last !in init {
        assert s[..|s| - 1] == init;
        FirstIndexUnique(s, last, |s| - 1);
        assert Dedup(s) == d + [last];
      }
    }
  }

  /** A list without repetitions is its own set of first occurrences. */
  lemma {:induction false} DedupDistinct<T(!new)>(s: seq<T>)
    requires Distinct(s)
    ensures Dedup(s) == s
  {
    if s != [] {
      var init := s[..|s| - 1];
      assert Distinct(init);
      DedupDistinct(init);
      assert s[|s| - 1] !in init;
      assert init + [s[|s| - 1]] == s;
    }
  }

  /** A duplicate-free list has as many elements as its set. */
  lemma {:induction false} DistinctCardinality<T>(s: seq<T>)
    requires Distinct(s)
    ensures |set x | x in s| == |s|
  {
    if s != [] {
      var init := s[..|s| - 1];
      assert Distinct(init);
      DistinctCardinality(init);
      assert (set x | x in s) == (set x | x in init) + {s[|s| - 1]};
      assert s[|s| - 1] !in init;
    }
  }
}
