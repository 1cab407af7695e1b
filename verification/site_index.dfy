/** The site index of the flat-site builder: the pages listed for
    navigation, ordered by the two-tier `sort_class` policy, and the list a
    page is given with its own entry taken out. */
module SiteIndex {
  import opened Text
  import opened Seqs
  import opened Values
  import opened Sorting

  /** One element of `all_pages`. */
  datatype IndexEntry = IndexEntry(
    title: Value, desc: Value, imago: Value, cssClass: Value,
    url: string, sortClass: Value)

  /** `p.get("sort_class") and p["sort_class"].strip()` is truthy: the page
      is pinned to a place in the sorted part. */
  predicate HasSortClass(e: IndexEntry) {
    e.sortClass.VStr? && Strip(e.sortClass.s) != ""
  }

  /** The same test raises AttributeError: a truthy value that is not a
      string has no `strip()`. */
  predicate SortClassFails(e: IndexEntry) {
    Truthy(e.sortClass) && !e.sortClass.VStr?
  }

  /** The key of line 70: the stripped `sort_class`, or `"~"` when that is
      blank. Only pinned pages are sorted, so the `"~"` branch, which here
      also stands in for values that are not strings, is never taken. */
  function SortKey(e: IndexEntry): string {
    if HasSortClass(e) then Strip(e.sortClass.s) else "~"
  }

  /** The ordering of lines 68-77: pinned pages first, stably sorted by
      their stripped `sort_class`, then every other page in discovery order.
      A truthy `sort_class` that is not a string aborts the run. */
  function OrderIndex(pages: seq<IndexEntry>): (r: Result<seq<IndexEntry>>)
    ensures r.Err? <==> exists e :: e in pages && SortClassFails(e)
    ensures r.Err? ==> r.error == AttributeError
    ensures r.Ok? ==>
      var pinned := Filter(pages, HasSortClass);
      var n := |pinned|;
      && |r.value| == |pages|
      && multiset(r.value) == multiset(pages)
      && (forall i :: 0 <= i < n ==> HasSortClass(r.value[i]) && SortKey(r.value[i]) == Strip(r.value[i].sortClass.s))
      && (forall i :: n <= i < |r.value| ==> !HasSortClass(r.value[i]))
      && SortedBy(r.value[..n], SortKey)
      && multiset(r.value[..n]) == multiset(pinned)
      && (forall k :: WithKey(r.value[..n], SortKey, k) == WithKey(pinned, SortKey, k))
      && r.value[n..] == Reject(pages, HasSortClass)
  {
    if exists e :: e in pages && SortClassFails(e) then Err(AttributeError)
    else
      SortedPartition(pages, HasSortClass, SortKey);
      Ok(SortBy(Filter(pages, HasSortClass), SortKey) + Reject(pages, HasSortClass))
  }

  /** `[p for p in all_pages if p["url"] != url]`: every entry with another
      URL is kept, as often as it occurs and in its order, and every entry
      with this URL is removed. */
  function ExcludeUrl(index: seq<IndexEntry>, url: string): (r: seq<IndexEntry>)
    ensures forall e :: multiset(r)[e] == if e.url == url then 0 else multiset(index)[e]
    ensures IsSubsequence(r, index)
  {
    if index == [] then []
    else
      var rest := ExcludeUrl(index[1..], url);
      assert index == [index[0]] + index[1..];
      if index[0].url == url then
        assert rest == [] || rest[0] != index[0] by {
          if rest != [] { assert multiset(rest)[rest[0]] > 0; }
        }
        rest
      else
        assert ([index[0]] + rest)[1..] == rest;
        [index[0]] + rest
  }

  /** A URL that no entry has removes nothing. */
  lemma {:induction false} ExcludeAbsentUrl(index: seq<IndexEntry>, url: string)
    requires forall e :: e in index ==> e.url != url
    ensures ExcludeUrl(index, url) == index
  {
    if index != [] {
      ExcludeAbsentUrl(index[1..], url);
      assert [index[0]] + index[1..] == index;
    }
  }

  /** Without a failing `sort_class` the order is the sorted pinned pages
      followed by the others. */
  lemma OrderIndexOf(pages: seq<IndexEntry>, pinned: seq<IndexEntry>, others: seq<IndexEntry>, r: seq<IndexEntry>)
    requires forall i :: 0 <= i < |pages| ==> !SortClassFails(pages[i])
    requires SortBy(Filter(pages, HasSortClass), SortKey) == pinned
    requires Reject(pages, HasSortClass) == others
    requires pinned + others == r
    ensures OrderIndex(pages) == Ok(r)
  {
    assert !exists e :: e in pages && SortClassFails(e);
  }

  /** Three entries none of which fails, and two of them followed by the
      third. */
  lemma ThreeInOrder(a: IndexEntry, b: IndexEntry, c: IndexEntry)
    requires !SortClassFails(a) && !SortClassFails(b) && !SortClassFails(c)
    ensures forall i :: 0 <= i < |[c, b, a]| ==> !SortClassFails([c, b, a][i])
    ensures [a, b] + [c] == [a, b, c]
  {
  }

  /** The two parts of the order of C, B and A. */
  lemma PinnedOfThree(a: IndexEntry, b: IndexEntry, c: IndexEntry)
    requires HasSortClass(a) && HasSortClass(b) && !HasSortClass(c)
    requires !LexLe(SortKey(b), SortKey(a))
    ensures SortBy(Filter([c, b, a], HasSortClass), SortKey) == [a, b]
    ensures Reject([c, b, a], HasSortClass) == [c]
  {
    PartitionOfThree(c, b, a);
    SortOfTwo(b, a, SortKey);
  }

  /** Two pinned pages and one other are split into the pinned ones, in
      their order, and the other. */
  lemma PartitionOfThree(x: IndexEntry, y: IndexEntry, z: IndexEntry)
    requires !HasSortClass(x) && HasSortClass(y) && HasSortClass(z)
    ensures Filter([x, y, z], HasSortClass) == [y, z]
    ensures Reject([x, y, z], HasSortClass) == [x]
  {
    PartitionStep(x, [y, z]);
    PartitionStep(y, [z]);
    PartitionStep(z, []);
  }

  /** Filtering and rejecting a list with one entry in front. */
  lemma PartitionStep(x: IndexEntry, t: seq<IndexEntry>)
    ensures Filter([x] + t, HasSortClass) == (if HasSortClass(x) then [x] else []) + Filter(t, HasSortClass)
    ensures Reject([x] + t, HasSortClass) == (if HasSortClass(x) then [] else [x]) + Reject(t, HasSortClass)
  {
    assert ([x] + t)[0] == x && ([x] + t)[1..] == t;
  }

  /** Pages discovered as C (not pinned), B and A, where A's key comes
      strictly before B's, are listed A, B, C. */
  lemma OrderOfThree(a: IndexEntry, b: IndexEntry, c: IndexEntry)
    requires HasSortClass(a) && HasSortClass(b) && !HasSortClass(c)
    requires !SortClassFails(a) && !SortClassFails(b) && !SortClassFails(c)
    requires !LexLe(SortKey(b), SortKey(a))
    ensures OrderIndex([c, b, a]) == Ok([a, b, c])
  {
    PinnedOfThree(a, b, c);
    ThreeInOrder(a, b, c);
    OrderIndexOf([c, b, a], [a, b], [c], [a, b, c]);
  }

  /** A page whose `sort_class` is a string without surrounding white
      space is pinned under that string. */
  lemma PinnedBy(e: IndexEntry, k: string)
    requires e.sortClass == VStr(k)
    requires k != [] && !IsSpace(k[0]) && !IsSpace(k[|k| - 1])
    ensures HasSortClass(e) && !SortClassFails(e) && SortKey(e) == k
  {
    StripNonSpace(k);
  }

  /** Pages discovered as C (no `sort_class`), B and A, pinned under keys
      without surrounding white space where A's comes first, are listed A,
      B, C. */
  lemma OrderOfThreeKeys(a: IndexEntry, b: IndexEntry, c: IndexEntry, ka: string, kb: string)
    requires a.sortClass == VStr(ka) && b.sortClass == VStr(kb) && c.sortClass == VNone
    requires ka != [] && !IsSpace(ka[0]) && !IsSpace(ka[|ka| - 1])
    requires kb != [] && !IsSpace(kb[0]) && !IsSpace(kb[|kb| - 1])
    requires !LexLe(kb, ka)
    ensures OrderIndex([c, b, a]) == Ok([a, b, c])
  {
    PinnedBy(a, ka);
    PinnedBy(b, kb);
    OrderOfThree(a, b, c);
  }

  /** The two-tier ordering on three pages: pages discovered as C (no
      `sort_class`), B (`"2"`) and A (`"1"`) are listed A, B, C. */
  lemma SortPolicyExample()
    ensures
      var a := IndexEntry(VStr("A"), VStr(""), VStr(""), VStr(""), "/a.html", VStr("1"));
      var b := IndexEntry(VStr("B"), VStr(""), VStr(""), VStr(""), "/b.html", VStr("2"));
      var c := IndexEntry(VStr("C"), VStr(""), VStr(""), VStr(""), "/c.html", VNone);
      OrderIndex([c, b, a]) == Ok([a, b, c])
  {
    var a := IndexEntry(VStr("A"), VStr(""), VStr(""), VStr(""), "/a.html", VStr("1"));
    var b := IndexEntry(VStr("B"), VStr(""), VStr(""), VStr(""), "/b.html", VStr("2"));
    var c := IndexEntry(VStr("C"), VStr(""), VStr(""), VStr(""), "/c.html", VNone);
    assert !LexLe("2", "1");
    OrderOfThreeKeys(a, b, c, "1", "2");
  }
}
