/** The collection-based generators' data: their configuration, the record
    kept for each content file, the insertion-ordered table of those
    records, and the operations the generators apply to that table. */
module Collections {
  import opened Text
  import opened Seqs
  import opened Values
  import opened Paths

  /** The entries of `config.json` the generators read; a missing entry is
      `None`. */
  datatype Config = Config(
    buildDirectory: Option<string>,
    sourceDirectory: Option<string>,
    rootDirectory: Option<string>,
    skipDirectories: Option<seq<string>>)

  /** What is kept for one content file. */
  datatype FileData = FileData(frontmatter: map<string, Value>, content: string, collection: string, fn: string)

  /** A Python dict with string keys: the keys in insertion order and the
      value of each. */
  datatype Dict<V> = Dict(keys: seq<string>, entries: map<string, V>) {
    ghost predicate Valid() {
      Distinct(keys) && forall k :: k in entries <==> k in keys
    }

    /** `d[k] = v`: a new key goes last, an existing key keeps its place. */
    function Put(k: string, v: V): (d: Dict<V>)
      requires Valid()
      ensures d.Valid()
      ensures k in keys ==> d.keys == keys
      ensures k !in keys ==> d.keys == keys + [k]
      ensures d.entries == entries[k := v]
    {
      if k in entries then Dict(keys, entries[k := v])
      else
        assert forall i :: 0 <= i < |keys| ==> keys[i] in keys;
        Dict(keys + [k], entries[k := v])
    }
  }

  function EmptyDict<V>(): (d: Dict<V>)
    ensures d.Valid() && d.keys == []
  {
    Dict([], map[])
  }

  /** `os.path.splitext(os.path.basename(p))[0]`: the base name without
      its extension, or the whole base name when it has none. */
  function Stem(p: string): (fn: string)
    ensures '/' !in fn
    ensures fn <= Basename(p)
    ensures fn != Basename(p) ==> ExtensionAt(Basename(p), |fn|)
    ensures fn == Basename(p) ==> forall d :: !ExtensionAt(Basename(p), d)
  {
    SplitExtRoot(Basename(p))
  }

  /** `p.split(os.sep)[0]` */
  function LeadingSegment(p: string): (head: string)
    ensures '/' !in head
    ensures StartsWith(p, head)
    ensures head == p || StartsWith(p, head + "/")
  {
    var parts := Split(p, '/');
    JoinSplit(p, '/');
    if |parts| == 1 then parts[0]
    else
      assert p == parts[0] + "/" + JoinWith(parts[1..], '/');
      assert p[..|parts[0]| + 1] == parts[0] + "/";
      parts[0]
  }

  /** The leading component of `a/rest` is `a`. */
  lemma LeadingSegmentOfChild(a: string, rest: string)
    requires '/' !in a
    ensures LeadingSegment(a + "/" + rest) == a
  {
    SplitAround(a, '/', rest);
    SplitNoSeparator(a, '/');
  }

  /** The leading component of joined components is the first of them. */
  lemma LeadingSegmentOfJoin(parts: seq<string>)
    requires parts != []
    requires forall i :: 0 <= i < |parts| ==> '/' !in parts[i]
    ensures LeadingSegment(JoinWith(parts, '/')) == parts[0]
  {
    SplitJoin(parts, '/');
  }

  /** The record of one content file. */
  function Item(p: string, post: Post, collection: string): FileData {
    FileData(post.metadata, post.content, collection, Stem(p))
  }

  /** The loop of `main` that fills `all_file_data`: one record per
      discovered path, keyed by the path, in discovery order. The loader and
      the way a path's collection is found are given. */
  method LoadAll(paths: seq<string>, load: string -> Post, collectionOf: string -> string)
    returns (table: Dict<FileData>)
    ensures table.Valid()
    ensures table.keys == Dedup(paths)
    ensures forall k :: k in table.entries ==> table.entries[k] == Item(k, load(k), collectionOf(k))
  {
    table := EmptyDict();
    for i := 0 to |paths|
      invariant table.Valid()
      invariant table.keys == Dedup(paths[..i])
      invariant forall k :: k in table.entries ==> table.entries[k] == Item(k, load(k), collectionOf(k))
    {
      var filepath := paths[i];
      assert paths[..i + 1][..i] == paths[..i];
      assert paths[..i + 1][i] == filepath;
      var post := load(filepath);
      var collection := collectionOf(filepath);
      var filename := SplitExtRoot(Basename(filepath));
      table := table.Put(filepath, FileData(post.metadata, post.content, collection, filename));
    }
    assert paths[..|paths|] == paths;
  }

  /** Discovered paths are distinct, so every one of them has its own
      record, in discovery order. */
  lemma LoadAllKeepsEveryPath(paths: seq<string>)
    requires Distinct(paths)
    ensures Dedup(paths) == paths
  {
    DedupDistinct(paths);
  }

  /** The keys among `keys` whose value passes `cond`, in their order. */
  function FilterKeys<V>(keys: seq<string>, entries: map<string, V>, cond: V -> bool): (r: seq<string>)
    requires forall k :: k in keys ==> k in entries
    ensures forall k :: k in r <==> k in keys && cond(entries[k])
    ensures Distinct(keys) ==> Distinct(r)
    ensures IsSubsequence(r, keys)
  {
    if keys == [] then []
    else
      var rest := FilterKeys(keys[1..], entries, cond);
      assert forall k :: k in keys[1..] ==> k in keys;
      DistinctTail(keys);
      if cond(entries[keys[0]]) then
        assert ([keys[0]] + rest)[1..] == rest;
        [keys[0]] + rest
      else
        assert rest == [] || rest[0] != keys[0] by {
          if rest != [] { assert rest[0] in rest; }
        }
        rest
  }

  /** `filter_file_data`: exactly the entries whose value passes `cond`,
      with their keys, values and order unchanged. */
  function FilterData<V>(d: Dict<V>, cond: V -> bool): (r: Dict<V>)
    requires d.Valid()
    ensures r.Valid()
    ensures forall k :: k in r.entries <==> k in d.entries && cond(d.entries[k])
    ensures forall k :: k in r.entries ==> r.entries[k] == d.entries[k]
    ensures IsSubsequence(r.keys, d.keys)
  {
    var keys := FilterKeys(d.keys, d.entries, cond);
    Dict(keys, map k | k in keys && k in d.entries :: d.entries[k])
  }

  function Min(a: int, b: int): (m: int)
    ensures m <= a && m <= b
    ensures m == a || m == b
  {
    if a < b then a else b
  }

  /** `select_random_entries`: `random.sample` of `min(count, len(d))` keys,
      each with its value. The choice of keys is left open; a negative size
      is refused with ValueError, as `random.sample` does. */
  method SelectRandomEntries<V>(d: Dict<V>, count: int) returns (r: Result<Dict<V>>)
    requires d.Valid()
    ensures r.Err? <==> count < 0
    ensures r.Err? ==> r.error == ValueError
    ensures r.Ok? ==>
      && r.value.Valid()
      && |r.value.keys| == Min(count, |d.keys|)
      && forall k :: k in r.value.entries ==> k in d.entries && r.value.entries[k] == d.entries[k]
  {
    var n := Min(count, |d.keys|);
    if n < 0 {
      return Err(ValueError);
    }
    DistinctCardinality(d.keys);
    var population := set k | k in d.keys;
    var selected: seq<string> := [];
    while |selected| < n
      invariant |selected| <= n
      invariant Distinct(selected)
      invariant population <= set k | k in d.keys
      invariant forall k :: k in selected ==> k in d.keys && k !in population
      invariant |population| == |d.keys| - |selected|
      decreases n - |selected|
    {
      var k :| k in population;
      assert forall i :: 0 <= i < |selected| ==> selected[i] in selected;
      selected := selected + [k];
      population := population - {k};
    }
    r := Ok(Dict(selected, map k | k in selected :: d.entries[k]));
  }
}
