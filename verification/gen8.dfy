/** The fourth collection generator: the third one, plus a filtered view
    of the `pages` collection and a random sample of three of its entries,
    and a rendering that converts each record's Markdown in place and
    passes an extra `lump` value to the template. */
module Gen8 {
  import opened Text
  import opened Seqs
  import opened Values
  import opened Paths
  import opened Discovery
  import opened Collections
  import opened Routes
  import Gen4

  const Lump := "example_value"

  /** The condition of the filtered view. */
  predicate InPages(data: FileData) {
    data.collection == "pages"
  }

  /** `render_html`: the record's content replaced by its HTML, then the
      record rendered with `lump` to the path its collection chooses. */
  function RenderHtml(config: Config, data: FileData, markdown: string -> string, lump: string): (r: Rendered)
    ensures r.data == data.(content := markdown(data.content))
    ensures r.path == OutputPath(Gen4.BuildDirOf(config), data.collection, data.fn)
    ensures r.template == BaseTemplate && r.lump == Some(lump)
  {
    var converted := data.(content := markdown(data.content));
    Rendered(OutputPath(Gen4.BuildDirOf(config), converted.collection, converted.fn), BaseTemplate, converted, Some(lump))
  }

  /** The rendering loop of `main`: every record once, in table order, its
      content converted in the table itself; nothing else in the table
      changes. */
  method RenderAll(config: Config, table: Dict<FileData>, markdown: string -> string)
    returns (converted: Dict<FileData>, out: seq<Rendered>)
    requires table.Valid()
    ensures converted.Valid() && converted.keys == table.keys
    ensures forall k :: k in table.entries ==>
      k in converted.entries && converted.entries[k] == table.entries[k].(content := markdown(table.entries[k].content))
    ensures |out| == |table.keys|
    ensures forall i :: 0 <= i < |table.keys| ==>
      table.keys[i] in table.entries && out[i] == RenderHtml(config, table.entries[table.keys[i]], markdown, Lump)
  {
    converted := table;
    out := [];
    for i := 0 to |table.keys|
      invariant converted.Valid() && converted.keys == table.keys
      invariant forall j :: 0 <= j < i ==>
        table.keys[j] in table.entries
        && converted.entries[table.keys[j]] == table.entries[table.keys[j]].(content := markdown(table.entries[table.keys[j]].content))
      invariant forall j :: i <= j < |table.keys| ==> converted.entries[table.keys[j]] == table.entries[table.keys[j]]
      invariant |out| == i
      invariant forall j :: 0 <= j < i ==>
        out[j] == RenderHtml(config, table.entries[table.keys[j]], markdown, Lump)
    {
      var key := table.keys[i];
      assert key in table.keys;
      var data := converted.entries[key];
      var rendered := RenderHtml(config, data, markdown, Lump);
      forall j | 0 <= j < |table.keys| && j != i ensures table.keys[j] != key {
      }
      converted := converted.Put(key, rendered.data);
      out := out + [rendered];
    }
    forall k | k in table.entries
      ensures k in converted.entries && converted.entries[k] == table.entries[k].(content := markdown(table.entries[k].content))
    {
      assert k in table.keys;
      var j :| 0 <= j < |table.keys| && table.keys[j] == k;
    }
  }

  /** `main`: find and load as the third generator does, take the view of
      the `pages` collection and a sample of three of its entries, then
      render every record. */
  method Generate(config: Config, walkOf: string -> seq<WalkDir>, load: string -> Post, markdown: string -> string)
    returns (allFileData: Dict<FileData>, pagesData: Dict<FileData>, randomPagesData: Result<Dict<FileData>>,
             converted: Dict<FileData>, out: seq<Rendered>)
    ensures allFileData.Valid()
    ensures allFileData.keys == Dedup(MarkdownFilesSkipping(walkOf(Gen4.SourceDirOf(config)), Gen4.SkipDirsOf(config)))
    ensures forall k :: k in allFileData.entries ==>
      allFileData.entries[k] == Item(k, load(k), Gen4.Collection(k, Gen4.SourceDirOf(config)))
    ensures pagesData.Valid()
    ensures forall k :: k in pagesData.entries <==> k in allFileData.entries && allFileData.entries[k].collection == "pages"
    ensures forall k :: k in pagesData.entries ==> pagesData.entries[k] == allFileData.entries[k]
    ensures randomPagesData.Ok?
    ensures randomPagesData.value.Valid()
    ensures |randomPagesData.value.keys| == Min(3, |pagesData.keys|)
    ensures forall k :: k in randomPagesData.value.entries ==>
      k in pagesData.entries && randomPagesData.value.entries[k] == allFileData.entries[k]
    ensures converted.Valid() && converted.keys == allFileData.keys
    ensures forall k :: k in allFileData.entries ==>
      k in converted.entries
      && converted.entries[k] == allFileData.entries[k].(content := markdown(allFileData.entries[k].content))
    ensures |out| == |allFileData.keys|
    ensures forall i :: 0 <= i < |allFileData.keys| ==>
      allFileData.keys[i] in allFileData.entries
      && out[i] == RenderHtml(config, allFileData.entries[allFileData.keys[i]], markdown, Lump)
  {
    var sourceDir := Gen4.SourceDirOf(config);
    var skipDirs := Gen4.SkipDirsOf(config);
    var markdownFiles := FindMarkdownFilesSkipping(walkOf(sourceDir), skipDirs);
    allFileData := LoadAll(markdownFiles, load, p => Gen4.Collection(p, sourceDir));
    pagesData := FilterData(allFileData, InPages);
    randomPagesData := SelectRandomEntries(pagesData, 3);
    converted, out := RenderAll(config, allFileData, markdown);
  }
}
