/** The second collection generator: the records of the first one, each
    rendered with `base.html` to a path chosen by its collection. The
    output directory is read from the configuration without a default. */
module Gen3 {
  import opened Text
  import opened Seqs
  import opened Values
  import opened Paths
  import opened Discovery
  import opened Collections
  import opened Routes
  import Gen2

  /** `render_html`: joining onto a missing `build_directory` raises
      TypeError. */
  function RenderHtml(config: Config, data: FileData): (r: Result<Rendered>)
    ensures r.Err? <==> config.buildDirectory.None?
    ensures r.Err? ==> r.error == TypeError
    ensures r.Ok? ==> r.value.data == data && r.value.template == BaseTemplate && r.value.lump.None?
    ensures r.Ok? ==> r.value.path == OutputPath(config.buildDirectory.value, data.collection, data.fn)
  {
    match config.buildDirectory
    case None => Err(TypeError)
    case Some(buildDir) => Ok(Rendered(OutputPath(buildDir, data.collection, data.fn), BaseTemplate, data, None))
  }

  /** The rendering loop of `main`, over the records in their order; the
      first failure ends the run. */
  method RenderAll(config: Config, table: Dict<FileData>) returns (r: Result<seq<Rendered>>)
    requires table.Valid()
    ensures r.Err? <==> table.keys != [] && config.buildDirectory.None?
    ensures r.Err? ==> r.error == TypeError
    ensures r.Ok? ==> |r.value| == |table.keys|
    ensures r.Ok? ==> forall i :: 0 <= i < |table.keys| ==>
      table.keys[i] in table.entries && Ok(r.value[i]) == RenderHtml(config, table.entries[table.keys[i]])
  {
    var out: seq<Rendered> := [];
    for i := 0 to |table.keys|
      invariant |out| == i
      invariant i > 0 ==> config.buildDirectory.Some?
      invariant forall j :: 0 <= j < i ==>
        table.keys[j] in table.entries && Ok(out[j]) == RenderHtml(config, table.entries[table.keys[j]])
    {
      assert table.keys[i] in table.keys;
      var data := table.entries[table.keys[i]];
      var rendered := RenderHtml(config, data);
      if rendered.Err? {
        return Err(rendered.error);
      }
      out := out + [rendered.value];
    }
    r := Ok(out);
  }

  /** `main`: the records of the first generator, then one rendering each.
      Without `build_directory` in the configuration the run fails as soon
      as there is a file to render. */
  method Generate(config: Config, walkOf: string -> seq<WalkDir>, load: string -> Post)
    returns (allFileData: Dict<FileData>, r: Result<seq<Rendered>>)
    ensures allFileData.Valid()
    ensures allFileData.keys == Dedup(MarkdownFiles(walkOf(Gen2.SourceDirOf(config))))
    ensures forall k :: k in allFileData.entries ==>
      allFileData.entries[k] == Item(k, load(k), LeadingSegment(k))
    ensures r.Err? <==> allFileData.keys != [] && config.buildDirectory.None?
    ensures r.Ok? ==> |r.value| == |allFileData.keys|
    ensures r.Ok? ==> forall i :: 0 <= i < |allFileData.keys| ==>
      allFileData.keys[i] in allFileData.entries
      && Ok(r.value[i]) == RenderHtml(config, allFileData.entries[allFileData.keys[i]])
  {
    var sourceDir := Gen2.SourceDirOf(config);
    var markdownFiles := FindMarkdownFiles(walkOf(sourceDir));
    allFileData := LoadAll(markdownFiles, load, LeadingSegment);
    r := RenderAll(config, allFileData);
  }

  /** With a build directory configured and the default source, a file
      found at `source/.../name.md` is written to
      `<build>/source/name.html`. */
  lemma DefaultSourceRoute(config: Config, walk: seq<WalkDir>, p: string, post: Post)
    requires config.buildDirectory.Some?
    requires WalkBelow(walk, "source")
    requires p in MarkdownFiles(walk)
    ensures RenderHtml(config, Item(p, post, LeadingSegment(p))).Ok?
    ensures RenderHtml(config, Item(p, post, LeadingSegment(p))).value.path
      == Join(Join(config.buildDirectory.value, "source"), Stem(p) + ".html")
  {
    assert IsName("source") by {
      assert '/' !in "source";
    }
    Gen2.CollectionIsSourceDir(walk, "source", p);
    var data := Item(p, post, LeadingSegment(p));
    assert data.collection == "source" && data.fn == Stem(p);
    assert "source" != "root";
  }
}
