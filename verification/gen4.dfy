/** The third collection generator: Markdown files are found below the
    source directory outside skipped directories, each file's collection is
    the first component of its path relative to the source directory, and
    every record is rendered with `base.html`. */
module Gen4 {
  import opened Text
  import opened Seqs
  import opened Values
  import opened Paths
  import opened Discovery
  import opened Collections
  import opened Routes

  const DefaultBuildDir := "build"
  const DefaultSourceDir := "source"

  /** `config.get('build_directory', 'build')` */
  function BuildDirOf(config: Config): string {
    config.buildDirectory.GetOr(DefaultBuildDir)
  }

  /** `config.get('source_directory', 'source')` */
  function SourceDirOf(config: Config): string {
    config.sourceDirectory.GetOr(DefaultSourceDir)
  }

  /** `config.get('skip_directories', [])` */
  function SkipDirsOf(config: Config): seq<string> {
    config.skipDirectories.GetOr([])
  }

  /** `os.path.relpath(filepath, source_dir).split(os.sep)[0]` */
  function Collection(p: string, sourceDir: string): string {
    LeadingSegment(RelPath(p, sourceDir))
  }

  /** A file below the source directory is in the collection named by the
      first directory under the source directory; a file directly in the
      source directory is in a collection named after the file itself. */
  lemma CollectionBelowSource(p: string, sourceDir: string, below: seq<string>)
    requires below != []
    requires Segments(p) == Segments(sourceDir) + below
    ensures Collection(p, sourceDir) == below[0]
  {
    RelPathBelow(p, sourceDir, below);
    SegmentsSuffixAreNames(p, Segments(sourceDir), below);
    LeadingSegmentOfJoin(below);
  }

  /** `source/index.md` is in the collection `index.md`, not `root`. */
  lemma TopLevelFileCollection(sourceDir: string, f: string)
    requires IsName(f)
    ensures Collection(Join(sourceDir, f), sourceDir) == f
  {
    SegmentsOfJoin(sourceDir, f);
    CollectionBelowSource(Join(sourceDir, f), sourceDir, [f]);
  }

  /** `render_html`: where the record goes, with the build directory
      defaulting to `build`. */
  function RenderHtml(config: Config, data: FileData): (r: Rendered)
    ensures r.path == OutputPath(BuildDirOf(config), data.collection, data.fn)
    ensures r.template == BaseTemplate && r.data == data && r.lump.None?
  {
    Rendered(OutputPath(BuildDirOf(config), data.collection, data.fn), BaseTemplate, data, None)
  }

  /** The rendering loop of `main`: every record once, in table order. */
  method RenderAll(config: Config, table: Dict<FileData>) returns (out: seq<Rendered>)
    requires table.Valid()
    ensures |out| == |table.keys|
    ensures forall i :: 0 <= i < |table.keys| ==>
      table.keys[i] in table.entries && out[i] == RenderHtml(config, table.entries[table.keys[i]])
  {
    out := [];
    for i := 0 to |table.keys|
      invariant |out| == i
      invariant forall j :: 0 <= j < i ==>
        table.keys[j] in table.entries && out[j] == RenderHtml(config, table.entries[table.keys[j]])
    {
      assert table.keys[i] in table.keys;
      var data := table.entries[table.keys[i]];
      out := out + [RenderHtml(config, data)];
    }
  }

  /** `main`: find, load, then render every record. */
  method Generate(config: Config, walkOf: string -> seq<WalkDir>, load: string -> Post)
    returns (allFileData: Dict<FileData>, out: seq<Rendered>)
    ensures allFileData.Valid()
    ensures allFileData.keys == Dedup(MarkdownFilesSkipping(walkOf(SourceDirOf(config)), SkipDirsOf(config)))
    ensures forall k :: k in allFileData.entries ==>
      allFileData.entries[k] == Item(k, load(k), Collection(k, SourceDirOf(config)))
    ensures |out| == |allFileData.keys|
    ensures forall i :: 0 <= i < |allFileData.keys| ==>
      allFileData.keys[i] in allFileData.entries
      && out[i] == RenderHtml(config, allFileData.entries[allFileData.keys[i]])
  {
    var sourceDir := SourceDirOf(config);
    var skipDirs := SkipDirsOf(config);
    var markdownFiles := FindMarkdownFilesSkipping(walkOf(sourceDir), skipDirs);
    allFileData := LoadAll(markdownFiles, load, p => Collection(p, sourceDir));
    out := RenderAll(config, allFileData);
  }

  /** A file `f` in directory `d` of collection `c`: its components, its
      collection and its base name. */
  lemma NestedFile(src: string, c: string, d: string, f: string)
    requires IsName(c) && IsName(d) && IsName(f)
    ensures var p := Join(Join(Join(src, c), d), f);
      && Segments(p) == Segments(src) + [c, d, f]
      && Collection(p, src) == c
      && Basename(p) == f
      && Stem(p) == SplitExtRoot(f)
  {
    var a := Join(src, c);
    var b := Join(a, d);
    var p := Join(b, f);
    NestedSegments(src, c, d, f);
    CollectionBelowSource(p, src, [c, d, f]);
    BasenameOfJoin(b, f);
  }

  lemma AppendThree(s0: seq<string>, sa: seq<string>, sb: seq<string>, sp: seq<string>, c: string, d: string, f: string)
    requires sa == s0 + [c] && sb == sa + [d] && sp == sb + [f]
    ensures sp == s0 + [c, d, f]
  {
    assert s0 + [c] + [d] + [f] == s0 + [c, d, f];
  }

  lemma NestedSegments(src: string, c: string, d: string, f: string)
    requires IsName(c) && IsName(d) && IsName(f)
    ensures Segments(Join(Join(Join(src, c), d), f)) == Segments(src) + [c, d, f]
  {
    var a := Join(src, c);
    var b := Join(a, d);
    SegmentsOfJoin(src, c);
    SegmentsOfJoin(a, d);
    SegmentsOfJoin(b, f);
    AppendThree(Segments(src), Segments(a), Segments(b), Segments(Join(b, f)), c, d, f);
  }

  /** Files in two different directories are different paths. */
  lemma NestedDistinct(src: string, c: string, d1: string, d2: string, f: string)
    requires IsName(c) && IsName(d1) && IsName(d2) && d1 != d2 && IsName(f)
    ensures Join(Join(Join(src, c), d1), f) != Join(Join(Join(src, c), d2), f)
  {
    NestedSegments(src, c, d1, f);
    NestedSegments(src, c, d2, f);
    var n := |Segments(src)|;
    assert Segments(Join(Join(Join(src, c), d1), f))[n + 1] == d1;
    assert Segments(Join(Join(Join(src, c), d2), f))[n + 1] == d2;
  }

  /** Files with one name in two directories of one collection are
      different records written to the same page. */
  lemma SameStemCollision(config: Config, c: string, d1: string, d2: string, f: string)
    requires IsName(c) && IsName(d1) && IsName(d2) && d1 != d2
    requires IsName(f)
    ensures var src := SourceDirOf(config);
      var p1 := Join(Join(Join(src, c), d1), f);
      var p2 := Join(Join(Join(src, c), d2), f);
      && p1 != p2
      && Collection(p1, src) == Collection(p2, src) == c
      && Stem(p1) == Stem(p2)
      && OutputPath(BuildDirOf(config), Collection(p1, src), Stem(p1))
        == OutputPath(BuildDirOf(config), Collection(p2, src), Stem(p2))
  {
    var src := SourceDirOf(config);
    var p1 := Join(Join(Join(src, c), d1), f);
    var p2 := Join(Join(Join(src, c), d2), f);
    NestedFile(src, c, d1, f);
    NestedFile(src, c, d2, f);
    NestedDistinct(src, c, d1, d2, f);
  }
}
