/** The first collection generator: it finds every Markdown file below the
    source directory and keeps one record per file, whose collection is the
    first component of the file's path as found. */
module Gen2 {
  import opened Text
  import opened Seqs
  import opened Values
  import opened Paths
  import opened Discovery
  import opened Collections

  const DefaultBuildDir := "public"
  const DefaultRootDir := "source/root"

  /** `config.get('build_directory', 'public')` */
  function BuildDirOf(config: Config): string {
    config.buildDirectory.GetOr(DefaultBuildDir)
  }

  /** `os.path.dirname(config.get('root_directory', 'source/root'))` */
  function SourceDirOf(config: Config): string {
    Dirname(config.rootDirectory.GetOr(DefaultRootDir))
  }

  /** Without configuration the build goes to `public` and the source is
      `source`, the directory above the default root. */
  lemma DefaultDirectories(config: Config)
    requires config.buildDirectory.None? && config.rootDirectory.None?
    ensures BuildDirOf(config) == "public"
    ensures SourceDirOf(config) == "source"
  {
    assert "source" + "/" + "root" == DefaultRootDir;
    DirnameOfChild("source", "root");
  }

  /** `main`: one record per Markdown file of the walk of the source
      directory, keyed by its path, in walk order. */
  method Generate(config: Config, walkOf: string -> seq<WalkDir>, load: string -> Post)
    returns (allFileData: Dict<FileData>)
    ensures allFileData.Valid()
    ensures allFileData.keys == Dedup(MarkdownFiles(walkOf(SourceDirOf(config))))
    ensures forall k :: k in allFileData.entries ==>
      allFileData.entries[k] == Item(k, load(k), LeadingSegment(k))
  {
    var sourceDir := SourceDirOf(config);
    var markdownFiles := FindMarkdownFiles(walkOf(sourceDir));
    allFileData := LoadAll(markdownFiles, load, LeadingSegment);
  }

  /** The collection is the first component of the path as found, so in a
      walk of `source` every file is in the collection `source`, whatever
      directory below it holds the file. */
  lemma CollectionIsSourceDir(walk: seq<WalkDir>, top: string, p: string)
    requires WalkBelow(walk, top)
    requires IsName(top)
    requires p in MarkdownFiles(walk)
    ensures LeadingSegment(p) == top
  {
    FoundBelow(walk, top, p);
    var rest := p[|top| + 1..];
    assert p == top + "/" + rest;
    LeadingSegmentOfChild(top, rest);
  }

  /** The record of a file holds its stem: its name without the `.md`. */
  lemma StemOfMarkdownFile(dirpath: string, f: string)
    requires IsName(f) && IsMarkdownFile(f) && HasNonDot(f, 0, |f| - 3)
    ensures Stem(Join(dirpath, f)) == f[..|f| - 3]
  {
    BasenameOfJoin(dirpath, f);
    SplitExtRootOfMarkdown(f);
  }
}
