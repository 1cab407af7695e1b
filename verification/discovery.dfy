/** Finding the Markdown files of a source tree. The tree is given as the
    sequence of (directory, file names) pairs a top-down directory walk
    yields, in the walk's order. */
module Discovery {
  import opened Text
  import opened Paths

  /** One step of the walk: a directory and the names of its files. */
  datatype WalkDir = WalkDir(dirpath: string, filenames: seq<string>)

  /** The paths of the Markdown files among `names`, in their order. */
  function MarkdownIn(dirpath: string, names: seq<string>): seq<string> {
    if names == [] then []
    else
      var f := names[|names| - 1];
      MarkdownIn(dirpath, names[..|names| - 1]) + (if IsMarkdownFile(f) then [Join(dirpath, f)] else [])
  }

  /** The Markdown files of the whole walk, in walk order, then name order. */
  function MarkdownFiles(walk: seq<WalkDir>): seq<string> {
    if walk == [] then []
    else
      var d := walk[|walk| - 1];
      MarkdownFiles(walk[..|walk| - 1]) + MarkdownIn(d.dirpath, d.filenames)
  }

  /** `any(skip_dir in dirpath.split(os.sep) for skip_dir in skip_dirs)`:
      some whole component of the directory is named in the skip list. */
  predicate Skipped(dirpath: string, skip: seq<string>) {
    exists s :: s in skip && s in Split(dirpath, '/')
  }

  /** The Markdown files of the walk outside skipped directories. */
  function MarkdownFilesSkipping(walk: seq<WalkDir>, skip: seq<string>): seq<string> {
    if walk == [] then []
    else
      var d := walk[|walk| - 1];
      MarkdownFilesSkipping(walk[..|walk| - 1], skip)
        + (if Skipped(d.dirpath, skip) then [] else MarkdownIn(d.dirpath, d.filenames))
  }

  lemma MarkdownInAppend(dirpath: string, names: seq<string>, f: string)
    ensures MarkdownIn(dirpath, names + [f])
      == MarkdownIn(dirpath, names) + (if IsMarkdownFile(f) then [Join(dirpath, f)] else [])
  {
    assert (names + [f])[..|names|] == names;
  }

  lemma MarkdownFilesAppend(walk: seq<WalkDir>, d: WalkDir)
    ensures MarkdownFiles(walk + [d]) == MarkdownFiles(walk) + MarkdownIn(d.dirpath, d.filenames)
  {
    assert (walk + [d])[..|walk|] == walk;
  }

  lemma MarkdownFilesSkippingAppend(walk: seq<WalkDir>, d: WalkDir, skip: seq<string>)
    ensures MarkdownFilesSkipping(walk + [d], skip) == MarkdownFilesSkipping(walk, skip)
      + (if Skipped(d.dirpath, skip) then [] else MarkdownIn(d.dirpath, d.filenames))
  {
    assert (walk + [d])[..|walk|] == walk;
  }

  /** The inner loop of `find_markdown_files`: the Markdown files of one
      directory appended to those found so far. */
  method AppendMarkdownIn(found: seq<string>, dirpath: string, filenames: seq<string>)
    returns (mdFiles: seq<string>)
    ensures mdFiles == found + MarkdownIn(dirpath, filenames)
  {
    mdFiles := found;
    for j := 0 to |filenames|
      invariant mdFiles == found + MarkdownIn(dirpath, filenames[..j])
    {
      var filename := filenames[j];
      MarkdownInAppend(dirpath, filenames[..j], filename);
      assert filenames[..j + 1] == filenames[..j] + [filename];
      if IsMarkdownFile(filename) {
        var filePath := Join(dirpath, filename);
        mdFiles := mdFiles + [filePath];
      }
    }
    assert filenames[..|filenames|] == filenames;
  }

  /** `find_markdown_files(root_dir)` without a skip list. */
  method FindMarkdownFiles(walk: seq<WalkDir>) returns (mdFiles: seq<string>)
    ensures mdFiles == MarkdownFiles(walk)
  {
    mdFiles := [];
    for i := 0 to |walk|
      invariant mdFiles == MarkdownFiles(walk[..i])
    {
      MarkdownFilesAppend(walk[..i], walk[i]);
      assert walk[..i + 1] == walk[..i] + [walk[i]];
      mdFiles := AppendMarkdownIn(mdFiles, walk[i].dirpath, walk[i].filenames);
    }
    assert walk[..|walk|] == walk;
  }

  /** `any(skip_dir in dirpath.split(os.sep) for skip_dir in skip_dirs)` */
  method AnySkipped(dirpath: string, skip: seq<string>) returns (skipIt: bool)
    ensures skipIt == Skipped(dirpath, skip)
  {
    var parts := Split(dirpath, '/');
    skipIt := false;
    for k := 0 to |skip|
      invariant skipIt <==> exists s :: s in skip[..k] && s in parts
    {
      assert skip[..k + 1] == skip[..k] + [skip[k]];
      if skip[k] in parts {
        skipIt := true;
      }
    }
    assert skip[..|skip|] == skip;
  }

  /** `find_markdown_files(source_dir, skip_dirs)`: a directory with a
      component in the skip list contributes nothing. */
  method FindMarkdownFilesSkipping(walk: seq<WalkDir>, skip: seq<string>) returns (mdFiles: seq<string>)
    ensures mdFiles == MarkdownFilesSkipping(walk, skip)
  {
    mdFiles := [];
    for i := 0 to |walk|
      invariant mdFiles == MarkdownFilesSkipping(walk[..i], skip)
    {
      var dirpath := walk[i].dirpath;
      MarkdownFilesSkippingAppend(walk[..i], walk[i], skip);
      assert walk[..i + 1] == walk[..i] + [walk[i]];
      var skipIt := AnySkipped(dirpath, skip);
      if skipIt {
        continue;
      }
      mdFiles := AppendMarkdownIn(mdFiles, dirpath, walk[i].filenames);
    }
    assert walk[..|walk|] == walk;
  }

  /** The paths found in one directory are exactly its Markdown files
      joined onto it. */
  lemma {:induction false} MarkdownInMember(dirpath: string, names: seq<string>, p: string)
    ensures p in MarkdownIn(dirpath, names) <==>
      exists f :: f in names && IsMarkdownFile(f) && p == Join(dirpath, f)
  {
    if names != [] {
      var init := names[..|names| - 1];
      var f := names[|names| - 1];
      MarkdownInMember(dirpath, init, p);
      assert names == init + [f];
      if exists g :: g in names && IsMarkdownFile(g) && p == Join(dirpath, g) {
        var g :| g in names && IsMarkdownFile(g) && p == Join(dirpath, g);
        if g != f {
          assert g in init;
        }
      }
    }
  }

  /** A path is found exactly when it is a Markdown file of a directory of
      the walk that is not skipped. */
  lemma {:induction false} MarkdownFilesSkippingMember(walk: seq<WalkDir>, skip: seq<string>, p: string)
    ensures p in MarkdownFilesSkipping(walk, skip) <==>
      exists i :: 0 <= i < |walk| && !Skipped(walk[i].dirpath, skip) && p in MarkdownIn(walk[i].dirpath, walk[i].filenames)
  {
    if walk != [] {
      var init := walk[..|walk| - 1];
      var d := walk[|walk| - 1];
      MarkdownFilesSkippingMember(init, skip, p);
      if exists i :: 0 <= i < |walk| && !Skipped(walk[i].dirpath, skip) && p in MarkdownIn(walk[i].dirpath, walk[i].filenames) {
        var i :| 0 <= i < |walk| && !Skipped(walk[i].dirpath, skip) && p in MarkdownIn(walk[i].dirpath, walk[i].filenames);
        if i < |walk| - 1 {
          assert init[i] == walk[i];
        }
      }
      if exists i :: 0 <= i < |init| && !Skipped(init[i].dirpath, skip) && p in MarkdownIn(init[i].dirpath, init[i].filenames) {
        var i :| 0 <= i < |init| && !Skipped(init[i].dirpath, skip) && p in MarkdownIn(init[i].dirpath, init[i].filenames);
        assert walk[i] == init[i];
      }
    }
  }

  /** With an empty skip list every Markdown file of the walk is found, as
      by the search without a skip list. */
  lemma {:induction false} EmptySkipFindsAll(walk: seq<WalkDir>)
    ensures MarkdownFilesSkipping(walk, []) == MarkdownFiles(walk)
  {
    if walk != [] {
      EmptySkipFindsAll(walk[..|walk| - 1]);
    }
  }

  /** Skipping only removes files: every file found with a skip list is
      also found without one. */
  lemma {:induction false} SkippingOnlyRemoves(walk: seq<WalkDir>, skip: seq<string>, p: string)
    ensures p in MarkdownFilesSkipping(walk, skip) ==> p in MarkdownFiles(walk)
  {
    if walk != [] {
      SkippingOnlyRemoves(walk[..|walk| - 1], skip, p);
    }
  }

  /** Every path found in one directory is a Markdown file. */
  lemma {:induction false} FoundInDirAreMarkdown(dirpath: string, names: seq<string>, p: string)
    requires p in MarkdownIn(dirpath, names)
    ensures IsMarkdownFile(p)
  {
    var init := names[..|names| - 1];
    var f := names[|names| - 1];
    if p in MarkdownIn(dirpath, init) {
      FoundInDirAreMarkdown(dirpath, init, p);
    } else {
      assert IsMarkdownFile(f) && p == Join(dirpath, f);
      JoinEndsWith(dirpath, f);
      EndsWithSuffix(p, f, ".md");
    }
  }

  /** Everything found is a Markdown file. */
  lemma FoundAreMarkdown(walk: seq<WalkDir>, skip: seq<string>, p: string)
    requires p in MarkdownFilesSkipping(walk, skip)
    ensures IsMarkdownFile(p)
  {
    MarkdownFilesSkippingMember(walk, skip, p);
    var i :| 0 <= i < |walk| && !Skipped(walk[i].dirpath, skip) && p in MarkdownIn(walk[i].dirpath, walk[i].filenames);
    FoundInDirAreMarkdown(walk[i].dirpath, walk[i].filenames, p);
  }

  /** A directory below a skipped directory is skipped as well. */
  lemma SkippedBelow(dirpath: string, child: string, skip: seq<string>)
    requires Skipped(dirpath, skip)
    requires dirpath != "" && dirpath[|dirpath| - 1] != '/'
    requires IsName(child)
    ensures Skipped(Join(dirpath, child), skip)
  {
    assert !StartsWith(child, "/") by {
      assert child[0] in child;
    }
    assert Join(dirpath, child) == dirpath + "/" + child;
    SplitAround(dirpath, '/', child);
    var s :| s in skip && s in Split(dirpath, '/');
    assert s in Split(Join(dirpath, child), '/');
  }

  /** A directory is skipped exactly when one of its components, as
      written, is in the skip list. */
  lemma SkippedByComponents(parts: seq<string>, skip: seq<string>)
    requires |parts| >= 1
    requires forall i :: 0 <= i < |parts| ==> '/' !in parts[i]
    ensures Skipped(JoinWith(parts, '/'), skip) <==> exists s :: s in skip && s in parts
  {
    SplitJoin(parts, '/');
  }

  /** Skip names match whole components only: `draft` skips `src/draft`
      and not `src/drafts`. */
  lemma SkipMatchesWholeComponents()
    ensures Skipped("src/draft", ["draft"])
    ensures !Skipped("src/drafts", ["draft"])
  {
    var a := ["src", "draft"];
    var b := ["src", "drafts"];
    assert JoinWith(a, '/') == "src/draft" by {
      assert a[1..] == ["draft"];
    }
    assert JoinWith(b, '/') == "src/drafts" by {
      assert b[1..] == ["drafts"];
    }
    SkippedByComponents(a, ["draft"]);
    SkippedByComponents(b, ["draft"]);
    assert "draft" in ["draft"] && "draft" == a[1];
    assert "draft" != "drafts";
  }

  /** What a walk of `top` yields: directories that are `top` or lie below
      it, holding plain file names. */
  predicate WalkBelow(walk: seq<WalkDir>, top: string) {
    forall i :: 0 <= i < |walk| ==>
      && (walk[i].dirpath == top || StartsWith(walk[i].dirpath, top + "/"))
      && forall j :: 0 <= j < |walk[i].filenames| ==> IsName(walk[i].filenames[j])
  }

  /** Every file found in a walk of `top` lies below `top`. */
  lemma FoundBelow(walk: seq<WalkDir>, top: string, p: string)
    requires WalkBelow(walk, top)
    requires top != "" && top[|top| - 1] != '/'
    requires p in MarkdownFiles(walk)
    ensures StartsWith(p, top + "/")
  {
    EmptySkipFindsAll(walk);
    MarkdownFilesSkippingMember(walk, [], p);
    var i :| 0 <= i < |walk| && !Skipped(walk[i].dirpath, []) && p in MarkdownIn(walk[i].dirpath, walk[i].filenames);
    var d := walk[i].dirpath;
    MarkdownInMember(d, walk[i].filenames, p);
    var f :| f in walk[i].filenames && IsMarkdownFile(f) && p == Join(d, f);
    var j :| 0 <= j < |walk[i].filenames| && walk[i].filenames[j] == f;
    assert IsName(f);
    assert !StartsWith(f, "/") by {
      assert f[0] in f;
    }
    if d == top {
      assert !EndsWith(top, "/");
      assert p == top + "/" + f;
      assert p[..|top| + 1] == top + "/";
    } else {
      assert d != "";
      assert p[..|d|] == d;
      assert p[..|top| + 1] == d[..|top| + 1];
    }
  }
}
