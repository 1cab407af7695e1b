/** Where the collection-based generators write each page, and what is left
    in the build directory after a sequence of writes. */
module Routes {
  import opened Text
  import opened Seqs
  import opened Values
  import opened Paths
  import opened Collections

  /** The template every collection page is rendered with. */
  const BaseTemplate := "base.html"

  /** The output path of `render_html`: pages of the `root` collection go
      straight into the build directory, the others into a directory named
      after their collection. The file written is named after the stem. */
  function OutputPath(buildDir: string, collection: string, fn: string): (r: string)
    ensures '/' !in fn ==> Basename(r) == fn + ".html"
  {
    var dir := if collection == "root" then buildDir else Join(buildDir, collection);
    var name := fn + ".html";
    if '/' in fn then Join(dir, name)
    else
      assert IsName(name);
      BasenameOfJoin(dir, name);
      Join(dir, name)
  }

  /** One rendering: the file written, the template, the record it was
      given and the extra `lump` value, when there is one. */
  datatype Rendered = Rendered(path: string, template: string, data: FileData, lump: Option<string>)

  /** The files on disk after the writes, in order: a later write to a path
      replaces an earlier one. */
  function Written(writes: seq<Rendered>): map<string, Rendered> {
    if writes == [] then map[]
    else
      var w := writes[|writes| - 1];
      Written(writes[..|writes| - 1])[w.path := w]
  }

  /** The components of an output path: those of the build directory, the
      collection unless it is `root`, and the page's file name. */
  lemma OutputPathSegments(buildDir: string, collection: string, fn: string)
    requires IsName(collection) && '/' !in fn
    ensures Segments(OutputPath(buildDir, collection, fn))
      == Segments(buildDir) + (if collection == "root" then [] else [collection]) + [fn + ".html"]
  {
    assert IsName(fn + ".html");
    if collection == "root" {
      SegmentsOfJoin(buildDir, fn + ".html");
      assert Segments(buildDir) + [] == Segments(buildDir);
    } else {
      SegmentsOfJoin(buildDir, collection);
      SegmentsOfJoin(Join(buildDir, collection), fn + ".html");
    }
  }

  /** The output path determines the stem and the collection: two
      different (collection, stem) pairs never share one. */
  lemma OutputPathInjective(buildDir: string, c1: string, f1: string, c2: string, f2: string)
    requires IsName(c1) && IsName(c2) && '/' !in f1 && '/' !in f2
    requires OutputPath(buildDir, c1, f1) == OutputPath(buildDir, c2, f2)
    ensures f1 == f2
    ensures c1 == "root" <==> c2 == "root"
    ensures c1 != "root" ==> c1 == c2
  {
    OutputPathSegments(buildDir, c1, f1);
    OutputPathSegments(buildDir, c2, f2);
    var s1 := Segments(OutputPath(buildDir, c1, f1));
    var n := |Segments(buildDir)|;
    assert f1 + ".html" == s1[|s1| - 1];
    assert f1 == (f1 + ".html")[..|f1|];
    assert f2 == (f2 + ".html")[..|f2|];
    if c1 != "root" && c2 != "root" {
      assert s1[n] == c1;
    }
  }

  /** The empty collection, which `split` gives for an absolute path,
      writes to the same file as the `root` collection. */
  lemma EmptyCollectionSharesRoot(buildDir: string, fn: string)
    ensures OutputPath(buildDir, "", fn) == OutputPath(buildDir, "root", fn)
  {
    var name := fn + ".html";
    var d := Join(buildDir, "");
    if buildDir == "" || EndsWith(buildDir, "/") {
      assert d == buildDir;
    } else if !StartsWith(name, "/") {
      assert d == buildDir + "/";
      assert EndsWith(d, "/");
      assert Join(d, name) == buildDir + "/" + name;
    }
  }

  /** Every written path holds the last rendering made to it. */
  lemma {:induction false} LastWriteWins(writes: seq<Rendered>, i: nat)
    requires i < |writes|
    requires forall j :: i < j < |writes| ==> writes[j].path != writes[i].path
    ensures writes[i].path in Written(writes)
    ensures Written(writes)[writes[i].path] == writes[i]
  {
    var init := writes[..|writes| - 1];
    if i < |writes| - 1 {
      forall j | i < j < |init| ensures init[j].path != init[i].path {
        assert init[j] == writes[j];
      }
      LastWriteWins(init, i);
    }
  }

  /** A path is on disk exactly when some rendering wrote it. */
  lemma {:induction false} WrittenPaths(writes: seq<Rendered>, p: string)
    ensures p in Written(writes) <==> exists i :: 0 <= i < |writes| && writes[i].path == p
  {
    if writes != [] {
      var init := writes[..|writes| - 1];
      WrittenPaths(init, p);
      if exists i :: 0 <= i < |init| && init[i].path == p {
        var i :| 0 <= i < |init| && init[i].path == p;
        assert writes[i] == init[i];
      }
      if exists i :: 0 <= i < |writes| && writes[i].path == p {
        var i :| 0 <= i < |writes| && writes[i].path == p;
        if i < |init| {
          assert init[i] == writes[i];
        }
      }
    }
  }

  /** Two records with the same collection and stem are written to the same
      file, and the one rendered second is what remains. */
  lemma SameStemCollides(buildDir: string, a: FileData, b: FileData, ra: Rendered, rb: Rendered)
    requires a.collection == b.collection && a.fn == b.fn
    requires ra.path == OutputPath(buildDir, a.collection, a.fn)
    requires rb.path == OutputPath(buildDir, b.collection, b.fn)
    ensures ra.path == rb.path
    ensures Written([ra, rb]) == map[rb.path := rb]
  {
    assert [ra, rb][..1] == [ra];
    assert Written([ra]) == map[ra.path := ra] by {
      assert [ra][..0] == [];
    }
  }
}
