/** The pieces of Python's `posixpath` the scripts use, with `/` as the
    separator: `join`, `basename`, `dirname`, `splitext` and `relpath`. */
module Paths {
  import opened Text
  import opened Seqs

  /** `os.path.join(a, b)` */
  function Join(a: string, b: string): string {
    if StartsWith(b, "/") then b
    else if a == "" || EndsWith(a, "/") then a + b
    else a + "/" + b
  }

  /** `s.rfind(c)`: the last index holding `c`, or -1. */
  function RFind(s: string, c: char): (r: int)
    ensures -1 <= r < |s|
    ensures r >= 0 ==> s[r] == c
    ensures forall i :: r < i < |s| ==> s[i] != c
  {
    if s == [] then -1 else if s[|s| - 1] == c then |s| - 1 else RFind(s[..|s| - 1], c)
  }

  /** `os.path.basename(p)`: what follows the last `/`. */
  function Basename(p: string): (b: string)
    ensures '/' !in b
    ensures |b| <= |p| && b == p[|p| - |b|..]
    ensures |b| < |p| ==> p[|p| - |b| - 1] == '/'
  {
    var i := RFind(p, '/');
    assert '/' !in p[i + 1..] by {
      forall m | i + 1 <= m < |p| ensures p[m] != '/' {
      }
    }
    p[i + 1..]
  }

  /** `s.rstrip(c)` */
  function RStrip(s: string, c: char): (r: string)
    ensures r <= s
    ensures r == [] || r[|r| - 1] != c
    ensures forall i :: |r| <= i < |s| ==> s[i] == c
  {
    if s != [] && s[|s| - 1] == c then RStrip(s[..|s| - 1], c) else s
  }

  predicate AllSlashes(s: string) {
    forall i :: 0 <= i < |s| ==> s[i] == '/'
  }

  /** `os.path.dirname(p)`: everything up to the last `/`, with trailing
      slashes removed unless it is nothing but slashes. */
  function Dirname(p: string): string {
    var head := p[..RFind(p, '/') + 1];
    if head != "" && !AllSlashes(head) then RStrip(head, '/') else head
  }

  predicate HasNonDot(p: string, lo: int, hi: int)
    requires 0 <= lo <= hi <= |p|
  {
    exists k :: lo <= k < hi && p[k] != '.'
  }

  /** The dot at `d` starts the extension of `p`: it is the last dot, no
      separator follows it, and the last component has a character other
      than a dot before it. */
  predicate ExtensionAt(p: string, d: int) {
    0 <= d < |p| && p[d] == '.' && '.' !in p[d + 1..] && '/' !in p[d + 1..]
    && exists k :: 0 <= k < d && p[k] != '.' && '/' !in p[k..d]
  }

  /** `os.path.splitext(p)[0]`: `p` without its extension, or all of `p`
      when it has none. */
  function SplitExtRoot(p: string): (root: string)
    ensures root <= p
    ensures root != p ==> ExtensionAt(p, |root|)
    ensures root == p ==> forall d :: !ExtensionAt(p, d)
  {
    var sepIndex := RFind(p, '/');
    var dotIndex := RFind(p, '.');
    ExtensionIsLastDot(p);
    if dotIndex > sepIndex && HasNonDot(p, sepIndex + 1, dotIndex) then
      var k :| sepIndex + 1 <= k < dotIndex && p[k] != '.';
      assert '/' !in p[k..dotIndex] by {
        forall m | k <= m < dotIndex ensures p[m] != '/' {
        }
      }
      assert ExtensionAt(p, dotIndex);
      p[..dotIndex]
    else
      p
  }

  /** A dot that starts the extension is the last dot, after the last
      separator, with a character other than a dot between the two. */
  lemma ExtensionIsLastDot(p: string)
    ensures forall d :: ExtensionAt(p, d) ==>
      && RFind(p, '.') == d
      && RFind(p, '/') < d
      && HasNonDot(p, RFind(p, '/') + 1, d)
  {
    forall d | ExtensionAt(p, d)
      ensures RFind(p, '.') == d && RFind(p, '/') < d && HasNonDot(p, RFind(p, '/') + 1, d)
    {
      var k :| 0 <= k < d && p[k] != '.' && '/' !in p[k..d];
      forall m | d < m < |p| ensures p[m] != '.' && p[m] != '/' {
        assert p[m] == p[d + 1..][m - d - 1];
      }
      forall m | k <= m < d ensures p[m] != '/' {
        assert p[m] == p[k..d][m - k];
      }
    }
  }

  predicate NonEmpty(s: string) { s != "" }

  /** `[x for x in p.split('/') if x]`, the components `relpath` compares. */
  function Segments(p: string): seq<string> {
    Filter(Split(p, '/'), NonEmpty)
  }

  function CommonPrefixLength(a: seq<string>, b: seq<string>): (n: nat)
    ensures n <= |a| && n <= |b| && a[..n] == b[..n]
    ensures n < |a| && n < |b| ==> a[n] != b[n]
  {
    if a == [] || b == [] || a[0] != b[0] then 0
    else
      var m := CommonPrefixLength(a[1..], b[1..]);
      assert a[..m + 1] == [a[0]] + a[1..][..m];
      assert b[..m + 1] == [b[0]] + b[1..][..m];
      m + 1
  }

  function Repeat(x: string, n: nat): (r: seq<string>)
    ensures |r| == n && forall i :: 0 <= i < n ==> r[i] == x
  {
    if n == 0 then [] else [x] + Repeat(x, n - 1)
  }

  /** `os.path.relpath(path, start)`: one `..` for every component of `start`
      past the common prefix, then the rest of `path`; `.` when nothing is
      left. Both are compared component by component as given; making them
      absolute against the working directory first cancels out when they
      share it. */
  function RelPath(path: string, start: string): string {
    var s := Segments(start);
    var t := Segments(path);
    var n := CommonPrefixLength(s, t);
    var rel := Repeat("..", |s| - n) + t[n..];
    if rel == [] then "." else JoinWith(rel, '/')
  }

  /** A joined path ends with the name joined onto it. */
  lemma JoinEndsWith(a: string, b: string)
    ensures EndsWith(Join(a, b), b)
  {
  }

  /** `filename.endswith(".md")`: the files the generators pick up. */
  predicate IsMarkdownFile(f: string) {
    EndsWith(f, ".md")
  }

  /** A plain file name: not empty and no separator in it. */
  predicate IsName(f: string) {
    f != "" && '/' !in f
  }

  lemma RFindAfterSeparator(x: string, f: string)
    requires x == "" || x[|x| - 1] == '/'
    requires '/' !in f
    ensures RFind(x + f, '/') == |x| - 1
  {
    var s := x + f;
    if x != "" {
      assert s[|x| - 1] == '/';
    }
  }

  /** The base name of a file joined onto a directory is the file's name. */
  lemma BasenameOfJoin(d: string, f: string)
    requires IsName(f)
    ensures Basename(Join(d, f)) == f
  {
    if d == "" || EndsWith(d, "/") {
      RFindAfterSeparator(d, f);
      assert (d + f)[|d|..] == f;
    } else {
      RFindAfterSeparator(d + "/", f);
      assert d + "/" + f == (d + "/") + f;
      assert (d + "/" + f)[|d| + 1..] == f;
    }
  }

  /** The directory name of `a/b` is `a`, when `a` does not end with `/`. */
  lemma DirnameOfChild(a: string, b: string)
    requires a != "" && a[|a| - 1] != '/'
    requires '/' !in b
    ensures Dirname(a + "/" + b) == a
  {
    var p := a + "/" + b;
    RFindAfterSeparator(a + "/", b);
    assert p == (a + "/") + b;
    var head := p[..|a| + 1];
    assert head == a + "/";
    assert head[|a| - 1] != '/';
    var r := RStrip(head, '/');
    assert r == head[..|a|] == a;
  }

  /** The extension removed from a Markdown file name is `.md`, unless
      nothing but dots comes before it. */
  lemma SplitExtRootOfMarkdown(f: string)
    requires '/' !in f && IsMarkdownFile(f)
    requires HasNonDot(f, 0, |f| - 3)
    ensures SplitExtRoot(f) == f[..|f| - 3]
  {
    assert f[|f| - 3..] == ".md";
    var dotIndex := RFind(f, '.');
    assert f[|f| - 3] == '.' && f[|f| - 2] == 'm' && f[|f| - 1] == 'd';
    assert dotIndex == |f| - 3;
  }

  lemma SegmentsAround(a: string, b: string)
    ensures Segments(a + "/" + b) == Segments(a) + Segments(b)
  {
    SplitAround(a, '/', b);
    FilterConcat(Split(a, '/'), Split(b, '/'), NonEmpty);
  }

  lemma SegmentsOfName(f: string)
    requires IsName(f)
    ensures Segments(f) == [f]
  {
    SplitNoSeparator(f, '/');
  }

  lemma SegmentsOfEmpty()
    ensures Segments("") == []
  {
    assert Split("", '/') == [""];
  }

  /** A trailing separator adds no component. */
  lemma SegmentsOfTrailingSlash(d: string)
    ensures Segments(d + "/") == Segments(d)
  {
    assert d + "/" == d + "/" + "";
    SegmentsAround(d, "");
    SegmentsOfEmpty();
  }

  /** The components of a file joined onto a directory are the directory's
      components followed by the file name. */
  lemma SegmentsOfJoin(d: string, f: string)
    requires IsName(f)
    ensures Segments(Join(d, f)) == Segments(d) + [f]
  {
    SegmentsOfName(f);
    assert !StartsWith(f, "/") by {
      assert f[0] in f;
    }
    if d == "" {
      assert Join(d, f) == f;
      SegmentsOfEmpty();
    } else if EndsWith(d, "/") {
      var d' := d[..|d| - 1];
      assert d == d' + "/";
      assert Join(d, f) == d' + "/" + f;
      SegmentsAround(d', f);
      SegmentsOfTrailingSlash(d');
    } else {
      assert Join(d, f) == d + "/" + f;
      SegmentsAround(d, f);
    }
  }

  /** The components kept by `Segments` are names. */
  lemma SegmentsAreNames(p: string)
    ensures forall i :: 0 <= i < |Segments(p)| ==> IsName(Segments(p)[i])
  {
    var parts := Split(p, '/');
    forall i | 0 <= i < |Segments(p)| ensures IsName(Segments(p)[i]) {
      var x := Segments(p)[i];
      assert x in Segments(p);
      assert x in parts && NonEmpty(x);
      var j :| 0 <= j < |parts| && parts[j] == x;
    }
  }

  /** The components after a prefix hold no separator. */
  lemma SegmentsSuffixAreNames(p: string, prefix: seq<string>, below: seq<string>)
    requires Segments(p) == prefix + below
    ensures forall i :: 0 <= i < |below| ==> '/' !in below[i]
  {
    SegmentsAreNames(p);
    forall i | 0 <= i < |below| ensures '/' !in below[i] {
      assert below[i] == Segments(p)[|prefix| + i];
    }
  }

  /** For a path below `start`, `relpath` is the part below `start`. */
  lemma RelPathBelow(path: string, start: string, rest: seq<string>)
    requires Segments(path) == Segments(start) + rest
    requires rest != []
    ensures RelPath(path, start) == JoinWith(rest, '/')
  {
    var s := Segments(start);
    var t := Segments(path);
    var n := CommonPrefixLength(s, t);
    assert n == |s|;
    assert Repeat("..", 0) + t[n..] == rest;
  }
}
