/** The operations of Python's `str` type that the site scripts rely on:
    prefix and suffix tests, `replace`, `strip`, `split`, `join` and
    ordering. Strings are sequences of code points. */
module Text {

  predicate StartsWith(s: string, prefix: string) {
    |prefix| <= |s| && s[..|prefix|] == prefix
  }

  predicate EndsWith(s: string, suffix: string) {
    |suffix| <= |s| && s[|s| - |suffix|..] == suffix
  }

  /** A suffix of a suffix is a suffix. */
  lemma EndsWithSuffix(s: string, t: string, u: string)
    requires EndsWith(s, t) && EndsWith(t, u)
    ensures EndsWith(s, u)
  {
    assert s[|s| - |u|..] == t[|t| - |u|..];
  }

  /** `pat` occurs in `s` starting at index `i`. */
  predicate OccursAt(s: string, pat: string, i: nat) {
    i + |pat| <= |s| && s[i..i + |pat|] == pat
  }

  /** `s.replace(pat, rep)` for a non-empty `pat`: the occurrences are found
      left to right, do not overlap, and every one of them is replaced. */
  function ReplaceAll(s: string, pat: string, rep: string): string
    requires pat != ""
    decreases |s|
  {
    if |s| < |pat| then s
    else if s[..|pat|] == pat then rep + ReplaceAll(s[|pat|..], pat, rep)
    else [s[0]] + ReplaceAll(s[1..], pat, rep)
  }

  /** An occurrence at the start is replaced, then the rest is searched. */
  lemma ReplaceAtStart(pat: string, w: string, rep: string)
    requires pat != ""
    ensures ReplaceAll(pat + w, pat, rep) == rep + ReplaceAll(w, pat, rep)
  {
    assert (pat + w)[..|pat|] == pat && (pat + w)[|pat|..] == w;
  }

  /** A first character that does not start `pat` is kept. */
  lemma ReplaceSkipFirst(c: char, w: string, pat: string, rep: string)
    requires pat != "" && c != pat[0]
    ensures ReplaceAll([c] + w, pat, rep) == [c] + ReplaceAll(w, pat, rep)
  {
    var s := [c] + w;
    assert s[0] == c && s[1..] == w;
    if |s| >= |pat| {
      assert s[..|pat|][0] == c;
    }
  }

  /** A prefix without the first character of `pat` is kept as it is. */
  lemma {:induction false} ReplaceCleanPrefix(w: string, t: string, pat: string, rep: string)
    requires pat != "" && pat[0] !in w
    ensures ReplaceAll(w + t, pat, rep) == w + ReplaceAll(t, pat, rep)
  {
    var r := ReplaceAll(t, pat, rep);
    if w == [] {
      assert w + t == t && w + r == r;
    } else {
      var c := w[0];
      var w' := w[1..];
      assert c in w;
      assert w + t == [c] + (w' + t);
      assert w + r == [c] + (w' + r);
      ReplaceSkipFirst(c, w' + t, pat, rep);
      ReplaceCleanPrefix(w', t, pat, rep);
    }
  }

  /** A string in which `pat` does not occur is left as it is. */
  lemma {:induction false} ReplaceAbsent(s: string, pat: string, rep: string)
    requires pat != ""
    requires forall i: nat :: !OccursAt(s, pat, i)
    ensures ReplaceAll(s, pat, rep) == s
  {
    if |s| >= |pat| {
      assert !OccursAt(s, pat, 0);
      forall i: nat ensures !OccursAt(s[1..], pat, i) {
        assert !OccursAt(s, pat, i + 1);
        if i + |pat| <= |s[1..]| {
          assert s[1..][i..i + |pat|] == s[i + 1..i + 1 + |pat|];
        }
      }
      ReplaceAbsent(s[1..], pat, rep);
    }
  }

  /** When `pat` occurs in `w + pat` only at its end, only that occurrence is
      replaced. */
  lemma {:induction false} ReplaceOnlySuffix(w: string, pat: string, rep: string)
    requires pat != ""
    requires forall i: nat :: i < |w| ==> !OccursAt(w + pat, pat, i)
    ensures ReplaceAll(w + pat, pat, rep) == w + rep
  {
    var s := w + pat;
    if w == [] {
      assert s == pat && s[..|pat|] == pat && s[|pat|..] == [];
    } else {
      assert !OccursAt(s, pat, 0);
      assert s[1..] == w[1..] + pat;
      forall i: nat | i < |w[1..]| ensures !OccursAt(w[1..] + pat, pat, i) {
        assert !OccursAt(s, pat, i + 1);
        assert (w[1..] + pat)[i..i + |pat|] == s[i + 1..i + 1 + |pat|];
      }
      ReplaceOnlySuffix(w[1..], pat, rep);
      assert [s[0]] + (w[1..] + rep) == w + rep;
    }
  }

  /** `pat` cannot start inside `w` when its first character is not in `w`. */
  lemma FirstCharAbsent(w: string, pat: string)
    requires pat != "" && pat[0] !in w
    ensures forall i: nat :: i < |w| ==> !OccursAt(w + pat, pat, i)
  {
    forall i: nat | i < |w| ensures !OccursAt(w + pat, pat, i) {
      assert (w + pat)[i] == w[i];
    }
  }

  /** Replacing never brings in a character that neither the string nor
      the replacement holds. */
  lemma {:induction false} ReplaceKeepsOut(s: string, pat: string, rep: string, c: char)
    requires pat != "" && c !in s && c !in rep
    ensures c !in ReplaceAll(s, pat, rep)
    decreases |s|
  {
    if |s| >= |pat| {
      if s[..|pat|] == pat {
        ReplaceKeepsOut(s[|pat|..], pat, rep, c);
      } else {
        ReplaceKeepsOut(s[1..], pat, rep, c);
      }
    }
  }

  /** The characters `str.isspace` and `str.strip()` treat as white space. */
  predicate IsSpace(c: char) {
    c == ' ' || ('\t' <= c <= '\r') || ('\U{1C}' <= c <= '\U{1F}')
    || c == '\U{85}' || c == '\U{A0}' || c == '\U{1680}'
    || ('\U{2000}' <= c <= '\U{200A}') || c == '\U{2028}' || c == '\U{2029}'
    || c == '\U{202F}' || c == '\U{205F}' || c == '\U{3000}'
  }

  /** `s.lstrip()`: the suffix of `s` that follows its leading white space. */
  function TrimStart(s: string): (r: string)
    ensures |r| <= |s| && r == s[|s| - |r|..]
    ensures r == [] || !IsSpace(r[0])
    ensures forall i :: 0 <= i < |s| - |r| ==> IsSpace(s[i])
  {
    if s != [] && IsSpace(s[0]) then
      var r := TrimStart(s[1..]);
      assert forall i :: 1 <= i < |s| ==> s[i] == s[1..][i - 1];
      r
    else s
  }

  /** `s.rstrip()`: the prefix of `s` that precedes its trailing white space. */
  function TrimEnd(s: string): (r: string)
    ensures |r| <= |s| && r == s[..|r|]
    ensures r == [] || !IsSpace(r[|r| - 1])
    ensures forall i :: |r| <= i < |s| ==> IsSpace(s[i])
  {
    if s != [] && IsSpace(s[|s| - 1]) then
      var r := TrimEnd(s[..|s| - 1]);
      assert forall i :: 0 <= i < |s| - 1 ==> s[i] == s[..|s| - 1][i];
      r
    else s
  }

  /** `s` is white space, then `r` from index `i`, then white space. */
  predicate SpaceAround(s: string, i: int, r: string) {
    0 <= i <= |s| - |r| && r == s[i..i + |r|]
    && (forall k :: 0 <= k < i ==> IsSpace(s[k]))
    && (forall k :: i + |r| <= k < |s| ==> IsSpace(s[k]))
  }

  /** `s.strip()`: the part of `s` between its leading and its trailing
      white space, which neither begins nor ends with white space; nothing
      is left exactly when `s` is all white space. */
  function Strip(s: string): (r: string)
    ensures |r| <= |s|
    ensures exists i :: SpaceAround(s, i, r)
    ensures r == [] || (!IsSpace(r[0]) && !IsSpace(r[|r| - 1]))
    ensures r == [] <==> forall i :: 0 <= i < |s| ==> IsSpace(s[i])
  {
    var t := TrimStart(s);
    var r := TrimEnd(t);
    var i := |s| - |t|;
    assert r == s[i..i + |r|];
    assert forall k :: i + |r| <= k < |s| ==> s[k] == t[k - i];
    assert SpaceAround(s, i, r);
    assert r == [] ==> t == [];
    r
  }

  /** A string that neither begins nor ends with white space is its own
      `strip()`. */
  lemma StripNonSpace(s: string)
    requires s != [] && !IsSpace(s[0]) && !IsSpace(s[|s| - 1])
    ensures Strip(s) == s
  {
    assert TrimStart(s) == s;
  }

  /** `s.split(sep)` for a one-character separator: the pieces between the
      separators, empty pieces included; there is always at least one. */
  function Split(s: string, sep: char): (parts: seq<string>)
    ensures |parts| >= 1
    ensures forall i :: 0 <= i < |parts| ==> sep !in parts[i]
    decreases |s|
  {
    if s == [] then [[]]
    else if s[0] == sep then [[]] + Split(s[1..], sep)
    else
      var t := Split(s[1..], sep);
      [[s[0]] + t[0]] + t[1..]
  }

  /** `sep.join(parts)` for a non-empty list. */
  function JoinWith(parts: seq<string>, sep: char): string
    requires |parts| >= 1
  {
    if |parts| == 1 then parts[0] else parts[0] + [sep] + JoinWith(parts[1..], sep)
  }

  lemma {:induction false} SplitNoSeparator(s: string, sep: char)
    requires sep !in s
    ensures Split(s, sep) == [s]
  {
    if s != [] {
      SplitNoSeparator(s[1..], sep);
      assert [s[0]] + s[1..] == s;
    }
  }

  /** `split` on a string that starts with the separator. */
  lemma SplitConsSep(rest: string, sep: char)
    ensures Split([sep] + rest, sep) == [[]] + Split(rest, sep)
  {
    assert ([sep] + rest)[1..] == rest;
  }

  /** `split` on a string that starts with another character. */
  lemma SplitConsOther(c: char, rest: string, sep: char)
    requires c != sep
    ensures Split([c] + rest, sep) == [[c] + Split(rest, sep)[0]] + Split(rest, sep)[1..]
  {
    assert ([c] + rest)[0] == c && ([c] + rest)[1..] == rest;
  }

  lemma ConsAssoc(h: string, t: seq<string>, u: seq<string>, v: seq<string>)
    requires t == u + v
    ensures [h] + t == ([h] + u) + v
  {
  }

  lemma PrependPieceAssoc(c: char, t: seq<string>, u: seq<string>, v: seq<string>)
    requires |u| >= 1 && t == u + v
    ensures [[c] + t[0]] + t[1..] == ([[c] + u[0]] + u[1..]) + v
  {
    assert t[0] == u[0] && t[1..] == u[1..] + v;
  }

  /** One step of `SplitAround`: a character put in front of `a`. */
  lemma SplitAroundStep(c: char, a: string, sep: char, b: string)
    requires Split(a + [sep] + b, sep) == Split(a, sep) + Split(b, sep)
    ensures Split([c] + (a + [sep] + b), sep) == Split([c] + a, sep) + Split(b, sep)
  {
    var x := a + [sep] + b;
    if c == sep {
      SplitConsSep(x, sep);
      SplitConsSep(a, sep);
      ConsAssoc([], Split(x, sep), Split(a, sep), Split(b, sep));
    } else {
      SplitConsOther(c, x, sep);
      SplitConsOther(c, a, sep);
      PrependPieceAssoc(c, Split(x, sep), Split(a, sep), Split(b, sep));
    }
  }

  /** Splitting distributes over a separator. */
  lemma {:induction false} SplitAround(a: string, sep: char, b: string)
    ensures Split(a + [sep] + b, sep) == Split(a, sep) + Split(b, sep)
  {
    if a == [] {
      assert a + [sep] + b == [sep] + b;
      SplitConsSep(b, sep);
    } else {
      SplitAround(a[1..], sep, b);
      SplitAroundStep(a[0], a[1..], sep, b);
      assert [a[0]] + a[1..] == a;
      assert [a[0]] + (a[1..] + [sep] + b) == a + [sep] + b;
    }
  }

  /** Joining the pieces of a split gives back the string. */
  lemma {:induction false} JoinSplit(s: string, sep: char)
    ensures JoinWith(Split(s, sep), sep) == s
  {
    if s != [] {
      JoinSplit(s[1..], sep);
      var t := Split(s[1..], sep);
      if s[0] != sep {
        var parts := [[s[0]] + t[0]] + t[1..];
        if |t| == 1 {
          assert JoinWith(parts, sep) == [s[0]] + t[0];
        } else {
          assert parts[1..] == t[1..];
          assert JoinWith(t, sep) == t[0] + [sep] + JoinWith(t[1..], sep);
        }
      } else {
        assert Split(s, sep) == [[]] + t;
        assert ([[]] + t)[1..] == t;
      }
    }
  }

  /** Splitting a join of separator-free pieces gives back the pieces. */
  lemma {:induction false} SplitJoin(parts: seq<string>, sep: char)
    requires |parts| >= 1
    requires forall i :: 0 <= i < |parts| ==> sep !in parts[i]
    ensures Split(JoinWith(parts, sep), sep) == parts
  {
    SplitNoSeparator(parts[0], sep);
    if |parts| > 1 {
      SplitJoin(parts[1..], sep);
      SplitAround(parts[0], sep, JoinWith(parts[1..], sep));
      assert [parts[0]] + parts[1..] == parts;
    }
  }

  /** Python's `a <= b` on strings: lexicographic order by code point, a
      proper prefix first. */
  predicate LexLe(a: string, b: string) {
    a == [] || (b != [] && (a[0] < b[0] || (a[0] == b[0] && LexLe(a[1..], b[1..]))))
  }

  lemma {:induction false} LexLeReflexive(a: string)
    ensures LexLe(a, a)
  {
    if a != [] { LexLeReflexive(a[1..]); }
  }

  lemma {:induction false} LexLeTotal(a: string, b: string)
    ensures LexLe(a, b) || LexLe(b, a)
  {
    if a != [] && b != [] && a[0] == b[0] { LexLeTotal(a[1..], b[1..]); }
  }

  lemma {:induction false} LexLeTransitive(a: string, b: string, c: string)
    requires LexLe(a, b) && LexLe(b, c)
    ensures LexLe(a, c)
  {
    if a != [] && b != [] && c != [] && a[0] == b[0] == c[0] {
      LexLeTransitive(a[1..], b[1..], c[1..]);
    }
  }

  lemma {:induction false} LexLeAntisymmetric(a: string, b: string)
    requires LexLe(a, b) && LexLe(b, a)
    ensures a == b
  {
    if a != [] && b != [] {
      LexLeAntisymmetric(a[1..], b[1..]);
      assert a == [a[0]] + a[1..] && b == [b[0]] + b[1..];
    }
  }
}
