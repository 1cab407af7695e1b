/** The `sitemap.xml` text of the flat-site builder, in the layout of the
    Sitemap Protocol 0.9 (`<urlset>`, `<url>`, `<loc>`, `<lastmod>`), and a
    reader for that layout that recovers the entries from the text. */
module Sitemap {
  import opened Text
  import opened Values

  const XmlDecl := "<?xml version=\"1.0\" encoding=\"UTF-8\"?>"
  const SitemapNamespace := "http://www.sitemaps.org/schemas/sitemap/0.9"
  const UrlsetOpen := "<urlset xmlns=\"" + SitemapNamespace + "\">"
  const UrlsetClose := "</urlset>"

  /** One page of the sitemap: its absolute address and its date. */
  datatype UrlEntry = UrlEntry(loc: string, lastmod: string)

  /** The four lines of one entry, each ended by a newline. */
  function UrlBlock(e: UrlEntry): string {
    "<url>\n" + "<loc>" + e.loc + "</loc>\n" + "<lastmod>" + e.lastmod + "</lastmod>\n" + "</url>\n"
  }

  /** `''.join(sitemap_entries)` */
  function Blocks(es: seq<UrlEntry>): string {
    if es == [] then "" else UrlBlock(es[0]) + Blocks(es[1..])
  }

  /** The whole document: a leading newline, the declaration, the opening
      tag, the entries, an empty line and the closing tag. */
  function Document(entries: seq<UrlEntry>): (doc: string)
    ensures StartsWith(doc, "\n" + XmlDecl + "\n" + UrlsetOpen + "\n")
    ensures EndsWith(doc, "\n" + UrlsetClose + "\n")
  {
    var head := "\n" + XmlDecl + "\n" + UrlsetOpen + "\n";
    var tail := "\n" + UrlsetClose + "\n";
    var doc := head + Blocks(entries) + tail;
    assert doc[..|head|] == head;
    assert doc[|doc| - |tail|..] == tail;
    doc
  }

  /** The lines of one entry, without their newlines. */
  function EntryLines(e: UrlEntry): seq<string> {
    ["<url>", "<loc>" + e.loc + "</loc>", "<lastmod>" + e.lastmod + "</lastmod>", "</url>"]
  }

  function BlockLines(es: seq<UrlEntry>): seq<string> {
    if es == [] then [] else EntryLines(es[0]) + BlockLines(es[1..])
  }

  /** The text between `open` and `close` when `s` is `open + x + close`. */
  function Between(s: string, open: string, close: string): Option<string> {
    if |open| + |close| <= |s| && StartsWith(s, open) && EndsWith(s, close)
    then Some(s[|open|..|s| - |close|])
    else None
  }

  /** Reads entries back from their lines, four lines at a time. */
  function ParseBlocks(ls: seq<string>): Option<seq<UrlEntry>>
    decreases |ls|
  {
    if ls == [] then Some([])
    else if |ls| < 4 || ls[0] != "<url>" || ls[3] != "</url>" then None
    else
      var loc := Between(ls[1], "<loc>", "</loc>");
      var lastmod := Between(ls[2], "<lastmod>", "</lastmod>");
      var rest := ParseBlocks(ls[4..]);
      if loc.None? || lastmod.None? || rest.None? then None
      else Some([UrlEntry(loc.value, lastmod.value)] + rest.value)
  }

  /** Reads a sitemap document: the three header lines, the entries, and
      the empty line, the closing tag and the final empty piece. */
  function Parse(doc: string): Option<seq<UrlEntry>> {
    var ls := Split(doc, '\n');
    if |ls| < 6 || ls[..3] != ["", XmlDecl, UrlsetOpen] || ls[|ls| - 3..] != ["", UrlsetClose, ""]
    then None
    else ParseBlocks(ls[3..|ls| - 3])
  }

  /** Joining two non-empty lists of lines. */
  lemma {:induction false} JoinWithConcat(a: seq<string>, b: seq<string>, sep: char)
    requires |a| >= 1 && |b| >= 1
    ensures JoinWith(a + b, sep) == JoinWith(a, sep) + [sep] + JoinWith(b, sep)
  {
    if |a| > 1 {
      JoinWithConcat(a[1..], b, sep);
      assert (a + b)[1..] == a[1..] + b;
    } else {
      assert (a + b)[1..] == b;
    }
  }

  lemma JoinWithThree(a: string, b: string, c: string, sep: char)
    ensures JoinWith([a, b, c], sep) == a + [sep] + b + [sep] + c
  {
    assert [a, b, c][1..] == [b, c] && [b, c][1..] == [c];
    assert JoinWith([c], sep) == c;
    assert JoinWith([b, c], sep) == b + [sep] + c;
  }

  lemma JoinWithFour(a: string, b: string, c: string, d: string, sep: char)
    ensures JoinWith([a, b, c, d], sep) + [sep] == (a + [sep]) + (b + [sep]) + (c + [sep]) + (d + [sep])
  {
    assert [a, b, c, d][1..] == [b, c, d];
    JoinWithThree(b, c, d, sep);
  }

  /** An entry's text is its four lines, each followed by a newline. */
  lemma UrlBlockLines(e: UrlEntry)
    ensures UrlBlock(e) == JoinWith(EntryLines(e), '\n') + "\n"
  {
    var ls := EntryLines(e);
    JoinWithFour(ls[0], ls[1], ls[2], ls[3], '\n');
    assert ls == [ls[0], ls[1], ls[2], ls[3]];
    assert "<url>\n" == "<url>" + "\n";
    assert "<loc>" + e.loc + "</loc>\n" == ls[1] + "\n";
    assert "<lastmod>" + e.lastmod + "</lastmod>\n" == ls[2] + "\n";
    assert "</url>\n" == "</url>" + "\n";
  }

  lemma {:induction false} BlocksAsLines(es: seq<UrlEntry>)
    requires es != []
    ensures |BlockLines(es)| >= 1
    ensures Blocks(es) == JoinWith(BlockLines(es), '\n') + "\n"
  {
    var ls := EntryLines(es[0]);
    UrlBlockLines(es[0]);
    if |es| == 1 {
      assert BlockLines(es[1..]) == [];
      assert BlockLines(es) == ls;
    } else {
      BlocksAsLines(es[1..]);
      JoinWithConcat(ls, BlockLines(es[1..]), '\n');
    }
  }

  /** The frame of the document around the lines of its entries. */
  lemma FrameLines(x: string, o: string, c: string, body: seq<string>, blocks: string)
    requires body == [] ==> blocks == ""
    requires body != [] ==> blocks == JoinWith(body, '\n') + "\n"
    ensures ("\n" + x + "\n" + o + "\n") + blocks + ("\n" + c + "\n")
      == JoinWith(["", x, o] + body + ["", c, ""], '\n')
  {
    var head := ["", x, o];
    var tail := ["", c, ""];
    JoinWithThree("", x, o, '\n');
    JoinWithThree("", c, "", '\n');
    if body == [] {
      assert head + body + tail == head + tail;
      JoinWithConcat(head, tail, '\n');
    } else {
      JoinWithConcat(head, body, '\n');
      JoinWithConcat(head + body, tail, '\n');
    }
  }

  /** The document is the join, by newlines, of its lines. */
  lemma DocumentAsLines(es: seq<UrlEntry>)
    ensures Document(es) == JoinWith(["", XmlDecl, UrlsetOpen] + BlockLines(es) + ["", UrlsetClose, ""], '\n')
  {
    if es != [] {
      BlocksAsLines(es);
    }
    var x, o, c := XmlDecl, UrlsetOpen, UrlsetClose;
    assert Document(es) == ("\n" + x + "\n" + o + "\n") + Blocks(es) + ("\n" + c + "\n");
    FrameLines(x, o, c, BlockLines(es), Blocks(es));
  }

  lemma {:induction false} ParseBlockLines(es: seq<UrlEntry>)
    ensures ParseBlocks(BlockLines(es)) == Some(es)
  {
    if es != [] {
      var e := es[0];
      var ls := BlockLines(es);
      assert ls[4..] == BlockLines(es[1..]);
      ParseBlockLines(es[1..]);
      var l1 := "<loc>" + e.loc + "</loc>";
      var l2 := "<lastmod>" + e.lastmod + "</lastmod>";
      assert l1[5..|l1| - 6] == e.loc;
      assert l2[9..|l2| - 10] == e.lastmod;
      assert [es[0]] + es[1..] == es;
    }
  }

  predicate NoNewline(s: string) { '\n' !in s }

  /** Reading the document back gives the entries it was made from, in
      their order, provided no address or date holds a newline. */
  lemma SitemapRoundTrip(es: seq<UrlEntry>)
    requires forall i :: 0 <= i < |es| ==> NoNewline(es[i].loc) && NoNewline(es[i].lastmod)
    ensures Parse(Document(es)) == Some(es)
  {
    var ls := ["", XmlDecl, UrlsetOpen] + BlockLines(es) + ["", UrlsetClose, ""];
    DocumentAsLines(es);
    BlockLinesHaveNoNewline(es);
    FrameHasNoNewline();
    SplitJoin(ls, '\n');
    assert ls[3..|ls| - 3] == BlockLines(es);
    ParseBlockLines(es);
  }

  lemma FrameHasNoNewline()
    ensures NoNewline(XmlDecl) && NoNewline(UrlsetOpen) && NoNewline(UrlsetClose)
  {
    DeclHasNoNewline();
    TagsHaveNoNewline();
  }

  lemma DeclHasNoNewline()
    ensures NoNewline(XmlDecl)
  {
    assert '\n' !in XmlDecl;
  }

  lemma TagsHaveNoNewline()
    ensures NoNewline(UrlsetOpen) && NoNewline(UrlsetClose)
  {
    NamespaceHasNoNewline();
    assert '\n' !in UrlsetOpen;
    assert '\n' !in UrlsetClose;
  }

  lemma NamespaceHasNoNewline()
    ensures NoNewline(SitemapNamespace)
  {
    assert '\n' !in SitemapNamespace;
  }

  lemma {:induction false} BlockLinesHaveNoNewline(es: seq<UrlEntry>)
    requires forall i :: 0 <= i < |es| ==> NoNewline(es[i].loc) && NoNewline(es[i].lastmod)
    ensures forall i :: 0 <= i < |BlockLines(es)| ==> '\n' !in BlockLines(es)[i]
  {
    if es != [] {
      BlockLinesHaveNoNewline(es[1..]);
      var ls := EntryLines(es[0]);
      assert NoNewline("<url>") && NoNewline("</url>") && NoNewline("<loc>") && NoNewline("</loc>");
      assert NoNewline("<lastmod>") && NoNewline("</lastmod>");
      assert BlockLines(es) == ls + BlockLines(es[1..]);
    }
  }

  /** A document of `n` entries has `4 n + 6` lines. */
  lemma LineCount(es: seq<UrlEntry>)
    requires forall i :: 0 <= i < |es| ==> NoNewline(es[i].loc) && NoNewline(es[i].lastmod)
    ensures |Split(Document(es), '\n')| == 4 * |es| + 6
  {
    var ls := ["", XmlDecl, UrlsetOpen] + BlockLines(es) + ["", UrlsetClose, ""];
    DocumentAsLines(es);
    BlockLinesHaveNoNewline(es);
    FrameHasNoNewline();
    SplitJoin(ls, '\n');
    BlockLinesLength(es);
  }

  lemma {:induction false} BlockLinesLength(es: seq<UrlEntry>)
    ensures |BlockLines(es)| == 4 * |es|
  {
    if es != [] { BlockLinesLength(es[1..]); }
  }
}
