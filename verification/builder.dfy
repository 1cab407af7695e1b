/** The flat-site builder: the pages of one directory listing become an
    ordered site index, one rendered page per Markdown file and a sitemap.
    Reading files, converting Markdown, title-casing and rendering
    templates are given as functions; the clock as the date string. */
module Builder {
  import opened Text
  import opened Seqs
  import opened Values
  import opened Paths
  import opened SiteIndex
  import opened Sitemap

  const MarkdownDir := "markdown"
  const BuildDir := "build"
  const IndexTemplate := "index.html"
  const DefaultTemplate := "default.html"
  const BaseUrl := "https://yourdomain.com"

  /** `filename.replace(".md", "")`: every `.md` is removed, not only the
      extension. */
  function PageName(f: string): string {
    ReplaceAll(f, ".md", "")
  }

  /** The address a page is listed under in the index and the sitemap. */
  function PageUrl(f: string): string {
    "/" + PageName(f) + ".html"
  }

  /** `filename.replace(".md", ".html")`, the name of the written page. */
  function HtmlFilename(f: string): string {
    ReplaceAll(f, ".md", ".html")
  }

  /** The address a page's own entry is looked for under when it is taken
      out of the index the page is given. */
  function SelfUrl(f: string): string {
    "/" + HtmlFilename(f)
  }

  /** A file that gets an entry in the site index. */
  predicate IsListed(f: string) {
    IsMarkdownFile(f) && PageName(f) != "index"
  }

  /** The front-matter value under `key`, or `default`. */
  function Meta(post: Post, key: string, default: Value): Value {
    Get(post.metadata, key, default)
  }

  /** The site-index entry of one page. */
  function IndexEntryOf(f: string, post: Post, titleize: string -> string): IndexEntry {
    IndexEntry(
      Meta(post, "title", VStr(titleize(PageName(f)))),
      Meta(post, "desc", VStr("")),
      Meta(post, "imago", VStr("")),
      Meta(post, "css_class", VStr("")),
      PageUrl(f),
      Meta(post, "sort_class", VNone))
  }

  /** The sitemap entry of one page. */
  function UrlEntryOf(f: string, lastmod: string): UrlEntry {
    UrlEntry(BaseUrl + PageUrl(f), lastmod)
  }

  /** The post a listed file holds, read from the Markdown directory. */
  function PostOf(f: string, load: string -> Post): Post {
    load(Join(MarkdownDir, f))
  }

  /** The index entries of `files`, one each, in their order. */
  function IndexEntriesOf(files: seq<string>, load: string -> Post, titleize: string -> string): (r: seq<IndexEntry>)
    ensures |r| == |files|
    ensures forall i :: 0 <= i < |files| ==> r[i] == IndexEntryOf(files[i], PostOf(files[i], load), titleize)
  {
    if files == [] then []
    else
      var f := files[|files| - 1];
      IndexEntriesOf(files[..|files| - 1], load, titleize) + [IndexEntryOf(f, PostOf(f, load), titleize)]
  }

  /** The sitemap entries of `files`, one each, in their order. */
  function UrlEntriesOf(files: seq<string>, lastmod: string): (r: seq<UrlEntry>)
    ensures |r| == |files|
    ensures forall i :: 0 <= i < |files| ==> r[i] == UrlEntryOf(files[i], lastmod)
  {
    if files == [] then []
    else UrlEntriesOf(files[..|files| - 1], lastmod) + [UrlEntryOf(files[|files| - 1], lastmod)]
  }

  lemma IndexEntriesOfAppend(files: seq<string>, f: string, load: string -> Post, titleize: string -> string)
    ensures IndexEntriesOf(files + [f], load, titleize)
      == IndexEntriesOf(files, load, titleize) + [IndexEntryOf(f, PostOf(f, load), titleize)]
  {
    assert (files + [f])[..|files|] == files;
  }

  lemma UrlEntriesOfAppend(files: seq<string>, f: string, lastmod: string)
    ensures UrlEntriesOf(files + [f], lastmod) == UrlEntriesOf(files, lastmod) + [UrlEntryOf(f, lastmod)]
  {
    assert (files + [f])[..|files|] == files;
  }

  /** `all_pages` after the first loop: only Markdown files other than the
      index page have an entry. */
  function IndexEntries(listing: seq<string>, load: string -> Post, titleize: string -> string): (r: seq<IndexEntry>)
    ensures |r| == |Filter(listing, IsListed)|
    ensures forall i :: 0 <= i < |r| ==>
      var f := Filter(listing, IsListed)[i];
      r[i] == IndexEntryOf(f, PostOf(f, load), titleize)
    ensures forall e :: e in r ==>
      exists f :: f in listing && IsMarkdownFile(f) && PageName(f) != "index"
        && e == IndexEntryOf(f, PostOf(f, load), titleize)
  {
    var listed := Filter(listing, IsListed);
    var r := IndexEntriesOf(listed, load, titleize);
    assert forall e :: e in r ==> exists i :: 0 <= i < |listed| && e == r[i];
    assert forall i :: 0 <= i < |listed| ==> listed[i] in listed;
    r
  }

  /** `sitemap_entries` after the first loop: one entry per Markdown file,
      in listing order. */
  function SitemapEntries(listing: seq<string>, lastmod: string): (r: seq<UrlEntry>)
    ensures |r| == |Filter(listing, IsMarkdownFile)|
    ensures forall i :: 0 <= i < |r| ==>
      var f := Filter(listing, IsMarkdownFile)[i];
      f in listing && IsMarkdownFile(f) && r[i].loc == BaseUrl + PageUrl(f) && r[i].lastmod == lastmod
  {
    var md := Filter(listing, IsMarkdownFile);
    assert forall i :: 0 <= i < |md| ==> md[i] in md;
    UrlEntriesOf(md, lastmod)
  }

  /** The first loop over the listing: every Markdown file gets a sitemap
      entry, and every one but the index page an index entry. */
  method CollectPages(listing: seq<string>, load: string -> Post, titleize: string -> string, lastmod: string)
    returns (allPages: seq<IndexEntry>, sitemapEntries: seq<UrlEntry>)
    ensures allPages == IndexEntries(listing, load, titleize)
    ensures sitemapEntries == SitemapEntries(listing, lastmod)
  {
    allPages := [];
    sitemapEntries := [];
    for i := 0 to |listing|
      invariant allPages == IndexEntriesOf(Filter(listing[..i], IsListed), load, titleize)
      invariant sitemapEntries == UrlEntriesOf(Filter(listing[..i], IsMarkdownFile), lastmod)
    {
      var filename := listing[i];
      CollectStep(listing, i, load, titleize, lastmod);
      if IsMarkdownFile(filename) {
        var post := load(Join(MarkdownDir, filename));
        var name := ReplaceAll(filename, ".md", "");
        var pageUrl := "/" + name + ".html";
        if name != "index" {
          allPages := allPages + [IndexEntry(
            Get(post.metadata, "title", VStr(titleize(name))),
            Get(post.metadata, "desc", VStr("")),
            Get(post.metadata, "imago", VStr("")),
            Get(post.metadata, "css_class", VStr("")),
            pageUrl,
            Get(post.metadata, "sort_class", VNone))];
        }
        sitemapEntries := sitemapEntries + [UrlEntry(BaseUrl + pageUrl, lastmod)];
      }
    }
    assert listing[..|listing|] == listing;
    assert allPages == IndexEntries(listing, load, titleize);
  }

  /** What one more file of the listing adds to the index and sitemap
      entries. */
  lemma CollectStep(listing: seq<string>, i: nat, load: string -> Post, titleize: string -> string, lastmod: string)
    requires i < |listing|
    ensures var f := listing[i];
      && IndexEntriesOf(Filter(listing[..i + 1], IsListed), load, titleize)
        == IndexEntriesOf(Filter(listing[..i], IsListed), load, titleize)
          + (if IsListed(f) then [IndexEntryOf(f, PostOf(f, load), titleize)] else [])
      && UrlEntriesOf(Filter(listing[..i + 1], IsMarkdownFile), lastmod)
        == UrlEntriesOf(Filter(listing[..i], IsMarkdownFile), lastmod)
          + (if IsMarkdownFile(f) then [UrlEntryOf(f, lastmod)] else [])
  {
    var f := listing[i];
    assert listing[..i + 1] == listing[..i] + [f];
    FilterAppend(listing[..i], f, IsListed);
    FilterAppend(listing[..i], f, IsMarkdownFile);
    if IsListed(f) {
      IndexEntriesOfAppend(Filter(listing[..i], IsListed), f, load, titleize);
    } else {
      assert Filter(listing[..i], IsListed) + [] == Filter(listing[..i], IsListed);
    }
    if IsMarkdownFile(f) {
      UrlEntriesOfAppend(Filter(listing[..i], IsMarkdownFile), f, lastmod);
    } else {
      assert Filter(listing[..i], IsMarkdownFile) + [] == Filter(listing[..i], IsMarkdownFile);
    }
  }

  /** The template a page is rendered with: its own `template` value when
      that is truthy, else the index template for `index.md`, else the
      default one. */
  function SelectTemplate(template: Value, filename: string): (r: string)
    ensures EndsWith(r, ".html")
    ensures Truthy(template) ==> r == Show(template) + ".html"
    ensures !Truthy(template) && filename == "index.md" ==> r == IndexTemplate
    ensures !Truthy(template) && filename != "index.md" ==> r == DefaultTemplate
    ensures !Truthy(template) ==> (r == IndexTemplate <==> filename == "index.md")
  {
    if Truthy(template) then Show(template) + ".html"
    else if filename == "index.md" then IndexTemplate
    else DefaultTemplate
  }

  /** A front-matter `template` takes precedence even on the index page. */
  lemma TemplateOverridesIndex(name: string)
    requires name != ""
    ensures SelectTemplate(VStr(name), "index.md") == name + ".html"
    ensures SelectTemplate(VStr(name), "index.md") != IndexTemplate || name == "index"
  {
    var r := name + ".html";
    if r == IndexTemplate {
      assert |name| == 5;
      assert name == r[..5];
    }
  }

  /** What a template is rendered with. */
  datatype Context = Context(
    title: Value, desc: Value, imago: Value, cssClass: Value, sortClass: Value,
    template: string, content: string, allPages: seq<IndexEntry>)

  /** One written page: where it goes, the template and what the template
      is given. */
  datatype RenderedPage = RenderedPage(path: string, templateFile: string, context: Context)

  /** The page the second loop writes for a Markdown file. */
  function RenderPage(f: string, post: Post, titleize: string -> string, markdown: string -> string,
                      ordered: seq<IndexEntry>): RenderedPage
  {
    var templateFile := SelectTemplate(Meta(post, "template", VNone), f);
    RenderedPage(
      Join(BuildDir, HtmlFilename(f)),
      templateFile,
      Context(
        Meta(post, "title", VStr(titleize(PageName(f)))),
        Meta(post, "desc", VStr("")),
        Meta(post, "imago", VStr("")),
        Meta(post, "css_class", VStr("")),
        Meta(post, "sort_class", VNone),
        templateFile,
        markdown(post.content),
        ExcludeUrl(ordered, SelfUrl(f))))
  }

  /** The pages written for `files`, one each, in their order. */
  function RenderedPagesOf(files: seq<string>, load: string -> Post, titleize: string -> string,
                           markdown: string -> string, ordered: seq<IndexEntry>): (r: seq<RenderedPage>)
    ensures |r| == |files|
  {
    if files == [] then []
    else
      var f := files[|files| - 1];
      RenderedPagesOf(files[..|files| - 1], load, titleize, markdown, ordered)
        + [RenderPage(f, PostOf(f, load), titleize, markdown, ordered)]
  }

  /** The page written for each file is the page rendered for it. */
  lemma {:induction false} RenderedPagesOfAt(files: seq<string>, load: string -> Post, titleize: string -> string,
                                             markdown: string -> string, ordered: seq<IndexEntry>, i: nat)
    requires i < |files|
    ensures RenderedPagesOf(files, load, titleize, markdown, ordered)[i]
      == RenderPage(files[i], PostOf(files[i], load), titleize, markdown, ordered)
  {
    var init := files[..|files| - 1];
    var prev := RenderedPagesOf(init, load, titleize, markdown, ordered);
    var f := files[|files| - 1];
    assert RenderedPagesOf(files, load, titleize, markdown, ordered)
      == prev + [RenderPage(f, PostOf(f, load), titleize, markdown, ordered)];
    if i < |init| {
      RenderedPagesOfAt(init, load, titleize, markdown, ordered, i);
      assert init[i] == files[i];
      assert (prev + [RenderPage(f, PostOf(f, load), titleize, markdown, ordered)])[i] == prev[i];
    }
  }

  lemma RenderedPagesOfAppend(files: seq<string>, f: string, load: string -> Post, titleize: string -> string,
                               markdown: string -> string, ordered: seq<IndexEntry>)
    ensures RenderedPagesOf(files + [f], load, titleize, markdown, ordered)
      == RenderedPagesOf(files, load, titleize, markdown, ordered) + [RenderPage(f, PostOf(f, load), titleize, markdown, ordered)]
  {
    assert (files + [f])[..|files|] == files;
  }

  /** What one more file of the listing adds to the rendered pages. */
  lemma RenderStep(listing: seq<string>, i: nat, load: string -> Post, titleize: string -> string,
                   markdown: string -> string, ordered: seq<IndexEntry>)
    requires i < |listing|
    ensures var f := listing[i];
      RenderedPagesOf(Filter(listing[..i + 1], IsMarkdownFile), load, titleize, markdown, ordered)
        == RenderedPagesOf(Filter(listing[..i], IsMarkdownFile), load, titleize, markdown, ordered)
          + (if IsMarkdownFile(f) then [RenderPage(f, PostOf(f, load), titleize, markdown, ordered)] else [])
  {
    var f := listing[i];
    assert listing[..i + 1] == listing[..i] + [f];
    FilterAppend(listing[..i], f, IsMarkdownFile);
    RenderedPagesOfGrow(Filter(listing[..i + 1], IsMarkdownFile), Filter(listing[..i], IsMarkdownFile), f,
                        IsMarkdownFile(f), load, titleize, markdown, ordered);
  }

  lemma RenderedPagesOfGrow(grown: seq<string>, files: seq<string>, f: string, add: bool, load: string -> Post,
                            titleize: string -> string, markdown: string -> string, ordered: seq<IndexEntry>)
    requires grown == files + (if add then [f] else [])
    ensures RenderedPagesOf(grown, load, titleize, markdown, ordered)
      == RenderedPagesOf(files, load, titleize, markdown, ordered)
        + (if add then [RenderPage(f, PostOf(f, load), titleize, markdown, ordered)] else [])
  {
    if add {
      RenderedPagesOfAppend(files, f, load, titleize, markdown, ordered);
    } else {
      assert grown == files;
    }
  }

  /** The second loop over the listing: one page per Markdown file, in
      listing order, each given the ordered index without its own entry. */
  method RenderPages(listing: seq<string>, load: string -> Post, titleize: string -> string,
                     markdown: string -> string, ordered: seq<IndexEntry>)
    returns (written: seq<RenderedPage>)
    ensures written == RenderedPagesOf(Filter(listing, IsMarkdownFile), load, titleize, markdown, ordered)
  {
    written := [];
    for i := 0 to |listing|
      invariant written == RenderedPagesOf(Filter(listing[..i], IsMarkdownFile), load, titleize, markdown, ordered)
    {
      var filename := listing[i];
      RenderStep(listing, i, load, titleize, markdown, ordered);
      if IsMarkdownFile(filename) {
        var htmlFilename := ReplaceAll(filename, ".md", ".html");
        var htmlPath := Join(BuildDir, htmlFilename);
        var post := load(Join(MarkdownDir, filename));
        var template := Get(post.metadata, "template", VNone);
        var templateFile := SelectTemplate(template, filename);
        var filteredPages := ExcludeUrl(ordered, "/" + htmlFilename);
        var context := Context(
          Get(post.metadata, "title", VStr(titleize(ReplaceAll(filename, ".md", "")))),
          Get(post.metadata, "desc", VStr("")),
          Get(post.metadata, "imago", VStr("")),
          Get(post.metadata, "css_class", VStr("")),
          Get(post.metadata, "sort_class", VNone),
          templateFile,
          markdown(post.content),
          filteredPages);
        written := written + [RenderedPage(htmlPath, templateFile, context)];
      }
    }
    assert listing[..|listing|] == listing;
  }

  /** When `.md` occurs in a file name only as its extension, the page name
      is the name without it, and the address a page looks for its own
      entry under is the address it is listed under. */
  lemma MarkdownSuffixOnly(w: string)
    requires forall i: nat :: i < |w| ==> !OccursAt(w + ".md", ".md", i)
    ensures PageName(w + ".md") == w
    ensures HtmlFilename(w + ".md") == w + ".html"
    ensures PageUrl(w + ".md") == "/" + w + ".html"
    ensures SelfUrl(w + ".md") == PageUrl(w + ".md")
  {
    ReplaceOnlySuffix(w, ".md", "");
    ReplaceOnlySuffix(w, ".md", ".html");
    assert w + "" == w;
  }

  /** The index page is named `index` and listed under `/index.html`. */
  lemma IndexPageName(f: string)
    requires f == "index.md"
    ensures PageName(f) == "index"
    ensures PageUrl(f) == "/index.html"
    ensures SelfUrl(f) == "/index.html"
  {
    var w := "index";
    assert f == w + ".md";
    FirstCharAbsent(w, ".md");
    MarkdownSuffixOnly(w);
  }

  /** Only the page named `index` is listed under `/index.html`. */
  lemma IndexUrlName(name: string)
    requires "/" + name + ".html" == "/index.html"
    ensures name == "index"
  {
    var u := "/" + name + ".html";
    assert |name| == 5;
    assert name == u[1..6];
    assert "/index.html"[1..6] == "index";
  }

  /** A page's own entry is taken out of the index it is given, and nothing
      else, when `.md` occurs in its file name only as the extension. */
  lemma OwnEntryExcluded(w: string, ordered: seq<IndexEntry>)
    requires forall i: nat :: i < |w| ==> !OccursAt(w + ".md", ".md", i)
    ensures var given := ExcludeUrl(ordered, SelfUrl(w + ".md"));
      forall e :: multiset(given)[e] == if e.url == PageUrl(w + ".md") then 0 else multiset(ordered)[e]
  {
    MarkdownSuffixOnly(w);
  }

  /** Both `.md` of `w.md.md` are replaced when `w` has no dot. */
  lemma InnerMarkdownReplaced(w: string, rep: string)
    requires '.' !in w
    ensures ReplaceAll(w + ".md.md", ".md", rep) == w + rep + rep
  {
    var md := ".md";
    assert ".md.md" == md + (md + "");
    ReplaceCleanPrefix(w, md + (md + ""), md, rep);
    ReplaceAtStart(md, md + "", rep);
    ReplaceAtStart(md, "", rep);
    assert ReplaceAll("", md, rep) == "";
    assert w + (rep + (rep + "")) == w + rep + rep;
  }

  /** A file such as `a.md.md` is listed as `/a.html` but written as
      `a.html.html`, so the page looks for itself under `/a.html.html` and
      keeps its own entry. */
  lemma InnerMarkdownKeepsOwnEntry(w: string, e: IndexEntry, ordered: seq<IndexEntry>)
    requires '.' !in w
    requires e.url == PageUrl(w + ".md.md") && e in ordered
    ensures PageUrl(w + ".md.md") == "/" + w + ".html"
    ensures SelfUrl(w + ".md.md") == "/" + w + ".html.html"
    ensures e in ExcludeUrl(ordered, SelfUrl(w + ".md.md"))
  {
    InnerMarkdownReplaced(w, "");
    InnerMarkdownReplaced(w, ".html");
    assert w + "" + "" == w;
    assert w + ".html" + ".html" == w + ".html.html";
    assert multiset(ordered)[e] > 0;
    assert |"/" + w + ".html"| != |"/" + w + ".html.html"|;
  }

  /** The index page never appears in the site index. */
  lemma IndexPageNotListed(listing: seq<string>, load: string -> Post, titleize: string -> string)
    ensures forall e :: e in IndexEntries(listing, load, titleize) ==> e.url != "/index.html"
  {
    forall e | e in IndexEntries(listing, load, titleize) ensures e.url != "/index.html" {
      var f :| f in listing && IsMarkdownFile(f) && PageName(f) != "index"
        && e == IndexEntryOf(f, PostOf(f, load), titleize);
      assert e.url == "/" + PageName(f) + ".html";
      if e.url == "/index.html" {
        IndexUrlName(PageName(f));
      }
    }
  }

  /** The index page still has its sitemap entry. */
  lemma IndexPageInSitemap(listing: seq<string>, lastmod: string)
    requires "index.md" in listing
    ensures UrlEntry(BaseUrl + "/index.html", lastmod) in SitemapEntries(listing, lastmod)
  {
    IndexPageName("index.md");
    var md := Filter(listing, IsMarkdownFile);
    assert IsMarkdownFile("index.md");
    assert "index.md" in md;
    var i :| 0 <= i < |md| && md[i] == "index.md";
    assert SitemapEntries(listing, lastmod)[i] == UrlEntry(BaseUrl + "/index.html", lastmod);
  }

  /** The index page is given the whole ordered index. */
  lemma IndexPageSeesWholeIndex(listing: seq<string>, load: string -> Post, titleize: string -> string)
    requires OrderIndex(IndexEntries(listing, load, titleize)).Ok?
    ensures var ordered := OrderIndex(IndexEntries(listing, load, titleize)).value;
      ExcludeUrl(ordered, SelfUrl("index.md")) == ordered
  {
    var pages := IndexEntries(listing, load, titleize);
    var ordered := OrderIndex(pages).value;
    IndexPageName("index.md");
    IndexPageNotListed(listing, load, titleize);
    forall e | e in ordered ensures e.url != "/index.html" {
      assert e in multiset(ordered);
    }
    ExcludeAbsentUrl(ordered, "/index.html");
  }

  /** The sitemap of a run reads back as its entries, in listing order,
      when no file name and not the date holds a newline. */
  lemma SitemapReadsBack(listing: seq<string>, lastmod: string)
    requires forall f :: f in listing ==> '\n' !in f
    requires '\n' !in lastmod
    ensures Parse(Document(SitemapEntries(listing, lastmod))) == Some(SitemapEntries(listing, lastmod))
  {
    var es := SitemapEntries(listing, lastmod);
    forall i | 0 <= i < |es| ensures NoNewline(es[i].loc) && NoNewline(es[i].lastmod) {
      var f := Filter(listing, IsMarkdownFile)[i];
      LocHasNoNewline(f);
    }
    SitemapRoundTrip(es);
  }

  /** The address of a file's page holds a newline only when its name
      does. */
  lemma LocHasNoNewline(f: string)
    requires '\n' !in f
    ensures NoNewline(BaseUrl + PageUrl(f))
  {
    ReplaceKeepsOut(f, ".md", "", '\n');
    assert '\n' !in BaseUrl;
    assert BaseUrl + PageUrl(f) == BaseUrl + ("/" + PageName(f) + ".html");
  }

  /** What one run writes: the pages, in the order they are written (a
      later page written to the same file replaces an earlier one), and the
      sitemap with its path. */
  datatype Site = Site(pages: seq<RenderedPage>, sitemapPath: string, sitemap: string)

  /** The whole run: collect, order, render, then write the sitemap. A
      truthy `sort_class` that is not a string stops the run before any
      page is written. */
  method Build(listing: seq<string>, load: string -> Post, titleize: string -> string,
               markdown: string -> string, lastmod: string)
    returns (r: Result<Site>)
    ensures var pages := IndexEntries(listing, load, titleize);
      && (r.Err? <==> exists e :: e in pages && SortClassFails(e))
      && (r.Err? ==> r.error == AttributeError)
      && (r.Ok? ==>
        && OrderIndex(pages).Ok?
        && r.value.pages == RenderedPagesOf(Filter(listing, IsMarkdownFile), load, titleize, markdown, OrderIndex(pages).value)
        && r.value.sitemapPath == Join(BuildDir, "sitemap.xml")
        && r.value.sitemap == Document(SitemapEntries(listing, lastmod)))
  {
    var allPages, sitemapEntries := CollectPages(listing, load, titleize, lastmod);
    var ordered := OrderIndex(allPages);
    if ordered.Err? {
      return Err(ordered.error);
    }
    var written := RenderPages(listing, load, titleize, markdown, ordered.value);
    r := Ok(Site(written, Join(BuildDir, "sitemap.xml"), Document(sitemapEntries)));
  }
}
