# tissue — a Dafny model of the site generators

tissue turns a directory of Markdown files with YAML front matter into a
static web site. This project models five of its scripts:

- the flat-site builder, `builder.py`. It lists the Markdown directory once
  to collect a site index and the sitemap entries. It orders the index by
  the two-tier `sort_class` policy: pinned pages sorted by their stripped
  `sort_class`, then the other pages in discovery order. It lists the
  directory a second time to render one page per Markdown file, each given
  the index without its own entry. Last it writes `sitemap.xml`.
- the collection generators `gen2.py`, `gen3.py`, `gen4.py` and `gen8.py`.
  They walk a source tree and find its Markdown files, `gen4` and `gen8`
  outside skipped directories. They key one record per file by its path,
  holding the front matter, the content, the collection and the stem, in
  a dict. `gen3` and later render each record with `base.html` to a path
  its collection chooses. `gen8` also takes the `pages` collection as a
  filtered view and a random sample of three of its entries. Its renderer
  converts each record's Markdown in place and passes an extra `lump`
  value.

The model has these modules:

| file | module | what it holds |
|---|---|---|
| text.dfy | Text | the `str` operations used: `replace`, `strip`, `split`, `join`, ordering |
| seqs.dfy | Seqs | filtering, partitions, subsequences, duplicate removal |
| values.dfy | Values | front-matter values, truthiness, posts, errors, `Result`, `Option` |
| paths.dfy | Paths | `os.path.join`, `basename`, `dirname`, `splitext`, `relpath` |
| sorting.dfy | Sorting | the stable `sorted(..., key=...)` |
| site_index.dfy | SiteIndex | index entries, the `sort_class` ordering, self-exclusion |
| sitemap.dfy | Sitemap | the sitemap document and a reader for it |
| builder.dfy | Builder | the two loops of `builder.py`, template choice, the whole run |
| discovery.dfy | Discovery | both `find_markdown_files` |
| collections.dfy | Collections | configuration, records, the insertion-ordered dict, loading, filtering, sampling |
| routes.dfy | Routes | output paths and what the build directory holds after the writes |
| gen2.dfy … gen8.dfy | Gen2, Gen3, Gen4, Gen8 | each script's `main` and `render_html` |

The collaborators are parameters of the operations:

- reading and parsing a file (`load: string -> Post`);
- the directory listing and the directory walk;
- Markdown conversion;
- `str.title()`;
- the date of the run.

A rendered page is modelled as the template's name together with the
context the template is given. The `render_html` of `gen3` needs
`build_directory` and has no default for it, so it returns `Err(TypeError)`
when the configuration lacks it. `builder.py` calls `.strip()` on
`sort_class`. A truthy `sort_class` that is not a string makes that call
raise AttributeError, and the model returns `Err(AttributeError)` for it.

## Model

| member | source | states |
|---|---|---|
| Text.Strip | builder.py:69-70 | `strip()` is the string with its leading and its trailing white space removed: the string is white space, then the result, then white space; the result neither begins nor ends with white space, and is empty exactly when the string is all white space |
| Text.IsSpace | builder.py:69-70 | the characters `strip()` removes: Python's white space: the space, tab to carriage return, 0x1C-0x1F, 0x85, the no-break space, the Unicode space separators, and the line and paragraph separators |
| Text.TrimStart | builder.py:69-70 | the leading half of `strip()`: what is left is the suffix after the leading white space and does not begin with white space |
| Text.TrimEnd | builder.py:69-70 | the trailing half of `strip()`: what is left is the prefix before the trailing white space and does not end with white space |
| Text.StripNonSpace | builder.py:69-70 | a `sort_class` without surrounding white space is its own stripped key |
| Text.ReplaceAll | builder.py:35 | `str.replace`: occurrences are found left to right without overlapping and each is replaced; what this gives is stated by the four `Replace` lemmas below |
| Text.ReplaceAbsent | builder.py:35 | `replace` leaves a string without the pattern unchanged |
| Text.ReplaceOnlySuffix | builder.py:35 | when `.md` occurs only as the extension, `replace` removes just that one |
| Text.ReplaceKeepsOut | builder.py:35 | `replace` brings in no character that is in neither the name nor the replacement |
| Text.FirstCharAbsent | builder.py:35 | a pattern cannot start where its first character does not occur |
| Text.StartsWith | gen2.py:27 | `str.startswith`, which `os.path.join` uses to recognise an absolute second path: the string begins with the prefix |
| Text.EndsWith | gen2.py:26 | `str.endswith`: the string ends with the suffix |
| Text.Split | gen4.py:25 | `split` gives at least one piece and no piece holds the separator |
| Text.JoinSplit | gen2.py:60 | joining the pieces of a split by the separator gives back the string |
| Text.SplitJoin | gen4.py:25 | splitting a join of separator-free pieces gives back the pieces |
| Text.SplitAround | gen4.py:25 | splitting distributes over a separator |
| Text.SplitNoSeparator | gen2.py:60 | a string without the separator splits into itself |
| Text.JoinWith | gen4.py:73 | `sep.join(parts)`: the pieces in order, one separator between neighbours; `split` undoes it (Text.SplitJoin, Text.JoinSplit) |
| Text.LexLe | builder.py:68-71 | Python's `<=` on strings: code points compared from the left, a proper prefix first; a total order by the four lemmas below |
| Text.LexLeReflexive | builder.py:68-71 | the string order that `sorted` uses is reflexive |
| Text.LexLeTotal | builder.py:68-71 | any two keys are comparable |
| Text.LexLeTransitive | builder.py:68-71 | the order is transitive |
| Text.LexLeAntisymmetric | builder.py:68-71 | keys ordered both ways are equal |
| Seqs.Filter | builder.py:69 | a comprehension with a condition keeps exactly the elements that pass it |
| Seqs.Reject | builder.py:74 | the complementary comprehension keeps exactly the elements that fail it |
| Seqs.RejectIsSubsequence | builder.py:74 | the pages without a `sort_class` keep their discovery order |
| Seqs.FilterAppend | builder.py:28-29 | filtering a longer listing extends the earlier result by the new element when it passes |
| Seqs.PartitionMultiset | builder.py:68-77 | the passing and failing parts together hold every element exactly as often as the list |
| Seqs.PartitionLength | builder.py:77 | the two parts together are as long as the list |
| Seqs.FilterIsSubsequence | gen8.py:37 | a filter keeps the order of what it keeps |
| Seqs.Dedup | gen2.py:66 | the keys of a dict filled in order are distinct and are exactly the inserted keys |
| Seqs.FirstIndex | gen2.py:66 | the first position at which a key occurs in the inserted sequence |
| Seqs.DedupFirstOccurrenceOrder | gen2.py:48-71 | the keys are in the order of their first insertion: a key first inserted earlier comes earlier |
| Seqs.DedupDistinct | gen2.py:48-71 | inserting distinct keys keeps them all, in their order |
| Seqs.DistinctCardinality | gen8.py:41 | a list of distinct keys has as many elements as its set |
| Values.Truthy | builder.py:108 | Python truthiness of a front-matter value: `None`, `False`, `0` and the empty string are false |
| Values.Show | builder.py:109 | how an f-string writes a value: a string as itself, a boolean as `True` or `False`, an integer in decimal with its sign |
| Values.NatToString | builder.py:109 | `str` of a natural number: decimal digits that denote the number, read from the left, at least one and without a leading zero |
| Values.Get | builder.py:40-45 | `post.get(key, default)`: the front-matter value under the key, or the default when the key is absent |
| Paths.RFind | gen2.py:63 | the index of the last separator, or -1 when there is none |
| Paths.Join | gen2.py:27 | `os.path.join(a, b)`: `b` when it is absolute, otherwise `b` after `a` with one separator between them unless `a` is empty or already ends with one; stated by Paths.SegmentsOfJoin and Paths.BasenameOfJoin |
| Paths.Basename | gen2.py:63 | the base name holds no separator, is a suffix of the path and is the whole path or follows a separator |
| Paths.Dirname | gen2.py:36 | `os.path.dirname`: the path up to its last separator, trailing separators removed unless it is all separators; stated by Paths.DirnameOfChild |
| Paths.IsMarkdownFile | gen2.py:26 | a file is picked up when its name ends with `.md` |
| Paths.RStrip | gen2.py:36 | trailing separators removed, and only those |
| Paths.SplitExtRoot | gen2.py:63 | `splitext` keeps a prefix of the path; when it removes anything, what it removes is the extension: it starts at a dot, holds no other dot and no separator, and the dot is preceded in its component by a character other than a dot; when the path has no such extension the root is the whole path |
| Paths.ExtensionIsLastDot | gen2.py:63 | an extension starts at the last dot of the path, after its last separator, with a character other than a dot before it in the file name |
| Paths.BasenameOfJoin | gen2.py:63 | the base name of a file joined onto a directory is the file's name |
| Paths.DirnameOfChild | gen2.py:36 | the directory name of `a/b` is `a` |
| Paths.SplitExtRootOfMarkdown | gen2.py:63 | the stem of `x.md` is `x`, unless `x` is nothing but dots |
| Paths.SegmentsOfJoin | gen2.py:27 | the components of a joined path are the directory's components and then the file name |
| Paths.SegmentsAround | gen4.py:73 | the components of `a/b` are those of `a` followed by those of `b` |
| Paths.SegmentsOfName | gen4.py:73 | a plain file name is a single component |
| Paths.Segments | gen4.py:73 | the non-empty components of a path split at its separators; stated by Paths.SegmentsOfJoin and Paths.SegmentsAround |
| Paths.SegmentsAreNames | gen4.py:73 | every component is a plain name |
| Paths.CommonPrefixLength | gen4.py:73 | the longest common leading run of components |
| Paths.Repeat | gen4.py:73 | the `..` components `relpath` puts in front |
| Paths.RelPath | gen4.py:73 | `os.path.relpath`: one `..` for each component of the start below the common prefix, then the path's own components below it, or `.` when nothing is left; stated by Paths.RelPathBelow |
| Paths.RelPathBelow | gen4.py:73 | for a path below the start, `relpath` is the part below the start |
| Paths.RFindAfterSeparator | gen2.py:63 | in a name joined after a separator, the last separator is the joining one |
| Sorting.Insert | builder.py:68-71 | inserting keeps every element exactly as often |
| Sorting.SortBy | builder.py:68-71 | `sorted` is a permutation of its input |
| Sorting.InsertSorted | builder.py:68-71 | inserting into a sorted list keeps it sorted |
| Sorting.SortIsSorted | builder.py:68-71 | `sorted` gives nondecreasing keys |
| Sorting.InsertKeepsKeyOrder | builder.py:68-71 | inserting puts the new element before those with its own key |
| Sorting.SortIsStable | builder.py:68-71 | pages with equal keys keep their discovery order |
| Sorting.SortOfTwo | builder.py:68-71 | two elements whose keys are out of order are swapped |
| Sorting.SortedPartition | builder.py:67-77 | sorted pinned pages followed by the others is a permutation, split at the number of pinned pages, sorted and stable in the first part, in order in the second |
| SiteIndex.OrderIndex | builder.py:67-77 | fails with AttributeError exactly when a truthy `sort_class` is not a string; otherwise a permutation of the pages: first the pinned pages, sorted by stripped `sort_class`, stable, then exactly the others in their order |
| SiteIndex.HasSortClass | builder.py:69-74 | a page is pinned when its `sort_class` is a string that is not all white space |
| SiteIndex.SortClassFails | builder.py:69 | the run fails with AttributeError on a page whose `sort_class` is truthy and not a string |
| SiteIndex.SortKey | builder.py:70 | the key of a pinned page is its stripped `sort_class`; any other page gets `~` |
| SiteIndex.ExcludeUrl | builder.py:119 | every entry with another URL is kept as often as it occurs and in order; every entry with this URL is removed |
| SiteIndex.ExcludeAbsentUrl | builder.py:119 | a URL that no entry has removes nothing |
| SiteIndex.PartitionOfThree | builder.py:69-74 | the pinned pages are split from the others, each part in order |
| SiteIndex.OrderOfThree | builder.py:67-77 | pages found as C (not pinned), B, A with A's key before B's are listed A, B, C |
| SiteIndex.PinnedBy | builder.py:69-70 | a page whose `sort_class` is a string without surrounding white space is pinned, under that string |
| SiteIndex.OrderOfThreeKeys | builder.py:67-77 | pages found as C (no `sort_class`), B and A, pinned under keys without surrounding white space where A's comes first, are listed A, B, C |
| SiteIndex.PartitionStep | builder.py:69-74 | an entry in front goes to the pinned part or to the other part, in front |
| SiteIndex.SortPolicyExample | builder.py:67-77 | pages found as C (no `sort_class`), B (`"2"`), A (`"1"`) are listed A, B, C |
| Sitemap.Document | builder.py:143-148 | the document opens with a newline, the XML declaration and the `urlset` tag of the Sitemap 0.9 namespace, and closes with the closing tag and a newline |
| Sitemap.UrlBlock | builder.py:59-62 | one entry: `<url>`, the `loc` line, the `lastmod` line and `</url>`, each ended by a newline; stated by Sitemap.UrlBlockLines |
| Sitemap.Blocks | builder.py:146 | `''.join` of the entries, in order; stated by Sitemap.BlocksAsLines |
| Sitemap.UrlBlockLines | builder.py:59-62 | each entry is its four lines, each ended by a newline |
| Sitemap.BlocksAsLines | builder.py:146 | the joined entries are the lines of all the entries, each ended by a newline |
| Sitemap.FrameLines | builder.py:143-148 | the frame around the entries adds three lines before and three pieces after |
| Sitemap.DocumentAsLines | builder.py:143-148 | the document is its lines joined by newlines |
| Sitemap.ParseBlockLines | builder.py:59-62 | the entries' lines read back as the entries |
| Sitemap.SitemapRoundTrip | builder.py:143-148 | reading the document back gives the entries it was made from, in order, when no address or date holds a newline |
| Sitemap.LineCount | builder.py:143-148 | a sitemap of `n` entries has `4 n + 6` newline-separated pieces |
| Sitemap.BlockLinesLength | builder.py:59-62 | every entry contributes four lines |
| Sitemap.BlockLinesHaveNoNewline | builder.py:59-62 | no line of an entry holds a newline when its address and date do not |
| Sitemap.FrameHasNoNewline | builder.py:143-145 | the declaration and the tags are single lines |
| Builder.IndexEntriesOf | builder.py:49-56 | one index entry per file, in order, with the front-matter values or their defaults |
| Builder.IndexEntryOf | builder.py:40-56 | a page's index entry: each front-matter value or its default, the title defaulting to the title-cased page name, and the page's address |
| Builder.UrlEntryOf | builder.py:59-62 | a page's sitemap entry: the site address followed by the page's address, and the date |
| Builder.PageName | builder.py:35 | the file name with every `.md` removed; stated by Builder.MarkdownSuffixOnly and Builder.InnerMarkdownReplaced |
| Builder.PageUrl | builder.py:36 | the listed address `/<name>.html` |
| Builder.HtmlFilename | builder.py:89 | the file name with every `.md` replaced by `.html` |
| Builder.SelfUrl | builder.py:119 | the address a page's own entry is looked for under, `/<html filename>` |
| Builder.IsListed | builder.py:29-48 | a file is in the site index when it is a Markdown file whose page name is not `index` |
| Builder.Meta | builder.py:40-45 | a front-matter value of the post, or the given default |
| Builder.PostOf | builder.py:30-33 | the post read from `markdown/<filename>` by the given loader |
| Builder.UrlEntriesOf | builder.py:59-62 | one sitemap entry per file, in order, with the site address and the run's date |
| Builder.IndexEntriesOfAppend | builder.py:48-56 | a further listed file appends its entry |
| Builder.UrlEntriesOfAppend | builder.py:58-62 | a further Markdown file appends its sitemap entry |
| Builder.IndexEntries | builder.py:28-56 | one index entry per Markdown file of the listing whose page name is not `index`, in listing order, and no other entry |
| Builder.SitemapEntries | builder.py:28-62 | one sitemap entry per Markdown file of the listing, in listing order, with its address and the date |
| Builder.CollectStep | builder.py:28-62 | each further file of the listing appends its index entry when it is listed and its sitemap entry when it is a Markdown file |
| Builder.CollectPages | builder.py:28-62 | the first loop produces exactly the index entries and the sitemap entries |
| Builder.SelectTemplate | builder.py:107-113 | a truthy `template` gives `<template>.html`; otherwise `index.md`, and only it, gets `index.html`, and every other file `default.html`; the result is always an `.html` file |
| Builder.TemplateOverridesIndex | builder.py:108-111 | a front-matter `template` wins even on the index page |
| Builder.RenderedPagesOf | builder.py:86-130 | one page per file |
| Builder.RenderPage | builder.py:88-130 | one page: written to `build/<html filename>`, with the chosen template, the front-matter values or their defaults, the converted content and the ordered index without the page's own address |
| Builder.RenderedPagesOfAt | builder.py:86-130 | the page at each position is the page rendered for the file at that position |
| Builder.RenderedPagesOfAppend | builder.py:86-134 | a further Markdown file appends its page |
| Builder.RenderedPagesOfGrow | builder.py:86-134 | a further file appends its page when it is a Markdown file and nothing otherwise |
| Builder.RenderStep | builder.py:86-134 | each further file of the listing appends its page exactly when it is a Markdown file |
| Builder.RenderPages | builder.py:86-134 | the second loop writes one page per Markdown file of the listing, in listing order, each with its template, its converted content and the index without its own entry |
| Builder.MarkdownSuffixOnly | builder.py:35-36 | when `.md` occurs only as the extension, the page name is the name without it, and a page's own address is its listed address |
| Builder.IndexPageName | builder.py:35-36 | `index.md` is named `index`, is listed under `/index.html` and looks for its own entry under that address |
| Builder.IndexUrlName | builder.py:36 | only the page named `index` has the address `/index.html` |
| Builder.OwnEntryExcluded | builder.py:119 | for an ordinary file name, a page's own entry is removed from the index it is given, and nothing else |
| Builder.InnerMarkdownReplaced | builder.py:35 | in `w.md.md`, with no dot in `w`, both `.md` are replaced |
| Builder.InnerMarkdownKeepsOwnEntry | builder.py:89-119 | `w.md.md`, with no dot in `w`, is listed as `/w.html` but looks for itself under `/w.html.html`, so it keeps its own entry |
| Builder.IndexPageNotListed | builder.py:47-56 | the index page is never in the site index |
| Builder.IndexPageInSitemap | builder.py:58-62 | the index page still has its sitemap entry |
| Builder.IndexPageSeesWholeIndex | builder.py:119 | the index page is given the whole ordered index |
| Builder.LocHasNoNewline | builder.py:36-62 | a page's address holds a newline only when its file name does |
| Builder.SitemapReadsBack | builder.py:142-148 | the sitemap of a run reads back as its entries, in listing order |
| Builder.Build | builder.py:23-153 | the run fails with AttributeError exactly when some listed page has a truthy non-string `sort_class`; otherwise it writes the pages of the second loop against the ordered index, and the sitemap of the first loop to `build/sitemap.xml` |
| Discovery.MarkdownInAppend | gen2.py:25-28 | a further file name appends its path when it is a Markdown file |
| Discovery.MarkdownIn | gen2.py:25-28 | the Markdown names of one directory, in name order, joined onto the directory; stated by Discovery.MarkdownInMember |
| Discovery.MarkdownFiles | gen2.py:22-29 | the Markdown files of every directory of the walk, in walk order; stated by Discovery.FindMarkdownFiles, and through Discovery.EmptySkipFindsAll by Discovery.FoundAreMarkdown and Discovery.MarkdownFilesSkippingMember |
| Discovery.MarkdownFilesSkipping | gen4.py:22-31 | the same, the skipped directories contributing nothing; stated by Discovery.MarkdownFilesSkippingMember |
| Discovery.Skipped | gen4.py:25 | a directory is skipped when one of its components is in the skip list; stated by Discovery.SkippedByComponents |
| Discovery.MarkdownFilesAppend | gen2.py:24-28 | a further directory appends its Markdown files |
| Discovery.MarkdownFilesSkippingAppend | gen4.py:24-30 | a further directory appends its Markdown files unless it is skipped |
| Discovery.AppendMarkdownIn | gen2.py:25-28 | the inner loop appends the Markdown files of one directory, in name order, each joined onto the directory |
| Discovery.AnySkipped | gen4.py:25 | the `any(...)` test is true exactly when one of the directory's components is in the skip list |
| Discovery.FindMarkdownFiles | gen2.py:22-29 | the Markdown files of the walk, in walk order and then name order |
| Discovery.FindMarkdownFilesSkipping | gen4.py:22-31 | the same, with the directories that have a skipped component contributing nothing |
| Discovery.MarkdownInMember | gen2.py:25-28 | a path is found in a directory exactly when it is a Markdown name joined onto it |
| Discovery.MarkdownFilesSkippingMember | gen4.py:24-30 | a path is found exactly when it is a Markdown file of a directory of the walk that is not skipped |
| Discovery.EmptySkipFindsAll | gen4.py:25 | with no skip list both searches find the same files |
| Discovery.SkippingOnlyRemoves | gen4.py:25-26 | every file found with a skip list is found without one |
| Discovery.FoundInDirAreMarkdown | gen2.py:25-28 | every file found in one directory is a Markdown file |
| Discovery.FoundAreMarkdown | gen4.py:28 | every file found is a Markdown file |
| Discovery.SkippedBelow | gen4.py:25 | a directory below a skipped one is skipped too |
| Discovery.SkippedByComponents | gen4.py:25 | a directory is skipped exactly when one of its components is in the skip list |
| Discovery.SkipMatchesWholeComponents | gen4.py:25 | `draft` skips `src/draft` but not `src/drafts` |
| Discovery.FoundBelow | gen2.py:22-29 | every file found in a walk of a directory lies below it |
| Collections.Dict.Put | gen2.py:66 | a new key goes last, an existing key keeps its place, and the value is replaced |
| Collections.EmptyDict | gen2.py:42 | the empty dict has no keys |
| Collections.Stem | gen2.py:63 | the stem is the base name with its extension removed as `splitext` removes it, and the whole base name when it has no extension; it holds no separator |
| Collections.Item | gen2.py:66-71 | a record: the front matter, the content, the collection and the stem of the path |
| Collections.LeadingSegment | gen2.py:60 | the first component holds no separator and is the whole path or is followed by one |
| Collections.LeadingSegmentOfChild | gen2.py:60 | the first component of `a/rest` is `a` |
| Collections.LoadAll | gen2.py:48-71 | one record per discovered path, keyed by the path, in discovery order, holding the file's front matter, content, collection and stem |
| Collections.LoadAllKeepsEveryPath | gen2.py:48-71 | distinct paths each get their own record, in discovery order |
| Collections.FilterKeys | gen8.py:37 | exactly the keys whose value passes, distinct and in order |
| Collections.FilterData | gen8.py:36-37 | exactly the entries whose value passes, with their values and order unchanged |
| Collections.SelectRandomEntries | gen8.py:40-42 | fails with ValueError exactly for a negative count; otherwise `min(count, len)` distinct keys of the dict, each with its value |
| Collections.Min | gen8.py:41 | `min(a, b)`: one of the two, and at most both |
| Routes.OutputPath | gen4.py:41-46 | the page of a `root` record goes into the build directory, any other into its collection's directory, and the file written is named `<stem>.html` |
| Routes.Written | gen4.py:50-51 | the files on disk after the writes in order, a later write to a path replacing an earlier one; stated by Routes.LastWriteWins and Routes.WrittenPaths |
| Routes.OutputPathSegments | gen4.py:41-46 | the output path is the build directory, the collection unless it is `root`, and the stem with `.html` |
| Routes.OutputPathInjective | gen4.py:41-46 | for collections that are non-empty names, the output path determines the stem and the collection; every `root` page stays out of collection directories |
| Routes.EmptyCollectionSharesRoot | gen3.py:42-47 | the empty collection, which an absolute path gives in `gen2` and `gen3`, writes to the same file as `root` |
| Routes.LastWriteWins | gen4.py:50-51 | a path holds the last rendering written to it |
| Routes.WrittenPaths | gen4.py:50-51 | a path is on disk exactly when some rendering wrote it |
| Routes.SameStemCollides | gen4.py:41-51 | two records with the same collection and stem share a file, and the second one remains |
| Gen2.DefaultDirectories | gen2.py:35-36 | without configuration the build goes to `public` and the source is `source` |
| Gen2.BuildDirOf | gen2.py:35 | `build_directory`, or `public` |
| Gen2.SourceDirOf | gen2.py:36 | the directory name of `root_directory`, or of `source/root` |
| Gen2.Generate | gen2.py:32-73 | one record per Markdown file below the source directory, in walk order, whose collection is the first component of its path |
| Gen2.CollectionIsSourceDir | gen2.py:60 | in a walk of `source` every file is in the collection `source` |
| Gen2.StemOfMarkdownFile | gen2.py:63 | the record's stem is the file name without `.md` |
| Gen3.RenderHtml | gen3.py:31-56 | fails with TypeError exactly when `build_directory` is missing; otherwise renders the record with `base.html` to the path its collection chooses under `build_directory` |
| Gen3.RenderAll | gen3.py:101-102 | fails exactly when there is a record and no `build_directory`; otherwise one rendering per record, in order |
| Gen3.Generate | gen3.py:60-102 | the records of the first generator, then their renderings, or TypeError as above |
| Gen3.DefaultSourceRoute | gen3.py:42-47 | with the default source, `source/.../x.md` is written to `<build>/source/x.html` |
| Gen4.CollectionBelowSource | gen4.py:73-74 | a file's collection is the first component below the source directory |
| Gen4.TopLevelFileCollection | gen4.py:73-74 | a file directly in the source directory is its own collection |
| Gen4.Collection | gen4.py:73-74 | the first component of the path relative to the source directory; stated by Gen4.CollectionBelowSource and Gen4.TopLevelFileCollection |
| Gen4.BuildDirOf | gen4.py:58 | `build_directory`, or `build` |
| Gen4.SourceDirOf | gen4.py:59 | `source_directory`, or `source` |
| Gen4.SkipDirsOf | gen4.py:60 | `skip_directories`, or no directory |
| Gen4.RenderHtml | gen4.py:34-53 | the record rendered with `base.html` to the path its collection chooses, the build directory defaulting to `build` |
| Gen4.RenderAll | gen4.py:87-88 | one rendering per record, in order |
| Gen4.Generate | gen4.py:56-88 | records for the Markdown files outside skipped directories, collections taken relative to the source directory, then one rendering each |
| Gen4.NestedFile | gen4.py:73-74 | a file in a directory of collection `c` has the expected components, is in collection `c` and keeps its file name |
| Gen4.NestedDistinct | gen4.py:66-78 | files in two different directories are different keys |
| Gen4.SameStemCollision | gen4.py:73-76 | two files with one name in two directories of one collection are distinct records written to the same page |
| Gen8.RenderHtml | gen8.py:45-67 | the record with its content converted, rendered with `lump` to the path its collection chooses |
| Gen8.InPages | gen8.py:102 | the filter keeps a record exactly when its collection is `pages` |
| Gen8.RenderAll | gen8.py:109-110 | every record's content is converted in the table, keys and other fields unchanged, and each record is rendered once, in order, with `lump='example_value'` |
| Gen8.Generate | gen8.py:70-110 | the records of the third generator, the `pages` view, a sample of `min(3, len)` of its entries, then the rendering of every record |

## Left out

- Reading files, `frontmatter.load`, `markdown.markdown`, `str.title()`, `os.listdir` and `os.walk` are parameters of the model. Their own behaviour is not modelled.
- The walk is given as a sequence of (directory, file names) pairs. That these are what `os.walk` yields, and in what order, is not modelled.
- Jinja2 is left out: loading templates, `template_directory`, and the rendered HTML. A page is its template's name and the context it is given. A missing template, which raises in the scripts, is not modelled.
- Writing files, `os.makedirs`, `prepare_build_directory`, the `cp -r` calls of `builder.py` and every `print` are left out. `Routes.Written` describes the writes' end result.
- `load_config` and JSON are left out. The configuration is a record of optional entries, and entries of the wrong type are not modelled.
- Front-matter values are `None`, booleans, integers and strings. Lists, mappings, dates and floats are not modelled.
- Builder.CollectPages: the date comes from the clock on every file. The model uses one date string for the whole run, given as a parameter.
- Collections.SelectRandomEntries: `random.sample` is modelled as any choice of distinct keys of the required number. The order of the sampled keys and the random generator are not modelled.
- Gen8.Generate: in `gen8.py` the records of `pages_data` and `random_pages_data` are the same objects as those of `all_file_data`, so converting a record's content also changes them. The model returns these two views as they were before rendering and does not model this aliasing.
- Paths.RelPath: it compares components as written. Making both paths absolute against the working directory, `.` and `..` components, and the ValueError for an empty path are not modelled.
- Paths are POSIX paths with `/` as `os.sep`.
- Builder.Build: both loops are given the same listing and the same `load`. That `os.listdir` (builder.py:28, builder.py:86) returns the same names both times, and that each file reads the same both times, is not modelled.
- Gen3.RenderHtml: the `if not data` branch cannot be taken, since every record has four fields, so it is not modelled.
- Discovery.SkippingOnlyRemoves: it states that every file found with a skip list is found without one. That the order is kept is not stated.
