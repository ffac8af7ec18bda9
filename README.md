# saas-pulse pipeline, modelled in Dafny

saas-pulse is a four-stage batch pipeline over funding news. This project models its four stages and proves properties of each.

- **Scraper** (`scraper.dfy`):
  - walks the listing pages of the seed-round news section, from page 1 up to page 2, stopping at the first page without links;
  - collects each page's article links: anchors whose `href` mentions "news", resolved against the base address, with pagination links and a denylist removed;
  - renders every article (title, byline, paragraphs, headings, bulleted lists) to plain text;
  - stores each article as `<slug>.txt` in the page's directory `page_<n>`.
- **File merger** (`file_merger.dfy`): for every `page_*` directory, in sorted order, joins the directory's sorted `.txt` files with the separator `\n\n----------\n\n`. The result goes to `<page>.txt`.
- **Content analyzer** (`content_analyzer.dfy`):
  - sends every merged `.txt` bundle, in sorted order, to a language model behind a fixed prompt prefix;
  - turns escaped `\n` in the reply into line breaks and strips surrounding double quotes;
  - stores a non-empty result as `<name>_analysis.txt`, where every `.txt` in the name becomes `_analysis.txt`.
- **Report generator** (`report_generator.dfy`):
  - reads the `*_analysis.txt` files in sorted order and keeps their stripped non-blank lines;
  - takes the first line of the first file that has one as the CSV header;
  - drops the first line of every file and keeps all other lines as rows;
  - writes the header and rows, joined by newlines, to `report.txt`, unless the result is empty.

Shared modules:

- `text.dfy`: Python string operations on ASCII text. These are `strip`, `in`, `replace`, `''.join`, `sep.join`, `split`, `lower` and decimal formatting.
- `listing.dfy`: Python's string order and `sorted`, plus directory listings. A listing comes back in an order left open, and sorting it gives the one sorted enumeration of the names.
- `wrappers.dfy`: `Option`.

A directory is a `map` from names to contents. Everything the pipeline cannot see is a parameter of the model:

- the listing and article pages of the site, and `urljoin`, are fields of `Scraper.Site`;
- the language-model call is `complete`.

Each stateful operation is a method whose loop is proved against a specification function:

| method | specification function |
|---|---|
| `MergeTextFiles` | `MergeAll` |
| `ProcessFiles` | `Analyses` |
| `MergeAnalysisFiles` | `ReportText` |
| `RenderArticle` | `ArticleText` |
| `ScrapePage` | `PageLinks` |
| `ScrapeAll` | `VisitedPages` and `PagesStored` |

Lemmas then state what those functions guarantee.

Behaviour of the code worth knowing, all of it modelled:

- `strip('"')` at apps/content_analyzer.py:75 strips every leading and trailing double quote, not only one.
- `if analysis:` at apps/content_analyzer.py:98 writes a reply only when the cleaned reply is non-empty.
- `file.replace('.txt', '_analysis.txt')` at apps/content_analyzer.py:99 replaces every `.txt` in the name, not only the extension.
- apps/report_generator.py:43-46 takes the header from the first file that has a non-blank line, which need not be the first file.

## Model

| member | source | states |
|---|---|---|
| Text.Lower | apps/scraper.py:37 | `lower()` keeps the length |
| Text.TrimStartSpec | apps/report_generator.py:41 | stripping the front keeps the longest suffix that does not start with a stripped character; everything removed was strippable |
| Text.TrimEndSpec | apps/report_generator.py:41 | stripping the back keeps the longest prefix that does not end with a stripped character; everything removed was strippable |
| Text.TrimIsMaximalInfix | apps/report_generator.py:41 | `strip` returns a contiguous infix whose surroundings are all stripped characters and whose ends are not |
| Text.TrimEndOfSuffix | apps/report_generator.py:41 | stripping the back of a suffix yields an infix of the original, followed only by stripped characters |
| Text.TrimNoOp | apps/report_generator.py:41 | `strip` leaves a text unchanged when neither end is strippable |
| Text.TrimIdempotent | apps/report_generator.py:41 | stripping twice equals stripping once |
| Text.TrimEmpty | apps/report_generator.py:41 | `strip` gives "" exactly when every character is strippable |
| Text.Contains | apps/scraper.py:120 | `sub in s` holds exactly when `sub` occurs at some position of `s` |
| Text.ConcatCons | apps/scraper.py:92 | `''.join` of a piece followed by more pieces is that piece followed by their join |
| Text.ConcatAppend | apps/scraper.py:92 | `''.join` distributes over concatenating the piece lists |
| Text.JoinSnoc | apps/report_generator.py:52 | joining one more part adds exactly one separator, before that part |
| Text.JoinEnds | apps/report_generator.py:52 | a join starts with its first part and ends with its last |
| Text.JoinLength | apps/report_generator.py:52 | a join of n parts has their total length plus n - 1 separators |
| Text.Split | apps/report_generator.py:52 | splitting gives at least one field, and no field contains the separator |
| Text.SplitPrefix | apps/report_generator.py:52 | splitting a text with a separator-free prefix glues that prefix to the first field |
| Text.SplitJoin | apps/report_generator.py:52 | splitting a newline join of newline-free lines gives the lines back |
| Text.NatToString | apps/scraper.py:107 | decimal formatting yields only digits, without a leading zero |
| Text.NatToStringRoundTrip | apps/scraper.py:107 | the decimal form of n reads back as n |
| Listing.LexLeTotal | apps/file_merger.py:19 | Python's string order is total |
| Listing.LexLeTrans | apps/file_merger.py:19 | the string order is transitive |
| Listing.LexLeAntisym | apps/file_merger.py:19 | the string order is antisymmetric |
| Listing.LexLeRefl | apps/file_merger.py:19 | the string order is reflexive |
| Listing.Insert | apps/report_generator.py:25 | insertion adds exactly the one element to the multiset |
| Listing.InsertSorted | apps/report_generator.py:25 | inserting into a sorted list keeps it sorted |
| Listing.Sort | apps/report_generator.py:25 | `sorted` returns a sorted permutation of its input |
| Listing.HeadIsLeast | apps/report_generator.py:25 | the head of a sorted list is below every member |
| Listing.SameHead | apps/report_generator.py:25 | two sorted permutations of each other share their head |
| Listing.SameTail | apps/report_generator.py:25 | equal heads leave equal multisets behind |
| Listing.SortedUnique | apps/report_generator.py:25 | two sorted permutations of each other are equal, so `sorted` is determined by the elements |
| Listing.DistinctCount | apps/file_merger.py:19 | a name occurs at most once in a duplicate-free list |
| Listing.DistinctSameElements | apps/file_merger.py:19 | duplicate-free lists with the same members are permutations of each other |
| Listing.MinExists | apps/file_merger.py:19 | a non-empty set of names has a least name |
| Listing.SortedSet | apps/file_merger.py:19 | the sorted enumeration of a set is sorted, duplicate-free and holds exactly the set |
| Listing.SortListing | apps/file_merger.py:19 | sorting any duplicate-free listing of a set gives its sorted enumeration, whatever the listing order |
| Listing.SortedSetUnique | apps/file_merger.py:19 | a sorted duplicate-free list of exactly a set's members is that set's sorted enumeration |
| Listing.Filter | apps/file_merger.py:19 | the comprehension filter keeps exactly the members that satisfy the test, without adding duplicates |
| Listing.ListNames | apps/file_merger.py:19 | `os.listdir` lists every name of the directory once, in an order left open |
| Listing.SortedNames | apps/file_merger.py:24 | `sorted(f for f in os.listdir(d) if p(f))` is sorted, duplicate-free, and holds exactly the matching names |
| Listing.Contents | apps/file_merger.py:33-35 | reading the named files in order gives their contents in that order |
| ReportGenerator.LineEnd | apps/report_generator.py:41 | the first line ends after the first newline, or at the end of the text |
| ReportGenerator.ReadLinesConcat | apps/report_generator.py:41 | `readlines` loses nothing: the lines put together are the file's text |
| ReportGenerator.ReadLinesShape | apps/report_generator.py:41 | no line is empty, a newline can only end a line, and every line but the last ends with one |
| ReportGenerator.ReadLinesOneLine | apps/report_generator.py:41 | a text without a newline is read as one line |
| ReportGenerator.LineEndAt | apps/report_generator.py:41 | the first line ends just after the first newline |
| ReportGenerator.StripHasNoNewline | apps/report_generator.py:41 | a stripped line has no newline left |
| ReportGenerator.StripNonBlank | apps/report_generator.py:41 | the comprehension keeps at most as many lines as it reads |
| ReportGenerator.StripClean | apps/report_generator.py:41 | a kept line has no blank at either end and no newline |
| ReportGenerator.StripNonBlankClean | apps/report_generator.py:41 | every kept line of a file is clean |
| ReportGenerator.KeptLinesClean | apps/report_generator.py:41 | every kept line of a file's text is clean |
| ReportGenerator.CleanIsStripped | apps/report_generator.py:41 | stripping a clean line changes nothing |
| ReportGenerator.StripWithNewline | apps/report_generator.py:41 | stripping a clean line plus its newline gives the line |
| ReportGenerator.ReadHeaderAndRow | apps/report_generator.py:41 | `H\nrow` is read as the lines `H\n` and `row` |
| ReportGenerator.KeptHeaderAndRow | apps/report_generator.py:41 | `H\nrow` keeps the lines `H` and `row` |
| ReportGenerator.KeptAll | apps/report_generator.py:37-41 | one list of kept lines per file, in file order |
| ReportGenerator.KeptAllWellKept | apps/report_generator.py:37-41 | all kept lines of all files are clean |
| ReportGenerator.HeaderSnoc | apps/report_generator.py:43-46 | a later file can only supply the header when no earlier file did, and then it supplies its first kept line |
| ReportGenerator.DataRowsAppend | apps/report_generator.py:48-50 | the rows of consecutive file groups are the concatenation of their rows |
| ReportGenerator.NoHeaderIffAllBlank | apps/report_generator.py:43-46 | there is no header exactly when every file is blank |
| ReportGenerator.AllBlankNoRows | apps/report_generator.py:48-50 | blank files contribute no rows |
| ReportGenerator.NoHeaderNoRows | apps/report_generator.py:43-50 | without a header there are no rows |
| ReportGenerator.HeaderIsFirstNonBlank | apps/report_generator.py:43-46 | the header is line 0 of the first non-blank file, whatever blank files precede it |
| ReportGenerator.HeaderFrom | apps/report_generator.py:43-46 | the header is the first kept line of some file |
| ReportGenerator.DataRowsAt | apps/report_generator.py:48-50 | rows keep file order and line order, and every file loses exactly its first line |
| ReportGenerator.DataRowsCount | apps/report_generator.py:48-50 | there are Σ max(0, linesᵢ - 1) rows |
| ReportGenerator.DataRowsFrom | apps/report_generator.py:48-50 | every row is a non-first kept line of some file |
| ReportGenerator.ReportLineCount | apps/report_generator.py:33-52 | with any non-blank file the report has exactly one header, first, plus the rows; with none it is empty |
| ReportGenerator.ReportReadBack | apps/report_generator.py:52 | every report line is a clean kept line, and splitting the report at newlines gives its lines back |
| ReportGenerator.AllBlankReport | apps/report_generator.py:27-52 | all-blank files merge to "" |
| ReportGenerator.ReportEmptyIffAllBlank | apps/report_generator.py:27-52 | the merged report is "" exactly when every file is blank |
| ReportGenerator.TwoFileExample | apps/report_generator.py:27-52 | files `H\nrow1` and `H\nrow2` give `H\nrow1\nrow2` |
| ReportGenerator.LinesSnoc | apps/report_generator.py:43-50 | how the header and rows before and after one file determine the new report lines |
| ReportGenerator.ReportLinesSnoc | apps/report_generator.py:37-50 | one more file adds its first line only if no header was found yet, then its other lines |
| ReportGenerator.MergeStep | apps/report_generator.py:37-50 | one loop iteration updates the header and lines as the specification prescribes |
| ReportGenerator.MergeAnalysisFiles | apps/report_generator.py:27-52 | `None` for no files; otherwise the newline join of the header and rows |
| ReportGenerator.ReadAnalyzedFiles | apps/report_generator.py:16-25 | exactly the `*_analysis.txt` names, sorted, without duplicates |
| ReportGenerator.SaveReport | apps/report_generator.py:54-73 | an empty report is not saved; otherwise `report.txt` gets the content and nothing else changes |
| ReportGenerator.GenerateReport | apps/report_generator.py:75-93 | `report.txt` receives the merged report exactly when that report is non-empty; otherwise the output directory is unchanged |
| ReportGenerator.ReportWrittenIffSomeNonBlank | apps/report_generator.py:75-93 | the report is written exactly when some analysis file has a non-blank line |
| FileMerger.PageNames | apps/file_merger.py:19 | the page names are sorted, duplicate-free, and exactly the entries starting with `page_` |
| FileMerger.TextFiles | apps/file_merger.py:24 | the text files are sorted, duplicate-free, and exactly the names ending in `.txt`; the analyzer selects its input bundles the same way |
| FileMerger.OutputName | apps/file_merger.py:29 | the output name is the page name followed by `.txt` |
| FileMerger.OutputNameInjective | apps/file_merger.py:29 | different pages never share an output file |
| FileMerger.WriteBundle | apps/file_merger.py:32-37 | the written file is the contents in order, with the separator between consecutive files and none at the end |
| FileMerger.BundleStep | apps/file_merger.py:33-37 | one more file adds a separator and its content, except for the first file |
| FileMerger.MergeTextFiles | apps/file_merger.py:9-39 | the output directory ends as the specification `MergeAll` says |
| FileMerger.PageStep | apps/file_merger.py:19-37 | a page with `.txt` files sets its bundle; any other page changes nothing |
| FileMerger.OutputsSpec | apps/file_merger.py:19-39 | after a run of pages, each producing page has its bundle, no other file is added, and other files keep their content |
| FileMerger.MergeAllSpec | apps/file_merger.py:9-39 | every page directory holding `.txt` files gets its bundle; plain files, other names and empty pages produce nothing; other outputs are kept |
| FileMerger.BundleShape | apps/file_merger.py:32-37 | a bundle of n files holds their contents plus exactly n - 1 separators, starts with the first file and ends with the last |
| FileMerger.SingleFileBundle | apps/file_merger.py:24-37 | a page with one `.txt` file bundles to that file's text as read |
| FileMerger.TwoFileBundle | apps/file_merger.py:24-37 | two files merge to the first, the separator, then the second (`Alpha` and `Beta`) |
| ContentAnalyzer.UserMessage | apps/content_analyzer.py:64-68 | the user message is the fixed prefix followed by the bundle's text as read |
| ContentAnalyzer.UnescapeHead | apps/content_analyzer.py:75 | the replacement turns a leading `\n` escape into a line break and otherwise keeps the first character |
| ContentAnalyzer.UnescapeRemovesAll | apps/content_analyzer.py:75 | after the replacement no backslash is followed by `n` |
| ContentAnalyzer.NoEscapedNewlineInfix | apps/content_analyzer.py:75 | every infix of an escape-free text is escape-free |
| ContentAnalyzer.NoEscapedNewlineNotContains | apps/content_analyzer.py:75 | an escape-free text does not contain `\n` as two characters |
| ContentAnalyzer.CleanHasNoEscapedNewline | apps/content_analyzer.py:75 | a cleaned reply never contains an escaped newline |
| ContentAnalyzer.CleanIsQuoteStrippedInfix | apps/content_analyzer.py:75 | a cleaned reply is an infix of the unescaped reply, surrounded only by quotes, that neither starts nor ends with a quote |
| ContentAnalyzer.CleanEmptyIffOnlyQuotes | apps/content_analyzer.py:75 | a reply cleans to "" exactly when the unescaped reply is all quotes |
| ContentAnalyzer.CleanIdempotent | apps/content_analyzer.py:75 | stripping quotes again changes nothing |
| ContentAnalyzer.AnalyzeContent | apps/content_analyzer.py:55-79 | `None` exactly when the model call fails; otherwise the cleaned reply to the prefixed bundle |
| ContentAnalyzer.ReplaceSkipsPrefix | apps/content_analyzer.py:99 | `replace` leaves a prefix untouched when the pattern's first character is absent from it |
| ContentAnalyzer.OutputNameAfterStem | apps/content_analyzer.py:99 | in `stem.txt…` with a dot-free stem, the first `.txt` becomes `_analysis.txt` |
| ContentAnalyzer.PageOutputName | apps/content_analyzer.py:99 | `page_<n>.txt` becomes `page_<n>_analysis.txt` |
| ContentAnalyzer.DoubleSuffixOutputName | apps/content_analyzer.py:99 | `stem.txt.txt` becomes `stem_analysis.txt_analysis.txt`: every `.txt` is replaced |
| ContentAnalyzer.FileStep | apps/content_analyzer.py:90-105 | one more bundle updates the output directory as the step `Record` says |
| ContentAnalyzer.ProcessFiles | apps/content_analyzer.py:81-110 | the output directory ends as the specification `Analyses` says |
| ContentAnalyzer.AnalysesKeys | apps/content_analyzer.py:90-105 | files end up in the output exactly when they were there before or some bundle's non-empty analysis was stored under that name |
| ContentAnalyzer.AnalysesValues | apps/content_analyzer.py:90-105 | every output file holds its old content or the analysis of a bundle mapped to that name |
| ContentAnalyzer.AnalysesKeep | apps/content_analyzer.py:90-105 | an existing file no analysis is written to keeps its content |
| ContentAnalyzer.ProcessFilesSpec | apps/content_analyzer.py:81-110 | the whole run adds only analysis outputs, each holding a bundle's cleaned non-empty reply, and keeps everything else |
| ContentAnalyzer.NothingWrittenWithoutAnalysis | apps/content_analyzer.py:97-107 | when every call fails or cleans to "", the output directory is unchanged |
| Scraper.RemoveDisallowed | apps/scraper.py:36 | only word characters, blanks and hyphens survive, and a text of only those is unchanged |
| Scraper.CollapseSeparators | apps/scraper.py:37 | no blank or hyphen survives; allowed input gives only word characters; separator-free input is unchanged |
| Scraper.CleanFilename | apps/scraper.py:33-38 | the file name is the stem followed by `.txt` |
| Scraper.HyphenStripIsNoOp | apps/scraper.py:37 | after collapsing, `.strip('-')` removes nothing |
| Scraper.LowerSlug | apps/scraper.py:37 | lower-casing word characters gives lower-case letters, digits and underscores |
| Scraper.StemIsSlug | apps/scraper.py:33-38 | a stem holds only lower-case letters, digits and underscores |
| Scraper.LowerNoOp | apps/scraper.py:37 | lower-casing a slug changes nothing |
| Scraper.StemIdempotent | apps/scraper.py:33-38 | cleaning a stem gives the stem back, so the title and its stem name the same file |
| Scraper.Alnums | apps/scraper.py:33-38 | the picked characters are letters and digits |
| Scraper.AlnumsOfRemove | apps/scraper.py:36 | removing disallowed characters keeps every letter and digit in order |
| Scraper.AlnumsOfSeparators | apps/scraper.py:37 | dropping a separator run loses no letter or digit |
| Scraper.AlnumsOfCollapse | apps/scraper.py:37 | collapsing separators keeps every letter and digit in order |
| Scraper.AlnumsOfLower | apps/scraper.py:37 | lower-casing maps the letters and digits one to one |
| Scraper.StemKeepsAlnums | apps/scraper.py:33-38 | the stem's letters and digits are the title's, lower-cased, in order |
| Scraper.ContainsAny | apps/scraper.py:99 | `any(x in s …)` holds exactly when some entry occurs in `s` |
| Scraper.ShouldSkipUrl | apps/scraper.py:97-99 | an address is skipped exactly when some denylisted entry occurs in it, lower-cased |
| Scraper.LowerIdempotent | apps/scraper.py:99 | lower-casing twice equals lower-casing once |
| Scraper.SkipIgnoresCase | apps/scraper.py:97-99 | the skip test gives the same answer for an address and its lower-case form |
| Scraper.PageUrl | apps/scraper.py:104-107 | a page address always starts with the base |
| Scraper.PageUrlShape | apps/scraper.py:104-107 | no page or page ≤ 1 gives the base; page n > 1 gives the base, `?page=`, and decimal digits that read back as n |
| Scraper.PageDirInjective | apps/scraper.py:138 | different pages use different directories |
| Scraper.LinksOfSpec | apps/scraper.py:119-129 | a link is collected exactly when some non-empty `href` mentioning "news" resolves to it and it is kept |
| Scraper.ScrapePage | apps/scraper.py:101-133 | the links are exactly those the specification `PageLinks` collects; a failed request gives none |
| Scraper.BulletLines | apps/scraper.py:85-87 | one bullet line per list item |
| Scraper.FlatMapAppend | apps/scraper.py:81-90 | the pieces of consecutive element runs are the concatenation of their pieces |
| Scraper.BodyStep | apps/scraper.py:81-90 | one more element appends its own pieces |
| Scraper.BulletStep | apps/scraper.py:85-87 | one more list item appends its bullet line |
| Scraper.RenderElement | apps/scraper.py:82-90 | an element's pieces: nothing when blank, bullet lines and a blank line for a list, otherwise its text and a blank line |
| Scraper.RenderBody | apps/scraper.py:78-90 | the body's pieces, element by element, in document order |
| Scraper.RenderArticle | apps/scraper.py:66-92 | the article text is the title, then the byline if any, then the body pieces, with nothing between them |
| Scraper.BlankElementIgnored | apps/scraper.py:81-82 | a blank element adds nothing wherever it stands |
| Scraper.ListPieces | apps/scraper.py:84-88 | a non-blank list gives one bullet line per item, in order, then one blank line |
| Scraper.ArticleStartsWithTitle | apps/scraper.py:69 | an article text starts with the title and a blank line, so it is never empty |
| Scraper.ScrapeArticle | apps/scraper.py:40-95 | the article the specification `ArticleAt` gives: title from the preview, the rest from the "Continue reading" target; nothing on a failed request or a missing `h1` |
| Scraper.SavedIffTitled | apps/scraper.py:153-154 | an article is stored exactly when it was scraped with a non-empty title |
| Scraper.TargetsStep | apps/scraper.py:151-160 | one more link adds its file name only when its article is stored |
| Scraper.StoredStep | apps/scraper.py:151-160 | storing one more link keeps the invariant: only stored articles' names are added, each holds some such article's text, and other files are unchanged |
| Scraper.ProcessPage | apps/scraper.py:135-162 | success exactly when the page has links; the directory is unchanged without links, otherwise it gains the page's stored articles |
| Scraper.VisitedPagesSpec | apps/scraper.py:169-179 | the visited pages are consecutive from the first; every one before the last had links; the walk ends at the last page or the first page without links |
| Scraper.PagesStoredStep | apps/scraper.py:164-179 | processing one more page keeps the invariant: each visited page's directory holds its result and other directories are unchanged |
| Scraper.PageDirsDistinct | apps/scraper.py:138 | earlier pages never share the directory of a later one |
| Scraper.ScrapeAll | apps/scraper.py:164-179 | the pages visited are those `VisitedPages` gives, and each has its directory, filled as `process_page` fills it |

## Left out

- HTTP requests, the delays between them, console output and exception messages are not modelled. A failed request is `None` in the model.
- HTML parsing is abstracted. A page is seen only through what the scraper reads: the first `h1`, the "Continue reading" target, the byline `div`, and the `p`/`h2`/`h3`/`ul`/`ol` elements of the article container.
- Scraper.ScrapeArticle: a "Continue reading" anchor without `href` raises `KeyError` in the code, so the article is lost. The model treats it as an absent link.
- Scraper.RenderElement: a list element nested inside another selected element is visited twice by `find_all`. The model takes the element sequence as given.
- `urljoin` and the language-model call are parameters. The system prompt and the model settings are fixed inside the call, so they are left out.
- Character classes are ASCII only. The model covers `str.strip()`'s whitespace, `\w`, `\s` and `lower()` on ASCII, not their Unicode extent.
- `readlines` universal-newline translation (`\r\n` and `\r`) is not modelled. Lines are cut after `\n` only.
- Listing.Contents: the text-mode `read()` at apps/file_merger.py:34-35 turns `\r\n` and `\r` into `\n`, and the model does not. A stored text stands for the file's text after that translation, so bundles of files containing `\r` are not covered as written.
- ContentAnalyzer.ProcessFiles: the text-mode `f.read()` at apps/content_analyzer.py:94-95 translates newlines in the same way before the message is built. `input[f]` stands for the translated text, and a bundle containing `\r` is not covered as written.
- `os.listdir` order and the iteration order of the link set are left open. Several links whose titles give the same file name leave one of their texts in that file, and the model does not say which.
- Directory creation and write errors are not modelled. A page directory is created even when the page has no links, and the model does keep this.
- Entries named `*.txt` that are directories, inside a page directory or the analyzer's input, are not modelled. Neither are `*_analysis.txt` directories in the reporter's input. Each of these would make the code raise.
- ContentAnalyzer.ProcessFiles: an exception outside the model call aborts the remaining files in the code. The model does not include that.
- `main.py`, which runs the four stages in sequence, is not part of this model.
