/**
 * The scraper: walks the listing pages of the seed-round news section,
 * collects the article links of each page, renders every article to plain
 * text and stores it under a file name derived from its title, in one
 * directory per page. It stops at the first page that yields no links.
 * Fetching and HTML parsing are parameters: a page is seen only through the
 * parts the scraper reads from it.
 */
module Scraper {
  import opened Wrappers
  import opened Text
  import opened Listing

  const BASE_URL := "https://www.thesaasnews.com/news/seed-round"
  const START_PAGE := 1
  const END_PAGE := 2
  const EXCLUDED_URLS: seq<string> := [
    "thesaasnews.com/news/growth-round",
    "thesaasnews.com/news/private-equity-investment",
    "thesaasnews.com/news/series-a",
    "thesaasnews.com/news/series-b",
    "thesaasnews.com/news/series-c",
    "thesaasnews.com/news/series-d",
    "thesaasnews.com/news/series-e",
    "thesaasnews.com/news/series-f"
  ]
  const PAGE_QUERY := "?page="
  const TEXT_SUFFIX := ".txt"
  const BULLET := "\U{2022} "
  const NEWLINE := "\n"
  const BLANK_LINE := "\n\n"

  // ---------------------------------------------------------------------
  // File names from titles
  // ---------------------------------------------------------------------

  /** The characters `[\w\s-]` that survive the first substitution. */
  predicate IsAllowed(c: char)
  {
    IsWordChar(c) || IsSpace(c) || c == '-'
  }

  /** The characters `[-\s]` whose runs the second substitution collapses. */
  predicate IsSeparator(c: char)
  {
    c == '-' || IsSpace(c)
  }

  predicate IsHyphen(c: char)
  {
    c == '-'
  }

  /** The characters a file stem is made of. */
  predicate IsSlugChar(c: char)
  {
    ('a' <= c <= 'z') || ('0' <= c <= '9') || c == '_'
  }

  /** `re.sub(r'[^\w\s-]', '', s)`: every other character deleted. */
  function RemoveDisallowed(s: string): (r: string)
    ensures forall i :: 0 <= i < |r| ==> IsAllowed(r[i])
    ensures (forall i :: 0 <= i < |s| ==> IsAllowed(s[i])) ==> r == s
  {
    if s == [] then []
    else if IsAllowed(s[0]) then [s[0]] + RemoveDisallowed(s[1..])
    else RemoveDisallowed(s[1..])
  }

  /** `re.sub(r'[-\s]+', '_', s)`: every maximal run of hyphens and blanks becomes one underscore. */
  function CollapseSeparators(s: string): (r: string)
    ensures forall i :: 0 <= i < |r| ==> !IsSeparator(r[i])
    ensures (forall i :: 0 <= i < |s| ==> IsAllowed(s[i])) ==> forall i :: 0 <= i < |r| ==> IsWordChar(r[i])
    ensures (forall i :: 0 <= i < |s| ==> !IsSeparator(s[i])) ==> r == s
    decreases |s|
  {
    if s == [] then []
    else if IsSeparator(s[0]) then
      var rest := TrimStart(s, IsSeparator);
      TrimStartSpec(s, IsSeparator);
      assert |rest| < |s|;
      "_" + CollapseSeparators(rest)
    else [s[0]] + CollapseSeparators(s[1..])
  }

  /** The stem of `clean_filename`: disallowed characters removed, separator runs collapsed, hyphens stripped, lower-cased. */
  function Stem(title: string): string
  {
    Lower(Trim(CollapseSeparators(RemoveDisallowed(title)), IsHyphen))
  }

  /** `clean_filename`: the stem followed by `.txt`. */
  function CleanFilename(title: string): (r: string)
    ensures EndsWith(r, TEXT_SUFFIX)
    ensures r[..|r| - |TEXT_SUFFIX|] == Stem(title)
  {
    Stem(title) + TEXT_SUFFIX
  }

  /** After collapsing no hyphen is left, so `.strip('-')` never removes anything. */
  lemma HyphenStripIsNoOp(title: string)
    ensures Trim(CollapseSeparators(RemoveDisallowed(title)), IsHyphen) == CollapseSeparators(RemoveDisallowed(title))
  {
    var c := CollapseSeparators(RemoveDisallowed(title));
    TrimNoOp(c, IsHyphen);
  }

  lemma LowerSlug(s: string)
    requires forall i :: 0 <= i < |s| ==> IsWordChar(s[i])
    ensures forall i :: 0 <= i < |Lower(s)| ==> IsSlugChar(Lower(s)[i])
  {
  }

  /** A stem holds only lower-case ASCII letters, digits and underscores: no blank, no hyphen, no capital. */
  lemma StemIsSlug(title: string)
    ensures forall i :: 0 <= i < |Stem(title)| ==> IsSlugChar(Stem(title)[i])
  {
    HyphenStripIsNoOp(title);
    LowerSlug(CollapseSeparators(RemoveDisallowed(title)));
  }

  lemma LowerNoOp(s: string)
    requires forall i :: 0 <= i < |s| ==> IsSlugChar(s[i])
    ensures Lower(s) == s
  {
  }

  /** A stem is its own stem: `clean_filename(stem) == stem + ".txt"`. */
  lemma StemIdempotent(title: string)
    ensures Stem(Stem(title)) == Stem(title)
    ensures CleanFilename(Stem(title)) == CleanFilename(title)
  {
    var s := Stem(title);
    StemIsSlug(title);
    assert RemoveDisallowed(s) == s;
    assert CollapseSeparators(s) == s;
    TrimNoOp(s, IsHyphen);
    LowerNoOp(s);
  }

  /** The ASCII letters and digits of `s`, in order. */
  function Alnums(s: string): (r: string)
    ensures forall i :: 0 <= i < |r| ==> IsAlnum(r[i])
  {
    if s == [] then [] else (if IsAlnum(s[0]) then [s[0]] else []) + Alnums(s[1..])
  }

  lemma {:induction false} AlnumsOfRemove(s: string)
    ensures Alnums(RemoveDisallowed(s)) == Alnums(s)
    decreases |s|
  {
    if s != [] {
      AlnumsOfRemove(s[1..]);
      if IsAllowed(s[0]) {
        assert ([s[0]] + RemoveDisallowed(s[1..]))[1..] == RemoveDisallowed(s[1..]);
      }
    }
  }

  lemma {:induction false} AlnumsOfSeparators(s: string, k: nat)
    requires k <= |s|
    requires forall i :: 0 <= i < k ==> IsSeparator(s[i])
    ensures Alnums(s[k..]) == Alnums(s)
    decreases k
  {
    if k > 0 {
      AlnumsOfSeparators(s[1..], k - 1);
      assert s[1..][k - 1..] == s[k..];
    }
  }

  lemma {:induction false} AlnumsOfCollapse(s: string)
    ensures Alnums(CollapseSeparators(s)) == Alnums(s)
    decreases |s|
  {
    if s != [] {
      if IsSeparator(s[0]) {
        var rest := TrimStart(s, IsSeparator);
        TrimStartSpec(s, IsSeparator);
        AlnumsOfSeparators(s, |s| - |rest|);
        AlnumsOfCollapse(rest);
        assert ("_" + CollapseSeparators(rest))[1..] == CollapseSeparators(rest);
      } else {
        AlnumsOfCollapse(s[1..]);
        assert ([s[0]] + CollapseSeparators(s[1..]))[1..] == CollapseSeparators(s[1..]);
      }
    }
  }

  lemma {:induction false} AlnumsOfLower(s: string)
    ensures Alnums(Lower(s)) == Lower(Alnums(s))
    decreases |s|
  {
    if s != [] {
      AlnumsOfLower(s[1..]);
      assert Lower(s)[1..] == Lower(s[1..]);
      assert Lower(s)[0] == LowerChar(s[0]);
      var a := if IsAlnum(s[0]) then [s[0]] else [];
      assert Lower(a + Alnums(s[1..])) == Lower(a) + Lower(Alnums(s[1..]));
    }
  }

  /** No letter or digit of the title is lost: the stem's letters and digits are the title's, lower-cased, in order. */
  lemma StemKeepsAlnums(title: string)
    ensures Alnums(Stem(title)) == Lower(Alnums(title))
  {
    HyphenStripIsNoOp(title);
    AlnumsOfRemove(title);
    AlnumsOfCollapse(RemoveDisallowed(title));
    AlnumsOfLower(CollapseSeparators(RemoveDisallowed(title)));
  }

  // ---------------------------------------------------------------------
  // URLs
  // ---------------------------------------------------------------------

  /** Some entry of `subs` occurs in `s`. */
  function ContainsAny(s: string, subs: seq<string>): (r: bool)
    ensures r <==> exists i :: 0 <= i < |subs| && Contains(s, subs[i])
  {
    if subs == [] then false
    else Contains(s, subs[0]) || ContainsAny(s, subs[1..])
  }

  /** `should_skip_url`: some excluded address occurs in the lower-cased URL. */
  function ShouldSkipUrl(url: string): (r: bool)
    ensures r <==> exists i :: 0 <= i < |EXCLUDED_URLS| && Contains(Lower(url), EXCLUDED_URLS[i])
  {
    ContainsAny(Lower(url), EXCLUDED_URLS)
  }

  lemma LowerIdempotent(s: string)
    ensures Lower(Lower(s)) == Lower(s)
  {
  }

  /** The test ignores case. */
  lemma SkipIgnoresCase(url: string)
    ensures ShouldSkipUrl(Lower(url)) == ShouldSkipUrl(url)
  {
    LowerIdempotent(url);
  }

  /** `scrape_page`'s page address: the base for no page or a page up to 1, else the base with a page query. */
  function PageUrl(base: string, pageNum: Option<int>): (r: string)
    ensures StartsWith(r, base)
  {
    if pageNum.Some? && pageNum.value != 0 && pageNum.value > 1 then base + PAGE_QUERY + IntToString(pageNum.value)
    else base
  }

  /** Pages after the first carry their number, which can be read back from the address. */
  lemma PageUrlShape(base: string, pageNum: Option<int>)
    ensures pageNum.None? || pageNum.value <= 1 ==> PageUrl(base, pageNum) == base
    ensures pageNum.Some? && pageNum.value > 1 ==>
              var r := PageUrl(base, pageNum);
              StartsWith(r, base + PAGE_QUERY)
              && (forall i :: |base + PAGE_QUERY| <= i < |r| ==> IsDigit(r[i]))
              && DecimalValue(r[|base + PAGE_QUERY|..]) == pageNum.value
  {
    if pageNum.Some? && pageNum.value > 1 {
      var n := pageNum.value;
      var r := PageUrl(base, pageNum);
      assert r[|base + PAGE_QUERY|..] == NatToString(n);
      NatToStringRoundTrip(n);
    }
  }

  /** `page_{n}`: the directory of page `n`. */
  function PageDir(n: int): string
  {
    "page_" + IntToString(n)
  }

  /** Different pages are stored in different directories. */
  lemma PageDirInjective(m: nat, n: nat)
    requires PageDir(m) == PageDir(n)
    ensures m == n
  {
    assert NatToString(m) == PageDir(m)[5..];
    assert NatToString(n) == PageDir(n)[5..];
    NatToStringRoundTrip(m);
    NatToStringRoundTrip(n);
  }

  // ---------------------------------------------------------------------
  // Links of a listing page
  // ---------------------------------------------------------------------

  /**
   * What the scraper sees of the web: the `href` of every anchor of a listing
   * page (`None` for an anchor without one) or `None` when the request fails;
   * the parsed article page at an address, or `None` when the request fails;
   * and `urljoin`.
   */
  datatype Site = Site(
    listing: string -> Option<seq<Option<string>>>,
    article: string -> Option<Page>,
    join: (string, string) -> string)

  /**
   * The parts of an article page the scraper reads: the text of the first
   * `h1` (`None` if there is none), the target of a "Continue reading" link,
   * the text of the first `div` mentioning "by", and the `p`, `h2`, `h3`,
   * `ul` and `ol` elements of the article container in document order
   * (`None` when the page has no container).
   */
  datatype Page = Page(heading: Option<string>, continueHref: Option<string>, byline: Option<string>, body: Option<seq<Element>>)

  /** A body element: a paragraph or heading, or a list with the texts of its items. */
  datatype Element = Block(text: string) | ListBlock(text: string, items: seq<string>)

  /** An anchor the listing filter selects: it has a non-empty `href` containing "news". */
  predicate IsNewsHref(href: Option<string>)
  {
    href.Some? && href.value != "" && Contains(href.value, "news")
  }

  /** A resolved address the scraper keeps: not a pagination link and not excluded. */
  predicate KeepsLink(url: string)
  {
    !Contains(url, "page=") && !ShouldSkipUrl(url)
  }

  /** The links collected from the anchors `hrefs`, resolved against `base`. */
  function LinksOf(base: string, hrefs: seq<Option<string>>, join: (string, string) -> string): set<string>
  {
    if hrefs == [] then {}
    else
      var h := hrefs[|hrefs| - 1];
      LinksOf(base, hrefs[..|hrefs| - 1], join)
      + if IsNewsHref(h) && KeepsLink(join(base, h.value)) then {join(base, h.value)} else {}
  }

  /** A link is collected exactly when some selected anchor resolves to it and it is kept. */
  lemma {:induction false} LinksOfSpec(base: string, hrefs: seq<Option<string>>, join: (string, string) -> string)
    ensures forall u :: u in LinksOf(base, hrefs, join) <==>
              exists i :: 0 <= i < |hrefs| && IsNewsHref(hrefs[i]) && u == join(base, hrefs[i].value) && KeepsLink(u)
    decreases |hrefs|
  {
    if hrefs != [] {
      var init := hrefs[..|hrefs| - 1];
      LinksOfSpec(base, init, join);
      assert forall i :: 0 <= i < |init| ==> init[i] == hrefs[i];
    }
  }

  /** The links `scrape_page` finds on page `pageNum`; a failed request finds none. */
  function PageLinks(site: Site, base: string, pageNum: Option<int>): set<string>
  {
    match site.listing(PageUrl(base, pageNum))
    case None => {}
    case Some(hrefs) => LinksOf(base, hrefs, site.join)
  }

  /** `scrape_page`: the selected anchors resolved against the base, filtered and de-duplicated. */
  method ScrapePage(site: Site, base: string, pageNum: Option<int>) returns (links: set<string>)
    ensures links == PageLinks(site, base, pageNum)
  {
    var response := site.listing(PageUrl(base, pageNum));
    if response.None? {
      return {};
    }
    var hrefs := response.value;
    links := {};
    for i := 0 to |hrefs|
      invariant links == LinksOf(base, hrefs[..i], site.join)
    {
      assert hrefs[..i + 1][..i] == hrefs[..i];
      var href := hrefs[i];
      if IsNewsHref(href) {
        var url := site.join(base, href.value);
        if !Contains(url, "page=") && !ShouldSkipUrl(url) {
          links := links + {url};
        }
      }
    }
    assert hrefs[..|hrefs|] == hrefs;
  }

  // ---------------------------------------------------------------------
  // Article text
  // ---------------------------------------------------------------------

  /** The bullet line of every item of a list, in order. */
  function BulletLines(items: seq<string>): (r: seq<string>)
    ensures |r| == |items|
  {
    seq(|items|, j requires 0 <= j < |items| => BULLET + Strip(items[j]) + NEWLINE)
  }

  /**
   * The pieces one body element appends: none when its text is blank; a
   * bullet line per item and then a blank line for a list; otherwise its
   * text and a blank line.
   */
  function ElementPieces(e: Element): seq<string>
  {
    var t := Strip(e.text);
    if t == "" then []
    else if e.ListBlock? then BulletLines(e.items) + [NEWLINE]
    else [t + BLANK_LINE]
  }

  /** The pieces `f` makes of each of `xs`, in order. */
  function FlatMap<T>(xs: seq<T>, f: T -> seq<string>): seq<string>
  {
    if xs == [] then [] else FlatMap(xs[..|xs| - 1], f) + f(xs[|xs| - 1])
  }

  lemma {:induction false} FlatMapAppend<T>(xs: seq<T>, ys: seq<T>, f: T -> seq<string>)
    ensures FlatMap(xs + ys, f) == FlatMap(xs, f) + FlatMap(ys, f)
    decreases |ys|
  {
    if ys == [] {
      assert xs + ys == xs;
    } else {
      assert (xs + ys)[..|xs + ys| - 1] == xs + ys[..|ys| - 1];
      FlatMapAppend(xs, ys[..|ys| - 1], f);
    }
  }

  /** The pieces of a sequence of body elements. */
  function BodyPieces(body: seq<Element>): seq<string>
  {
    FlatMap(body, ElementPieces)
  }

  /** The pieces of an article: title, optional byline, then the body. */
  function ArticlePieces(title: string, byline: Option<string>, body: Option<seq<Element>>): seq<string>
  {
    [title + BLANK_LINE]
    + (if byline.Some? then [Strip(byline.value) + BLANK_LINE] else [])
    + (if body.Some? then BodyPieces(body.value) else [])
  }

  /** The text of an article: its pieces joined with nothing between them. */
  function ArticleText(title: string, byline: Option<string>, body: Option<seq<Element>>): string
  {
    Concat(ArticlePieces(title, byline, body))
  }

  lemma BodyStep(body: seq<Element>, i: nat)
    requires i < |body|
    ensures BodyPieces(body[..i + 1]) == BodyPieces(body[..i]) + ElementPieces(body[i])
  {
    assert body[..i + 1][..i] == body[..i];
    assert body[..i + 1][i] == body[i];
  }

  lemma BulletStep(items: seq<string>, j: nat)
    requires j < |items|
    ensures BulletLines(items[..j + 1]) == BulletLines(items[..j]) + [BULLET + Strip(items[j]) + NEWLINE]
  {
  }

  /** The pieces of one body element, a list's bullet lines appended item by item. */
  method RenderElement(e: Element) returns (pieces: seq<string>)
    ensures pieces == ElementPieces(e)
  {
    var t := Strip(e.text);
    pieces := [];
    if t != "" {
      if e.ListBlock? {
        for j := 0 to |e.items|
          invariant pieces == BulletLines(e.items[..j])
        {
          BulletStep(e.items, j);
          pieces := pieces + [BULLET + Strip(e.items[j]) + NEWLINE];
        }
        assert e.items[..|e.items|] == e.items;
        pieces := pieces + [NEWLINE];
      } else {
        pieces := [t + BLANK_LINE];
      }
    }
  }

  /** The pieces of the article body, element by element. */
  method RenderBody(elements: seq<Element>) returns (pieces: seq<string>)
    ensures pieces == BodyPieces(elements)
  {
    pieces := [];
    for i := 0 to |elements|
      invariant pieces == BodyPieces(elements[..i])
    {
      BodyStep(elements, i);
      var more := RenderElement(elements[i]);
      pieces := pieces + more;
    }
    assert elements[..|elements|] == elements;
  }

  /**
   * Lines 66-92 of `scrape_article`: the pieces of the article are appended
   * one by one and joined at the end.
   */
  method RenderArticle(title: string, byline: Option<string>, body: Option<seq<Element>>) returns (content: string)
    ensures content == ArticleText(title, byline, body)
  {
    var bylinePieces: seq<string> := [];
    if byline.Some? {
      bylinePieces := [Strip(byline.value) + BLANK_LINE];
    }
    var bodyPieces: seq<string> := [];
    if body.Some? {
      bodyPieces := RenderBody(body.value);
    }
    content := Concat([title + BLANK_LINE] + bylinePieces + bodyPieces);
  }

  /** A blank element adds nothing to the article, wherever it stands. */
  lemma BlankElementIgnored(a: seq<Element>, e: Element, b: seq<Element>)
    requires Strip(e.text) == ""
    ensures BodyPieces(a + [e] + b) == BodyPieces(a) + BodyPieces(b)
  {
    FlatMapAppend(a + [e], b, ElementPieces);
    FlatMapAppend(a, [e], ElementPieces);
    assert [e][..0] == [];
    assert ElementPieces(e) == [];
  }

  /** A non-blank list contributes one more piece than it has items: a bullet line per item, then a blank line. */
  lemma ListPieces(e: Element)
    requires e.ListBlock? && Strip(e.text) != ""
    ensures |ElementPieces(e)| == |e.items| + 1
    ensures forall j :: 0 <= j < |e.items| ==> ElementPieces(e)[j] == BULLET + Strip(e.items[j]) + NEWLINE
    ensures ElementPieces(e)[|e.items|] == NEWLINE
  {
  }

  /** An article always starts with its title and a blank line, so its text is never empty. */
  lemma ArticleStartsWithTitle(title: string, byline: Option<string>, body: Option<seq<Element>>)
    ensures StartsWith(ArticleText(title, byline, body), title + BLANK_LINE)
    ensures ArticleText(title, byline, body) != ""
  {
    var pieces := ArticlePieces(title, byline, body);
    assert pieces == [title + BLANK_LINE] + pieces[1..];
    ConcatCons(title + BLANK_LINE, pieces[1..]);
    var t := ArticleText(title, byline, body);
    assert t[..|title + BLANK_LINE|] == title + BLANK_LINE;
  }

  // ---------------------------------------------------------------------
  // Articles
  // ---------------------------------------------------------------------

  datatype Article = Article(title: string, content: string)

  /**
   * `scrape_article`: the title comes from the preview page; the rest comes
   * from the full article when a "Continue reading" link leads to one. A
   * failed request or a page without `h1` gives nothing.
   */
  function ArticleAt(site: Site, url: string): Option<Article>
  {
    match site.article(url)
    case None => None
    case Some(preview) =>
      if preview.heading.None? then None
      else
        var title := Strip(preview.heading.value);
        var source := if preview.continueHref.Some? then site.article(site.join(url, preview.continueHref.value)) else Some(preview);
        if source.None? then None
        else Some(Article(title, ArticleText(title, source.value.byline, source.value.body)))
  }

  /**
   * The fetches and the rendering loop of `scrape_article`, step by step.
   * `ArticleAt` is its specification, kept as a function because the
   * predicates about stored pages need it and cannot call a method.
   */
  method ScrapeArticle(site: Site, url: string) returns (article: Option<Article>)
    ensures article == ArticleAt(site, url)
  {
    var preview := site.article(url);
    if preview.None? || preview.value.heading.None? {
      return None;
    }
    var title := Strip(preview.value.heading.value);
    var page := preview.value;
    if page.continueHref.Some? {
      var full := site.article(site.join(url, page.continueHref.value));
      if full.None? {
        return None;
      }
      page := full.value;
    }
    var content := RenderArticle(title, page.byline, page.body);
    return Some(Article(title, content));
  }

  /** An article `process_page` stores: it was scraped and both its title and its text are non-empty. */
  predicate Saves(a: Option<Article>)
  {
    a.Some? && a.value.title != "" && a.value.content != ""
  }

  /** Since the text always begins with the title, an article is stored exactly when it was scraped with a non-blank title. */
  lemma SavedIffTitled(site: Site, url: string)
    ensures Saves(ArticleAt(site, url)) <==> ArticleAt(site, url).Some? && ArticleAt(site, url).value.title != ""
  {
    var a := ArticleAt(site, url);
    if a.Some? {
      var preview := site.article(url).value;
      var source := if preview.continueHref.Some? then site.article(site.join(url, preview.continueHref.value)) else Some(preview);
      ArticleStartsWithTitle(a.value.title, source.value.byline, source.value.body);
    }
  }

  /** A file `process_page` writes: its name and its text. */
  datatype SavedFile = SavedFile(name: string, content: string)

  /** The file stored for an address of `site`, if any: named after the article's title, holding its text. */
  function SavedFileOf(site: Site): string -> Option<SavedFile>
  {
    url =>
      var a := ArticleAt(site, url);
      if Saves(a) then Some(SavedFile(CleanFilename(a.value.title), a.value.content)) else None
  }

  /** The file names the links `done` are stored under. */
  ghost function Targets(saved: string -> Option<SavedFile>, done: set<string>): set<string>
  {
    set u | u in done && saved(u).Some? :: saved(u).value.name
  }

  /** Link `u` is stored in file `k` with text `v`. */
  ghost predicate Stores(saved: string -> Option<SavedFile>, u: string, k: string, v: string)
  {
    saved(u) == Some(SavedFile(k, v))
  }

  /**
   * The page directory `after` holds what `before` held plus the files
   * `saved` gives for the links `done`: only their names are added, each of
   * them holds the text stored for some link of `done` under that name, and
   * every other file is unchanged.
   */
  ghost predicate StoredFrom(saved: string -> Option<SavedFile>, done: set<string>, before: map<string, string>, after: map<string, string>)
  {
    after.Keys == before.Keys + Targets(saved, done)
    && (forall k :: k in Targets(saved, done) ==> exists u :: u in done && Stores(saved, u, k, after[k]))
    && (forall k :: k in before && k !in Targets(saved, done) ==> after[k] == before[k])
  }

  lemma TargetsStep(saved: string -> Option<SavedFile>, done: set<string>, u: string)
    ensures Targets(saved, done + {u}) == Targets(saved, done) + (if saved(u).Some? then {saved(u).value.name} else {})
  {
  }

  lemma StoredStep(saved: string -> Option<SavedFile>, done: set<string>, u: string, before: map<string, string>, mid: map<string, string>)
    requires StoredFrom(saved, done, before, mid)
    ensures saved(u).None? ==> StoredFrom(saved, done + {u}, before, mid)
    ensures saved(u).Some? ==> StoredFrom(saved, done + {u}, before, mid[saved(u).value.name := saved(u).value.content])
  {
    TargetsStep(saved, done, u);
    if saved(u).Some? {
      var f := saved(u).value.name;
      var after := mid[f := saved(u).value.content];
      forall k | k in Targets(saved, done + {u})
        ensures exists w :: w in done + {u} && Stores(saved, w, k, after[k])
      {
        if k == f {
          assert Stores(saved, u, k, after[k]);
        } else {
          var w :| w in done && Stores(saved, w, k, mid[k]);
          assert w in done + {u};
        }
      }
    } else {
      forall k | k in Targets(saved, done + {u})
        ensures exists w :: w in done + {u} && Stores(saved, w, k, mid[k])
      {
        var w :| w in done && Stores(saved, w, k, mid[k]);
        assert w in done + {u};
      }
    }
  }

  /**
   * `process_page`: the page directory is created, the page's links are
   * collected, and every link, in an order left open, is scraped and stored
   * when it has a title and text. A page without links reports failure.
   */
  method ProcessPage(site: Site, pageNum: int, dir: map<string, string>) returns (found: bool, written: map<string, string>)
    ensures found <==> PageLinks(site, BASE_URL, Some(pageNum)) != {}
    ensures PageResult(site, pageNum, dir, written)
  {
    var links := ScrapePage(site, BASE_URL, Some(pageNum));
    if links == {} {
      return false, dir;
    }
    written := dir;
    var rest := links;
    while rest != {}
      invariant rest <= links
      invariant StoredFrom(SavedFileOf(site), links - rest, dir, written)
      decreases rest
    {
      var url :| url in rest;
      var article := ScrapeArticle(site, url);
      StoredStep(SavedFileOf(site), links - rest, url, dir, written);
      if article.Some? && article.value.title != "" && article.value.content != "" {
        written := written[CleanFilename(article.value.title) := article.value.content];
      }
      assert links - (rest - {url}) == (links - rest) + {url};
      rest := rest - {url};
    }
    return true, written;
  }

  // ---------------------------------------------------------------------
  // The page loop
  // ---------------------------------------------------------------------

  /** The pages `main` processes from `first` to `last`: in increasing order, up to and including the first without links. */
  function VisitedPages(site: Site, first: int, last: int): seq<int>
    decreases last - first
  {
    if first > last then []
    else if PageLinks(site, BASE_URL, Some(first)) == {} then [first]
    else [first] + VisitedPages(site, first + 1, last)
  }

  /**
   * The visited pages are consecutive from `first`; every one but the last had
   * links; the walk ends at `last` or at the first page without links.
   */
  lemma {:induction false} VisitedPagesSpec(site: Site, first: int, last: int)
    ensures |VisitedPages(site, first, last)| <= (if first > last then 0 else last - first + 1)
    ensures first <= last ==> VisitedPages(site, first, last) != []
    ensures forall i :: 0 <= i < |VisitedPages(site, first, last)| ==> VisitedPages(site, first, last)[i] == first + i
    ensures forall i :: 0 <= i < |VisitedPages(site, first, last)| - 1 ==> PageLinks(site, BASE_URL, Some(VisitedPages(site, first, last)[i])) != {}
    ensures var v := VisitedPages(site, first, last);
      v != [] && v[|v| - 1] < last ==> PageLinks(site, BASE_URL, Some(v[|v| - 1])) == {}
    decreases last - first
  {
    if first <= last && PageLinks(site, BASE_URL, Some(first)) != {} {
      VisitedPagesSpec(site, first + 1, last);
      var v := VisitedPages(site, first, last);
      var w := VisitedPages(site, first + 1, last);
      assert v == [first] + w;
      assert forall i :: 1 <= i < |v| ==> v[i] == w[i - 1];
    }
  }

  /** The current content of directory `d`, empty if it does not exist yet. */
  function DirAt(data: map<string, map<string, string>>, d: string): map<string, string>
  {
    if d in data then data[d] else map[]
  }

  /** What `process_page` does to the directory of page `n`: nothing without links, else it stores the page's articles. */
  ghost predicate PageResult(site: Site, n: int, before: map<string, string>, after: map<string, string>)
  {
    if PageLinks(site, BASE_URL, Some(n)) == {} then after == before
    else StoredFrom(SavedFileOf(site), PageLinks(site, BASE_URL, Some(n)), before, after)
  }

  /** What `process_page` does to the directory of each page. */
  ghost function PageResults(site: Site): (int, map<string, string>, map<string, string>) -> bool
  {
    (n, before, after) => PageResult(site, n, before, after)
  }

  /**
   * The data directory after the pages `visited`: each page `n` has its
   * directory `dir(n)`, filled as `result` says of its old content, and every
   * other directory is unchanged.
   */
  ghost predicate PagesStored(result: (int, map<string, string>, map<string, string>) -> bool, dir: int -> string,
                              data: map<string, map<string, string>>, visited: seq<int>, written: map<string, map<string, string>>)
  {
    (forall k :: k in written <==> k in data || exists n :: n in visited && k == dir(n))
    && (forall k :: k in data && !(exists n :: n in visited && k == dir(n)) ==> written[k] == data[k])
    && (forall n :: n in visited ==> dir(n) in written && result(n, DirAt(data, dir(n)), written[dir(n)]))
  }

  lemma PagesStoredStep(result: (int, map<string, string>, map<string, string>) -> bool, dir: int -> string,
                        data: map<string, map<string, string>>, visited: seq<int>, written: map<string, map<string, string>>,
                        page: int, files: map<string, string>)
    requires PagesStored(result, dir, data, visited, written)
    requires forall n :: n in visited ==> dir(n) != dir(page)
    requires result(page, DirAt(data, dir(page)), files)
    ensures PagesStored(result, dir, data, visited + [page], written[dir(page) := files])
  {
    assert forall n :: n in visited + [page] <==> n in visited || n == page;
  }

  /** Earlier pages never share the directory of a later one. */
  lemma PageDirsDistinct(visited: seq<int>, page: nat)
    requires forall n :: n in visited ==> 0 <= n < page
    ensures forall n :: n in visited ==> PageDir(n) != PageDir(page)
  {
    forall n | n in visited
      ensures PageDir(n) != PageDir(page)
    {
      if PageDir(n) == PageDir(page) {
        PageDirInjective(n, page);
      }
    }
  }

  /**
   * `main`: pages `START_PAGE` to `END_PAGE` are processed in increasing order,
   * stopping after the first page without links.
   */
  method ScrapeAll(site: Site, data: map<string, map<string, string>>)
    returns (visited: seq<int>, written: map<string, map<string, string>>)
    ensures visited == VisitedPages(site, START_PAGE, END_PAGE)
    ensures PagesStored(PageResults(site), PageDir, data, visited, written)
  {
    visited := [];
    written := data;
    var page := START_PAGE;
    while page <= END_PAGE
      invariant START_PAGE <= page <= END_PAGE + 1
      invariant VisitedPages(site, START_PAGE, END_PAGE) == visited + VisitedPages(site, page, END_PAGE)
      invariant forall n :: n in visited ==> START_PAGE <= n < page
      invariant PagesStored(PageResults(site), PageDir, data, visited, written)
      decreases END_PAGE - page
    {
      var found, pageFiles := ProcessPage(site, page, DirAt(data, PageDir(page)));
      PageDirsDistinct(visited, page);
      PagesStoredStep(PageResults(site), PageDir, data, visited, written, page, pageFiles);
      written := written[PageDir(page) := pageFiles];
      if !found {
        visited := visited + [page];
        break;
      }
      assert VisitedPages(site, page, END_PAGE) == [page] + VisitedPages(site, page + 1, END_PAGE);
      visited := visited + [page];
      page := page + 1;
    }
  }
}
