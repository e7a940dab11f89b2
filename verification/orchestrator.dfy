/** The top level: `BlogScraper.scrape_url`, `BlogScraper.scrape_blog_index`
    and `ContentScraper.scrape_sources` with its routing predicates. Every
    source is either a PDF (by file extension), a blog index (by a path
    keyword) or a single page, and the items of all sources are concatenated
    in source order.

    The network is a function from URL to the parsed views of the fetched
    page, so a URL fetched twice yields the same page; the half-second pause
    between posts (`asyncio.sleep` in `scrape_blog_index`) has no observable
    effect here. `maxPosts` is `max_posts_per_blog`, 5 unless the caller
    says otherwise. */
module Orchestrator {
  import opened Wrappers
  import opened Seqs
  import opened Text
  import opened Content
  import opened Harvester
  import opened Extractor
  import opened Embedded
  import opened Pdf

  /** The three views of one fetched HTML document that the scraper reads:
      the extractor's, the post-URL harvester's and the embedded-post
      detector's. */
  datatype Site = Site(page: Page, anchors: Anchors, embedded: EmbeddedPage)

  /** Everything outside the scraper's own logic. `fetch` is `None` when
      `_fetch_html` gives up or returns an empty body (`if not html`). */
  datatype World = World(
    fetch: string -> Option<Site>,
    lib: UrlLib,
    markdownify: string -> string,
    collapse: string -> string,
    pdf: PdfEngine)

  /** A page item must hold at least this many characters once stripped. */
  const MinPageContent: nat := 100

  /** The path keywords that mark a blog index. */
  const BlogIndicators: seq<string> :=
    ["/blog", "/posts", "/articles", "/learn", "/topics", "/resource", "/resources", "/news"]

  /** What every web item carries: the blog type, its URL, and real content. */
  predicate IsPagePost(it: ContentItem, url: string) {
    it.contentType == Blog && it.sourceUrl == Some(url) && |Strip(it.content)| >= MinPageContent
  }

  /** Any web item, whatever URL it came from. */
  predicate IsWebItem(it: ContentItem) {
    it.sourceUrl.Some? && IsPagePost(it, it.sourceUrl.value)
  }

  // ---------------------------------------------------------------------
  // One page

  /** The article `scrape_url` extracts from a fetched page. */
  function PageArticle(w: World, site: Site): Article {
    ExtractFromHtml(site.page, w.collapse)
  }

  /** Whether `scrape_url(url)` yields an item. */
  predicate Yields(w: World, url: string) {
    w.fetch(url).Some? && |Strip(PageArticle(w, w.fetch(url).value).content)| >= MinPageContent
  }

  /** `scrape_url(url)`: one blog item holding the extracted title, content
      (as extracted, not re-stripped) and author, or nothing when the fetch
      failed or the content is too short. */
  function ScrapeUrl(w: World, url: string): (r: seq<ContentItem>)
    ensures |r| <= 1
    ensures r != [] <==> Yields(w, url)
    ensures r != [] ==> IsPagePost(r[0], url)
    ensures r != [] ==>
      var a := PageArticle(w, w.fetch(url).value);
      r[0].title == a.title && r[0].content == a.content && r[0].author == a.author
  {
    match w.fetch(url)
    case None => []
    case Some(site) =>
      var a := PageArticle(w, site);
      var body := Strip(a.content);
      if body == "" || |body| < MinPageContent then []
      else [ContentItem(a.title, a.content, Blog, Some(url), a.author)]
  }

  /** The loop of `scrape_blog_index` over the post URLs: each URL's items,
      in order. */
  function ScrapeEach(w: World, urls: seq<string>): (r: seq<ContentItem>)
    ensures |r| <= |urls|
    ensures forall k :: 0 <= k < |r| ==> IsWebItem(r[k]) && r[k].sourceUrl.value in urls
  {
    var f := (u: string) => ScrapeUrl(w, u);
    ConcatMapAtMostOne(urls, f);
    ConcatMapKeeps(urls, f, (it: ContentItem) => IsWebItem(it) && it.sourceUrl.value in urls);
    ConcatMap(urls, f)
  }

  // ---------------------------------------------------------------------
  // A blog index

  /** `scrape_blog_index(blog_url, max_posts)`: scrape the first `max_posts`
      harvested post URLs; when none was harvested, fall back to the posts
      embedded in the index page itself, capped the same way. */
  function ScrapeBlogIndex(w: World, blogUrl: string, maxPosts: int): (r: seq<ContentItem>)
    ensures w.fetch(blogUrl).None? ==> r == []
  {
    match w.fetch(blogUrl)
    case None => []
    case Some(site) =>
      var posts := PostUrls(w.lib, blogUrl, site.anchors);
      if posts == [] then Take(ExtractEmbeddedPosts(site.embedded, w.markdownify, blogUrl), maxPosts)
      else ScrapeEach(w, Take(posts, maxPosts))
  }

  // ---------------------------------------------------------------------
  // Routing and the source list

  /** `source.lower().endswith('.pdf')`: the name ends in `.pdf` in any
      letter case. */
  predicate IsPdfSource(source: string)
    ensures IsPdfSource(source) <==>
      && |source| >= 4 && source[|source| - 4] == '.'
      && source[|source| - 3] in "pP" && source[|source| - 2] in "dD" && source[|source| - 1] in "fF"
  {
    var low := Lower(source);
    var n := |source|;
    assert n >= 4 ==> (low[n - 4..] == ".pdf" <==>
      low[n - 4] == '.' && low[n - 3] == 'p' && low[n - 2] == 'd' && low[n - 1] == 'f');
    EndsWith(low, ".pdf")
  }

  /** `_is_blog_index(url)`: some indicator occurs at some position of the
      lower-cased URL. */
  predicate IsBlogIndex(url: string)
    ensures IsBlogIndex(url) <==>
      exists k: nat, i: nat :: k < |BlogIndicators| && FoundAt(Lower(url), BlogIndicators[k], i)
  {
    ContainsAnyAt(Lower(url), BlogIndicators);
    ContainsAny(Lower(url), BlogIndicators)
  }

  /** The items one source contributes: a PDF goes to the parser (nothing
      when PDF support is missing), anything else is a blog index or a
      single page. */
  function SourceItems(w: World, source: string, maxPosts: int): (r: seq<ContentItem>)
    ensures IsPdfSource(source) ==>
      r == (if w.pdf.available then ParsePdf(w.pdf, source, DefaultMaxChapters, DefaultChunkSize) else [])
    ensures !IsPdfSource(source) && IsBlogIndex(source) ==> r == ScrapeBlogIndex(w, source, maxPosts)
    ensures !IsPdfSource(source) && !IsBlogIndex(source) ==> r == ScrapeUrl(w, source)
    ensures IsPdfSource(source) ==> forall k :: 0 <= k < |r| ==> IsBookItem(r[k])
    ensures !IsPdfSource(source) ==> forall k :: 0 <= k < |r| ==> IsWebItem(r[k])
  {
    if IsPdfSource(source) then
      (if w.pdf.available then ParsePdf(w.pdf, source, DefaultMaxChapters, DefaultChunkSize) else [])
    else if IsBlogIndex(source) then
      IndexItemsAreWeb(w, source, maxPosts);
      ScrapeBlogIndex(w, source, maxPosts)
    else ScrapeUrl(w, source)
  }

  /** The items of all sources, concatenated in source order. */
  function AllItems(w: World, sources: seq<string>, maxPosts: int): seq<ContentItem> {
    ConcatMap(sources, (s: string) => SourceItems(w, s, maxPosts))
  }

  /** `scrape_sources(sources, max_posts_per_blog)`: the team's output holds
      the items of all sources in source order (`AllItemsUnit` and
      `AllItemsAppend` pin that list source by source), and every item is a
      book chapter or a web item, so an item has a source URL exactly when
      it is a blog item. */
  function ScrapeSources(w: World, teamId: string, sources: seq<string>, maxPosts: int): (r: ScrapedOutput)
    ensures r.teamId == teamId
    ensures r.items == AllItems(w, sources, maxPosts)
    ensures forall j :: 0 <= j < |r.items| ==>
      (IsBookItem(r.items[j]) || IsWebItem(r.items[j])) && (r.items[j].contentType == Blog <==> r.items[j].sourceUrl.Some?)
  {
    AllItemsKeep(w, sources, maxPosts, (it: ContentItem) => IsBookItem(it) || IsWebItem(it));
    ScrapedOutput(teamId, AllItems(w, sources, maxPosts))
  }

  // ---------------------------------------------------------------------
  // Lemmas

  /** The URLs of `urls` whose page yields an item, in order. */
  function YieldingUrls(w: World, urls: seq<string>): seq<string> {
    Filter(urls, (u: string) => Yields(w, u))
  }

  /** The post loop yields exactly one item per yielding URL, in URL order:
      item `k` is the item `scrape_url` makes of the `k`-th yielding URL. */
  lemma {:induction false} ScrapeEachFollowsUrls(w: World, urls: seq<string>)
    ensures |ScrapeEach(w, urls)| == |YieldingUrls(w, urls)|
    ensures forall k :: 0 <= k < |ScrapeEach(w, urls)| ==>
      [ScrapeEach(w, urls)[k]] == ScrapeUrl(w, YieldingUrls(w, urls)[k])
    ensures forall k :: 0 <= k < |ScrapeEach(w, urls)| ==>
      IsPagePost(ScrapeEach(w, urls)[k], YieldingUrls(w, urls)[k])
    decreases |urls|
  {
    if |urls| > 0 {
      var init := urls[..|urls| - 1];
      var u := urls[|urls| - 1];
      ScrapeEachFollowsUrls(w, init);
      assert ScrapeEach(w, urls) == ScrapeEach(w, init) + ScrapeUrl(w, u);
      assert YieldingUrls(w, urls) == YieldingUrls(w, init) + (if Yields(w, u) then [u] else []);
    }
  }

  /** Scraping a list of URLs is scraping its parts one after the other. */
  lemma ScrapeEachAppend(w: World, a: seq<string>, b: seq<string>)
    ensures ScrapeEach(w, a + b) == ScrapeEach(w, a) + ScrapeEach(w, b)
  {
    ConcatMapAppend(a, b, (u: string) => ScrapeUrl(w, u));
  }

  /** A blog index never yields more than `max_posts` items. */
  lemma IndexCap(w: World, blogUrl: string, maxPosts: int)
    requires maxPosts >= 0
    ensures |ScrapeBlogIndex(w, blogUrl, maxPosts)| <= maxPosts
  {
    if w.fetch(blogUrl).Some? {
      var posts := PostUrls(w.lib, blogUrl, w.fetch(blogUrl).value.anchors);
      ConcatMapAtMostOne(Take(posts, maxPosts), (u: string) => ScrapeUrl(w, u));
    }
  }

  /** Scraping a duplicate-free URL list gives web items from those URLs,
      no two from the same URL. */
  lemma ScrapeEachDistinct(w: World, urls: seq<string>)
    requires NoDuplicates(urls)
    ensures forall k :: 0 <= k < |ScrapeEach(w, urls)| ==>
      IsWebItem(ScrapeEach(w, urls)[k]) && ScrapeEach(w, urls)[k].sourceUrl.value in urls
    ensures forall i, j :: 0 <= i < j < |ScrapeEach(w, urls)| ==>
      ScrapeEach(w, urls)[i].sourceUrl != ScrapeEach(w, urls)[j].sourceUrl
  {
    FilterNoDuplicates(urls, (u: string) => Yields(w, u));
    ScrapeEachFollowsUrls(w, urls);
  }

  /** Where the items of a blog index come from. When post URLs were
      harvested, the items are the `scrape_url` items of the first
      `max_posts` harvested URLs whose page yields one, in harvest order, no
      two from the same URL; otherwise they are the first `max_posts`
      embedded posts of the index page itself (all but the last
      `-max_posts` of them when `max_posts` is negative, as Python's slice
      does). */
  lemma IndexProvenance(w: World, blogUrl: string, maxPosts: int)
    requires w.fetch(blogUrl).Some?
    ensures var posts := PostUrls(w.lib, blogUrl, w.fetch(blogUrl).value.anchors);
      var r := ScrapeBlogIndex(w, blogUrl, maxPosts);
      var tried := YieldingUrls(w, Take(posts, maxPosts));
      posts != [] ==>
        && |r| == |tried|
        && (forall k :: 0 <= k < |r| ==> [r[k]] == ScrapeUrl(w, tried[k]) && tried[k] in Take(posts, maxPosts))
        && (forall k :: 0 <= k < |r| ==> IsPagePost(r[k], tried[k]))
        && (forall i, j :: 0 <= i < j < |r| ==> r[i].sourceUrl != r[j].sourceUrl)
    ensures var posts := PostUrls(w.lib, blogUrl, w.fetch(blogUrl).value.anchors);
      var r := ScrapeBlogIndex(w, blogUrl, maxPosts);
      var embedded := ExtractEmbeddedPosts(w.fetch(blogUrl).value.embedded, w.markdownify, blogUrl);
      posts == [] ==>
        && (maxPosts >= 0 ==> |r| == if maxPosts < |embedded| then maxPosts else |embedded|)
        && (maxPosts < 0 ==> |r| == if |embedded| + maxPosts < 0 then 0 else |embedded| + maxPosts)
        && (forall k :: 0 <= k < |r| ==> r[k] == embedded[k] && IsPagePost(r[k], blogUrl))
  {
    var site := w.fetch(blogUrl).value;
    var posts := PostUrls(w.lib, blogUrl, site.anchors);
    if posts == [] {
      EmbeddedPostsAreItems(site.embedded, w.markdownify, blogUrl);
    } else {
      HarvestedProvenance(w, posts, maxPosts);
    }
  }

  /** The harvested path of `IndexProvenance`, for any duplicate-free list of
      post URLs: the capped list's yielding URLs give the items one by one,
      and no two items share a URL. */
  lemma HarvestedProvenance(w: World, posts: seq<string>, maxPosts: int)
    requires NoDuplicates(posts)
    ensures var chosen := Take(posts, maxPosts);
      var r := ScrapeEach(w, chosen);
      && |r| == |YieldingUrls(w, chosen)|
      && (forall k :: 0 <= k < |r| ==> [r[k]] == ScrapeUrl(w, YieldingUrls(w, chosen)[k]) && YieldingUrls(w, chosen)[k] in chosen)
      && (forall k :: 0 <= k < |r| ==> IsPagePost(r[k], YieldingUrls(w, chosen)[k]))
      && (forall i, j :: 0 <= i < j < |r| ==> r[i].sourceUrl != r[j].sourceUrl)
  {
    var chosen := Take(posts, maxPosts);
    assert forall k :: 0 <= k < |chosen| ==> chosen[k] == posts[k];
    ScrapeEachDistinct(w, chosen);
    ScrapeEachFollowsUrls(w, chosen);
  }

  /** Every item of a blog index is a web item. */
  lemma IndexItemsAreWeb(w: World, blogUrl: string, maxPosts: int)
    ensures forall k :: 0 <= k < |ScrapeBlogIndex(w, blogUrl, maxPosts)| ==> IsWebItem(ScrapeBlogIndex(w, blogUrl, maxPosts)[k])
  {
    if w.fetch(blogUrl).Some? {
      IndexProvenance(w, blogUrl, maxPosts);
    }
  }

  /** The output of several sources is the concatenation of their outputs. */
  lemma AllItemsAppend(w: World, a: seq<string>, b: seq<string>, maxPosts: int)
    ensures AllItems(w, a + b, maxPosts) == AllItems(w, a, maxPosts) + AllItems(w, b, maxPosts)
  {
    ConcatMapAppend(a, b, (s: string) => SourceItems(w, s, maxPosts));
  }

  /** No source gives no items, and one source gives its own items; with
      `AllItemsAppend` this fixes the output of every source list. */
  lemma AllItemsUnit(w: World, source: string, maxPosts: int)
    ensures AllItems(w, [], maxPosts) == []
    ensures AllItems(w, [source], maxPosts) == SourceItems(w, source, maxPosts)
  {
    assert [source][..0] == [];
  }

  /** An item property every source respects holds for the whole output. */
  lemma AllItemsKeep(w: World, sources: seq<string>, maxPosts: int, p: ContentItem -> bool)
    requires forall k, j :: 0 <= k < |sources| && 0 <= j < |SourceItems(w, sources[k], maxPosts)| ==>
      p(SourceItems(w, sources[k], maxPosts)[j])
    ensures forall j :: 0 <= j < |AllItems(w, sources, maxPosts)| ==> p(AllItems(w, sources, maxPosts)[j])
  {
    ConcatMapKeeps(sources, (s: string) => SourceItems(w, s, maxPosts), p);
  }

  /** Without a PDF source there are no book items. */
  lemma NoPdfNoBooks(w: World, sources: seq<string>, maxPosts: int)
    requires forall k :: 0 <= k < |sources| ==> !IsPdfSource(sources[k])
    ensures forall j :: 0 <= j < |AllItems(w, sources, maxPosts)| ==> AllItems(w, sources, maxPosts)[j].contentType == Blog
  {
    AllItemsKeep(w, sources, maxPosts, (it: ContentItem) => it.contentType == Blog);
  }

  /** Without PDF support, PDF sources are skipped as if they were not listed. */
  lemma {:induction false} PdfSkippedWhenUnavailable(w: World, sources: seq<string>, maxPosts: int)
    requires !w.pdf.available
    ensures AllItems(w, sources, maxPosts) ==
      AllItems(w, Filter(sources, (s: string) => !IsPdfSource(s)), maxPosts)
    decreases |sources|
  {
    if |sources| > 0 {
      var init := sources[..|sources| - 1];
      var s := sources[|sources| - 1];
      var keep := (s: string) => !IsPdfSource(s);
      PdfSkippedWhenUnavailable(w, init, maxPosts);
      if IsPdfSource(s) {
        assert Filter(sources, keep) == Filter(init, keep);
      } else {
        assert Filter(sources, keep) == Filter(init, keep) + [s];
        AllItemsAppend(w, Filter(init, keep), [s], maxPosts);
        assert [s][..0] == [];
      }
    }
  }

  /** The indicators without `/resources`. */
  const NeededIndicators: seq<string> :=
    ["/blog", "/posts", "/articles", "/learn", "/topics", "/resource", "/news"]

  /** `/resources` is redundant among the indicators: `/resource` already
      matches every URL containing it. */
  lemma ResourcesIndicatorRedundant(url: string)
    ensures IsBlogIndex(url) <==> ContainsAny(Lower(url), NeededIndicators)
  {
    var low := Lower(url);
    if IsBlogIndex(url) {
      var k :| 0 <= k < |BlogIndicators| && Contains(low, BlogIndicators[k]);
      if k < 6 {
        assert NeededIndicators[k] == BlogIndicators[k];
      } else if k == 7 {
        assert NeededIndicators[6] == BlogIndicators[k];
      } else {
        assert "/resources" == "/resource" + "s";
        ContainsPrefix(low, "/resource", "s");
        assert NeededIndicators[5] == "/resource";
      }
    }
    if ContainsAny(low, NeededIndicators) {
      var k :| 0 <= k < |NeededIndicators| && Contains(low, NeededIndicators[k]);
      if k < 6 {
        assert BlogIndicators[k] == NeededIndicators[k];
      } else {
        assert BlogIndicators[7] == NeededIndicators[k];
      }
    }
  }

  /** Any URL containing `//blog`, such as every URL on a `blog.` host,
      counts as a blog index, because `//blog` contains `/blog`; so a single
      post like `http://blog.io/hello` is scraped as an index. */
  lemma BlogHostIsIndex(url: string)
    ensures Contains(Lower(url), "//blog") ==> IsBlogIndex(url)
  {
    if Contains(Lower(url), "//blog") {
      assert "//blog" == "/" + "/blog";
      ContainsSuffix(Lower(url), "/", "/blog");
      assert BlogIndicators[0] == "/blog";
    }
  }

  /** The PDF test is case-insensitive and comes first: every PDF source,
      even one under a blog path, goes to the PDF parser and never to the
      blog scraper; `/blog/A.PDF` is such a source. */
  lemma PdfBeforeIndex(w: World, source: string, maxPosts: int)
    ensures IsPdfSource(source) ==>
      SourceItems(w, source, maxPosts) ==
        (if w.pdf.available then ParsePdf(w.pdf, source, DefaultMaxChapters, DefaultChunkSize) else [])
    ensures IsPdfSource("/blog/A.PDF") && IsBlogIndex("/blog/A.PDF")
  {
    var low := Lower("/blog/A.PDF");
    assert low == "/blog/a.pdf";
    assert low[..5] == "/blog";
    assert BlogIndicators[0] == "/blog";
  }
}
