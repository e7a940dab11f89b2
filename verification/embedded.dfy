/** The embedded-post detector `BlogScraper._extract_embedded_posts`, used
    when an index page links to no individual posts: three strategies in
    cascade, each turning parts of the page itself into blog items.

    HTML parsing and markdownify are not modelled: elements and sibling
    nodes are records carrying their serialised HTML (`str(element)`), their
    text (`get_text()`), and what the strategies look up inside them, and
    markdownify is the parameter `md`. */
module Embedded {
  import opened Wrappers
  import opened Seqs
  import opened Text
  import opened Content

  /** Strategy 1: minimum title length and content length (inclusive). */
  const ArticleMinTitle: nat := 5
  const ArticleMinContent: nat := 100

  /** Strategy 2: headings must have more than this many characters. */
  const HeadingMinTitle: nat := 10
  /** Strategy 2: minimum length (inclusive) of the collected content. */
  const HeadingMinContent: nat := 100
  /** Strategy 2: headings containing any of these are navigation, skipped. */
  const HeadingNavWords: seq<string> := ["blog", "menu", "navigation", "header"]
  /** Strategy 2: tag names of the headings that end a post. */
  const MajorHeadings: seq<string> := ["h1", "h2", "h3"]

  /** Strategy 3: a div qualifies with more than this many characters ... */
  const DivMinText: nat := 200
  /** ... and more than this many words ... */
  const DivMinWords: nat := 30
  /** ... and none of these in its first `DivNavPrefix` characters. */
  const DivNavWords: seq<string> := ["navigation", "menu", "footer", "header"]
  const DivNavPrefix: nat := 100
  /** Strategy 3: title and content must be strictly longer than these. */
  const DivMinTitle: nat := 5
  const DivMinContent: nat := 100

  /** A matched element: `str(element)`, `element.get_text()`, the text of
      its first `h1`–`h4` descendant, and the texts of its descendants
      matching `.author, .byline, [class*="author"]` in document order. */
  datatype Elem = Elem(html: string, text: string, heading: Option<string>, authorTexts: seq<string>)

  /** A sibling node after a heading: whether `hasattr(node, 'name')` holds,
      its tag name, its text and `str(node)`. */
  datatype Node = Node(hasName: bool, name: string, text: string, html: string)

  /** An `h1`–`h3` heading: its `.string` (None when it has no single string
      child), its `get_text()`, and its following siblings in order. */
  datatype HeadingSite = HeadingSite(ownString: Option<string>, text: string, following: seq<Node>)

  /** The detector's view of an index page. */
  datatype EmbeddedPage = EmbeddedPage(
    articles: seq<seq<Elem>>,    // matches of each article selector, in selector order
    headings: seq<HeadingSite>,  // every h1-h3 in document order
    divs: seq<Elem>)             // every div in document order

  /** A blog item as every strategy builds it. */
  function BlogItem(title: string, content: string, baseUrl: string, author: string): ContentItem {
    ContentItem(title, content, Blog, Some(baseUrl), author)
  }

  /** The invariant every detected item satisfies. */
  predicate IsEmbeddedItem(it: ContentItem, baseUrl: string) {
    it.contentType == Blog && it.sourceUrl == Some(baseUrl) && |Strip(it.content)| >= 100
  }

  // ---------------------------------------------------------------------
  // Strategy 1: article-like elements

  /** `_extract_post_from_element(element, base_url)`. */
  function PostFromElement(e: Elem, md: string -> string, baseUrl: string): (r: Option<ContentItem>)
    ensures r.Some? <==>
      e.heading.Some? && |Strip(e.heading.value)| >= ArticleMinTitle && |Strip(md(e.html))| >= ArticleMinContent
    ensures r.Some? ==> r.value.title == Strip(e.heading.value) && r.value.content == Strip(md(e.html))
    ensures r.Some? ==> r.value.author == (if |e.authorTexts| > 0 then Strip(e.authorTexts[0]) else "")
    ensures r.Some? ==> r.value.contentType == Blog && r.value.sourceUrl == Some(baseUrl)
  {
    match e.heading
    case None => None
    case Some(h) =>
      var title := Strip(h);
      if |title| < ArticleMinTitle then None
      else
        var content := Strip(md(e.html));
        if |content| < ArticleMinContent then None
        else
          var author := if |e.authorTexts| > 0 then Strip(e.authorTexts[0]) else "";
          Some(BlogItem(title, content, baseUrl, author))
  }

  /** Strategy 1: for each article selector in order, for each of its
      matches in document order, the element's item if it has one. */
  function ArticlePosts(articles: seq<seq<Elem>>, md: string -> string, baseUrl: string): (r: seq<ContentItem>)
    ensures forall k :: 0 <= k < |r| ==> ProducedBy(articles, (e: Elem) => PostFromElement(e, md, baseUrl), r[k])
    ensures forall i, j :: (0 <= i < |articles| && 0 <= j < |articles[i]| && PostFromElement(articles[i][j], md, baseUrl).Some?) ==>
      PostFromElement(articles[i][j], md, baseUrl).value in r
  {
    FilterMapAllFrom(articles, (e: Elem) => PostFromElement(e, md, baseUrl));
    FilterMapAllComplete(articles, (e: Elem) => PostFromElement(e, md, baseUrl));
    FilterMapAll(articles, (e: Elem) => PostFromElement(e, md, baseUrl))
  }

  /** Where strategy 1's items come from: item `k` is the item of match
      `idx[k].1` of article selector `idx[k].0`. The (selector, match) pairs
      increase lexicographically, so each contributes at most once and the
      items keep selector-then-document order, and a pair is skipped exactly
      when its element yields no item. */
  function ArticlePostSources(articles: seq<seq<Elem>>, md: string -> string, baseUrl: string): (idx: seq<(nat, nat)>)
    ensures IsMapAllPositions(articles, (e: Elem) => PostFromElement(e, md, baseUrl), ArticlePosts(articles, md, baseUrl), idx)
  {
    FilterMapAllPositions(articles, (e: Elem) => PostFromElement(e, md, baseUrl))
  }

  // ---------------------------------------------------------------------
  // Strategy 2: heading-driven segmentation

  /** A sibling that ends the post: a major heading with enough text. */
  predicate StopsCollection(n: Node) {
    n.hasName && n.name in MajorHeadings && |Strip(n.text)| > HeadingMinTitle
  }

  predicate HasName(n: Node) {
    n.hasName
  }

  /** The loop of `_extract_post_from_heading`: walk the following siblings,
      stop at the first major heading, keep every named node before it. */
  function CollectSiblings(ns: seq<Node>): (r: seq<Node>)
    ensures forall k :: 0 <= k < |r| ==> r[k].hasName && !StopsCollection(r[k])
    ensures |r| <= |ns|
  {
    if |ns| == 0 then []
    else if ns[0].hasName && StopsCollection(ns[0]) then []
    else (if ns[0].hasName then [ns[0]] else []) + CollectSiblings(ns[1..])
  }

  /** Where collection stops: the first stopping sibling, or the end. */
  function StopIndex(ns: seq<Node>): (k: nat)
    ensures k <= |ns|
  {
    match FirstWhere(ns, StopsCollection)
    case Some(k) => k
    case None => |ns|
  }

  /** `''.join(str(e) for e in content_elements)`. */
  function JoinHtml(ns: seq<Node>): string {
    if |ns| == 0 then "" else JoinHtml(ns[..|ns| - 1]) + ns[|ns| - 1].html
  }

  /** `_extract_post_from_heading(heading, base_url)`. */
  function PostFromHeading(h: HeadingSite, md: string -> string, baseUrl: string): (r: Option<ContentItem>)
    ensures r.Some? <==>
      CollectSiblings(h.following) != [] && |Strip(md(JoinHtml(CollectSiblings(h.following))))| >= HeadingMinContent
    ensures r.Some? ==> r.value.title == Strip(h.text)
    ensures r.Some? ==> (r.value.content ==
      "# " + Strip(h.text) + "\n\n" + Strip(md(JoinHtml(CollectSiblings(h.following)))))
    ensures r.Some? ==> r.value.contentType == Blog && r.value.sourceUrl == Some(baseUrl) && r.value.author == ""
  {
    var title := Strip(h.text);
    var collected := CollectSiblings(h.following);
    if collected == [] then None
    else
      var body := Strip(md(JoinHtml(collected)));
      if |body| < HeadingMinContent then None
      else
        var content := "# " + title + "\n\n" + body;
        Some(BlogItem(title, content, baseUrl, ""))
  }

  /** The headings strategy 2 considers: a `.string` of more than ten
      characters once stripped, and no navigation word in the lower-cased text. */
  predicate IsPostHeading(h: HeadingSite) {
    && h.ownString.Some? && |Strip(h.ownString.value)| > HeadingMinTitle
    && !ContainsAny(Lower(Strip(h.text)), HeadingNavWords)
  }

  /** The strategy-2 loop body for one heading. */
  function HeadingPost(h: HeadingSite, md: string -> string, baseUrl: string): (r: Option<ContentItem>)
    ensures !IsPostHeading(h) ==> r.None?
    ensures IsPostHeading(h) ==> r == PostFromHeading(h, md, baseUrl)
  {
    if IsPostHeading(h) then PostFromHeading(h, md, baseUrl) else None
  }

  /** Strategy 2: every heading in document order. */
  function HeadingPosts(hs: seq<HeadingSite>, md: string -> string, baseUrl: string): (r: seq<ContentItem>)
    ensures |r| <= |hs|
  {
    FilterMap(hs, (h: HeadingSite) => HeadingPost(h, md, baseUrl))
  }

  /** Where strategy 2's items come from: item `k` is the item of heading
      `idx[k]`, the headings are taken in document order, and a heading is
      skipped exactly when it yields no item. */
  function HeadingPostSources(hs: seq<HeadingSite>, md: string -> string, baseUrl: string): (idx: seq<nat>)
    ensures IsMapPositions(hs, (h: HeadingSite) => HeadingPost(h, md, baseUrl), HeadingPosts(hs, md, baseUrl), idx)
  {
    FilterMapPositions(hs, (h: HeadingSite) => HeadingPost(h, md, baseUrl))
  }

  // ---------------------------------------------------------------------
  // Strategy 3: substantial-text containers

  /** A div with enough text and words and no navigation word near its start. */
  predicate IsSubstantial(e: Elem) {
    var t := Strip(e.text);
    && |t| > DivMinText
    && WordCount(t) > DivMinWords
    && !ContainsAny(Take(Lower(t), DivNavPrefix), DivNavWords)
  }

  /** The body of the strategy-3 loop for one div. */
  function PostFromDiv(e: Elem, md: string -> string, baseUrl: string): (r: Option<ContentItem>)
    ensures r.Some? <==>
      IsSubstantial(e) && e.heading.Some? && |Strip(e.heading.value)| > DivMinTitle
      && |Strip(md(e.html))| > DivMinContent
    ensures r.Some? ==> r.value.title == Strip(e.heading.value) && r.value.content == Strip(md(e.html))
    ensures r.Some? ==> r.value.contentType == Blog && r.value.sourceUrl == Some(baseUrl) && r.value.author == ""
  {
    if !IsSubstantial(e) || e.heading.None? then None
    else
      var title := Strip(e.heading.value);
      if |title| <= DivMinTitle then None
      else
        var content := Strip(md(e.html));
        if |content| <= DivMinContent then None
        else
          Some(BlogItem(title, content, baseUrl, ""))
  }

  /** Strategy 3: every div in document order. */
  function DivPosts(divs: seq<Elem>, md: string -> string, baseUrl: string): (r: seq<ContentItem>)
    ensures |r| <= |divs|
  {
    FilterMap(divs, (e: Elem) => PostFromDiv(e, md, baseUrl))
  }

  /** Where strategy 3's items come from: item `k` is the item of div
      `idx[k]`, the divs are taken in document order, and a div is skipped
      exactly when it yields no item. */
  function DivPostSources(divs: seq<Elem>, md: string -> string, baseUrl: string): (idx: seq<nat>)
    ensures IsMapPositions(divs, (e: Elem) => PostFromDiv(e, md, baseUrl), DivPosts(divs, md, baseUrl), idx)
  {
    FilterMapPositions(divs, (e: Elem) => PostFromDiv(e, md, baseUrl))
  }

  // ---------------------------------------------------------------------
  // The cascade

  /** `_extract_embedded_posts(html, base_url)`: strategy 2 runs only if
      strategy 1 found nothing, strategy 3 only if both found nothing. */
  function ExtractEmbeddedPosts(p: EmbeddedPage, md: string -> string, baseUrl: string): (r: seq<ContentItem>)
    ensures ArticlePosts(p.articles, md, baseUrl) != [] ==> r == ArticlePosts(p.articles, md, baseUrl)
    ensures ArticlePosts(p.articles, md, baseUrl) == [] && HeadingPosts(p.headings, md, baseUrl) != [] ==>
      r == HeadingPosts(p.headings, md, baseUrl)
    ensures ArticlePosts(p.articles, md, baseUrl) == [] && HeadingPosts(p.headings, md, baseUrl) == [] ==>
      r == DivPosts(p.divs, md, baseUrl)
  {
    var posts1 := ArticlePosts(p.articles, md, baseUrl);
    if posts1 != [] then posts1
    else
      var posts2 := HeadingPosts(p.headings, md, baseUrl);
      if posts2 != [] then posts2
      else DivPosts(p.divs, md, baseUrl)
  }

  // ---------------------------------------------------------------------
  // Lemmas

  lemma PostFromElementIsEmbedded(e: Elem, md: string -> string, baseUrl: string)
    ensures PostFromElement(e, md, baseUrl).Some? ==> IsEmbeddedItem(PostFromElement(e, md, baseUrl).value, baseUrl)
  {
    StripIdempotent(md(e.html));
  }

  /** The heading item's content starts with `#` and ends with the stripped
      body, so stripping it again changes nothing. */
  lemma PostFromHeadingIsEmbedded(h: HeadingSite, md: string -> string, baseUrl: string)
    ensures PostFromHeading(h, md, baseUrl).Some? ==> IsEmbeddedItem(PostFromHeading(h, md, baseUrl).value, baseUrl)
  {
    var r := PostFromHeading(h, md, baseUrl);
    if r.Some? {
      var body := Strip(md(JoinHtml(CollectSiblings(h.following))));
      StripEdges(md(JoinHtml(CollectSiblings(h.following))));
      var content := r.value.content;
      assert content[0] == '#' && content[|content| - 1] == body[|body| - 1];
      StripKeepsTrimmed(content);
    }
  }

  lemma PostFromDivIsEmbedded(e: Elem, md: string -> string, baseUrl: string)
    ensures PostFromDiv(e, md, baseUrl).Some? ==> IsEmbeddedItem(PostFromDiv(e, md, baseUrl).value, baseUrl)
  {
    StripIdempotent(md(e.html));
  }

  /** The sibling walk keeps exactly the named nodes before the first
      stopping heading. */
  lemma {:induction false} CollectSiblingsIsFilteredPrefix(ns: seq<Node>)
    ensures CollectSiblings(ns) == Filter(ns[..StopIndex(ns)], HasName)
    decreases |ns|
  {
    if |ns| > 0 {
      if StopsCollection(ns[0]) {
        assert StopIndex(ns) == 0;
      } else {
        var k := StopIndex(ns);
        StopIndexStep(ns);
        CollectSiblingsIsFilteredPrefix(ns[1..]);
        PrefixCons(ns, k);
        FilterCons(ns[0], ns[1..][..k - 1], HasName);
      }
    }
  }

  /** Past a sibling that does not stop the walk, the stop moves one along. */
  lemma StopIndexStep(ns: seq<Node>)
    requires |ns| > 0 && !StopsCollection(ns[0])
    ensures StopIndex(ns) == StopIndex(ns[1..]) + 1
  {
  }

  /** Every detected item is a blog item attributed to the index page whose
      content, stripped, has at least 100 characters. */
  lemma EmbeddedPostsAreItems(p: EmbeddedPage, md: string -> string, baseUrl: string)
    ensures forall k :: 0 <= k < |ExtractEmbeddedPosts(p, md, baseUrl)| ==>
      IsEmbeddedItem(ExtractEmbeddedPosts(p, md, baseUrl)[k], baseUrl)
  {
    var isItem := (it: ContentItem) => IsEmbeddedItem(it, baseUrl);
    forall i, k | 0 <= i < |p.articles| && 0 <= k < |p.articles[i]|
      ensures PostFromElement(p.articles[i][k], md, baseUrl).Some? ==>
        isItem(PostFromElement(p.articles[i][k], md, baseUrl).value)
    {
      PostFromElementIsEmbedded(p.articles[i][k], md, baseUrl);
    }
    FilterMapAllKeeps(p.articles, (e: Elem) => PostFromElement(e, md, baseUrl), isItem);
    forall k | 0 <= k < |p.headings|
      ensures HeadingPost(p.headings[k], md, baseUrl).Some? ==>
        isItem(HeadingPost(p.headings[k], md, baseUrl).value)
    {
      PostFromHeadingIsEmbedded(p.headings[k], md, baseUrl);
    }
    FilterMapKeeps(p.headings, (h: HeadingSite) => HeadingPost(h, md, baseUrl), isItem);
    forall k | 0 <= k < |p.divs|
      ensures PostFromDiv(p.divs[k], md, baseUrl).Some? ==> isItem(PostFromDiv(p.divs[k], md, baseUrl).value)
    {
      PostFromDivIsEmbedded(p.divs[k], md, baseUrl);
    }
    FilterMapKeeps(p.divs, (e: Elem) => PostFromDiv(e, md, baseUrl), isItem);
  }

  /** Strategy 1 emits one item per (selector, element) match: an element
      matched by two different selectors yields its item twice. */
  lemma SharedMatchRepeats(articles: seq<seq<Elem>>, i: nat, j: nat, e: Elem, md: string -> string, baseUrl: string)
    requires i < j < |articles|
    requires e in articles[i] && e in articles[j]
    requires PostFromElement(e, md, baseUrl).Some?
    ensures multiset(ArticlePosts(articles, md, baseUrl))[PostFromElement(e, md, baseUrl).value] >= 2
  {
    FilterMapAllRepeats(articles, i, j, e, (e: Elem) => PostFromElement(e, md, baseUrl));
  }
}
