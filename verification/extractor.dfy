/** The article extractor `ContentExtractor`: a readability pass accepted
    above a length threshold (`extract_from_html`), a selector-driven
    fallback (`_extract_with_soup`), and the author probe shared by both
    (`_extract_author`).

    HTML parsing, readability and markdownify are not modelled; a `Page`
    carries what the extractor reads from them. For each selector of a fixed
    list, the page lists the elements `select` would return, in document
    order, each flagged with whether the fallback's `decompose` passes remove
    it: `inNoise` for elements inside a removed `script`/`style`/`nav`/
    `header`/`footer`/`aside`/`iframe`, `inWidget` for elements inside a
    `.sidebar`/`.comments`/`.related-posts`/`.navigation`/`.menu` of the
    body. `select_one` on the pruned document is then "the first match whose
    flag is clear". */
module Extractor {
  import opened Wrappers
  import opened Seqs
  import opened Text

  /** Readability's markdown is accepted only when longer than this. */
  const PrimaryMinLength: nat := 100

  /** One element matched by an author selector: a `<meta>` is read from its
      `content` attribute, anything else from its text. */
  datatype AuthorTag = AuthorTag(
    isMeta: bool,
    content: Option<string>,
    text: string,
    inNoise: bool,
    inWidget: bool)

  /** One element matched by a content selector, with the markdown
      (before stripping) that markdownify makes of it once noise is removed. */
  datatype Region = Region(markdown: string, inNoise: bool)

  /** What readability yields: `doc.title()` and the markdown of
      `doc.summary()` (before stripping). */
  datatype Readable = Readable(title: string, markdown: string)

  /** The extractor's view of one HTML document. */
  datatype Page = Page(
    readability: Option<Readable>,        // None: readability, markdownify or the author probe raised
    titleTag: Option<string>,             // text of the first `<title>`, if any
    firstH1: Option<string>,              // text of the first `<h1>`, if any
    regions: seq<seq<Region>>,            // matches of each content selector, in order
                                          // (`article`, `[role="main"]`, `.content`, ... `.post-body`)
    bodyMarkdown: string,                 // markdown of the body (or whole document) after all removals
    authorTags: seq<seq<AuthorTag>>)      // matches of each author selector, in order
                                          // (the three author `<meta>` tags, then `.author`,
                                          // `.byline`, `.post-author`, `[rel="author"]`)

  /** `(title, content, author)`. */
  datatype Article = Article(title: string, content: string, author: string)

  /** Which removals have been applied to the document when the author is probed. */
  datatype Stage =
    | Whole             // the primary path: the unmodified document
    | Pruned            // fallback, a content selector matched: noise removed
    | PrunedNoWidgets   // fallback, no selector matched: noise and body widgets removed

  /** The element is still in the document at the given stage. */
  predicate Present(t: AuthorTag, stage: Stage) {
    match stage
    case Whole => true
    case Pruned => !t.inNoise
    case PrunedNoWidgets => !t.inNoise && !t.inWidget
  }

  /** `soup.select_one(selector)`: the position of the first match still present. */
  function SelectOne(tags: seq<AuthorTag>, stage: Stage): (r: Option<nat>)
    ensures r.None? <==> forall k :: 0 <= k < |tags| ==> !Present(tags[k], stage)
    ensures r.Some? ==> r.value < |tags| && Present(tags[r.value], stage)
    ensures r.Some? ==> forall k :: 0 <= k < r.value ==> !Present(tags[k], stage)
  {
    FirstWhere(tags, (t: AuthorTag) => Present(t, stage))
  }

  /** The stripped value of one author element. */
  function TagValue(t: AuthorTag): string {
    if t.isMeta then Strip(t.content.GetOr("")) else Strip(t.text)
  }

  /** What one author selector yields: the value of its first present match,
      or `""` when nothing matches. */
  function SelectorValue(tags: seq<AuthorTag>, stage: Stage): string {
    match SelectOne(tags, stage)
    case None => ""
    case Some(k) => TagValue(tags[k])
  }

  /** Which author selector supplies the author: the first one whose value
      is non-empty. */
  function AuthorSource(probes: seq<seq<AuthorTag>>, stage: Stage): (r: Option<nat>)
    ensures r.None? <==> forall j :: 0 <= j < |probes| ==> SelectorValue(probes[j], stage) == ""
    ensures r.Some? ==> r.value < |probes| && SelectorValue(probes[r.value], stage) != ""
    ensures r.Some? ==> forall j :: 0 <= j < r.value ==> SelectorValue(probes[j], stage) == ""
  {
    FirstWhere(probes, (ts: seq<AuthorTag>) => SelectorValue(ts, stage) != "")
  }

  /** `_extract_author(soup)`: the value of the first selector that yields a
      non-empty one, or `""` when every selector yields nothing. */
  function ExtractAuthor(probes: seq<seq<AuthorTag>>, stage: Stage): (r: string)
    ensures r == "" <==> AuthorSource(probes, stage).None?
    ensures AuthorSource(probes, stage).Some? ==> r == SelectorValue(probes[AuthorSource(probes, stage).value], stage)
  {
    match AuthorSource(probes, stage)
    case None => ""
    case Some(j) => SelectorValue(probes[j], stage)
  }

  /** Where the fallback's container comes from: selector and match position. */
  datatype Choice = Choice(selector: nat, index: nat)

  predicate Survives(r: Region) {
    !r.inNoise
  }

  predicate HasSurvivor(rs: seq<Region>) {
    exists j :: 0 <= j < |rs| && Survives(rs[j])
  }

  /** The fallback's container: the first surviving match of the first
      content selector that has one. */
  function ChooseContainer(regions: seq<seq<Region>>): (r: Option<Choice>)
    ensures r.None? <==> forall i, j :: 0 <= i < |regions| && 0 <= j < |regions[i]| ==> regions[i][j].inNoise
    ensures r.Some? ==> r.value.selector < |regions| && r.value.index < |regions[r.value.selector]|
    ensures r.Some? ==> !regions[r.value.selector][r.value.index].inNoise
    ensures r.Some? ==> forall i, j :: 0 <= i < r.value.selector && 0 <= j < |regions[i]| ==> regions[i][j].inNoise
    ensures r.Some? ==> forall j :: 0 <= j < r.value.index ==> regions[r.value.selector][j].inNoise
  {
    match FirstWhere(regions, HasSurvivor)
    case None => None
    case Some(i) =>
      match FirstWhere(regions[i], Survives)
      case Some(j) => Some(Choice(i, j))
      case None => None
  }

  /** The fallback's title: the `<title>` text, else the first `<h1>`'s, else `""`. */
  function FallbackTitle(p: Page): string {
    match p.titleTag
    case Some(t) => Strip(t)
    case None => (match p.firstH1 case Some(h) => Strip(h) case None => "")
  }

  /** `_extract_with_soup(html, url)`. `collapse` is the blank-line
      normalisation `re.sub(r'\n\s*\n\s*\n+', '\n\n', ...)`. */
  function ExtractWithSoup(p: Page, collapse: string -> string): (a: Article)
    ensures p.titleTag.Some? ==> a.title == Strip(p.titleTag.value)
    ensures p.titleTag.None? && p.firstH1.Some? ==> a.title == Strip(p.firstH1.value)
    ensures p.titleTag.None? && p.firstH1.None? ==> a.title == ""
    ensures ChooseContainer(p.regions).Some? ==>
      var c := ChooseContainer(p.regions).value;
      a.content == collapse(Strip(p.regions[c.selector][c.index].markdown))
      && a.author == ExtractAuthor(p.authorTags, Pruned)
    ensures ChooseContainer(p.regions).None? ==>
      a.content == collapse(Strip(p.bodyMarkdown))
      && a.author == ExtractAuthor(p.authorTags, PrunedNoWidgets)
  {
    match ChooseContainer(p.regions)
    case Some(c) =>
      Article(FallbackTitle(p), collapse(Strip(p.regions[c.selector][c.index].markdown)),
              ExtractAuthor(p.authorTags, Pruned))
    case None =>
      Article(FallbackTitle(p), collapse(Strip(p.bodyMarkdown)),
              ExtractAuthor(p.authorTags, PrunedNoWidgets))
  }

  /** Readability produced markdown longer than the threshold. */
  predicate PrimaryAccepted(p: Page) {
    p.readability.Some? && |Strip(p.readability.value.markdown)| > PrimaryMinLength
  }

  /** `extract_from_html(html, url)`: the readability result when its
      stripped markdown is long enough, the fallback otherwise (including
      when readability raised). */
  function ExtractFromHtml(p: Page, collapse: string -> string): (a: Article)
    ensures PrimaryAccepted(p) ==>
      a == Article(p.readability.value.title, Strip(p.readability.value.markdown), ExtractAuthor(p.authorTags, Whole))
    ensures PrimaryAccepted(p) ==> |a.content| > PrimaryMinLength
    ensures !PrimaryAccepted(p) ==> a == ExtractWithSoup(p, collapse)
  {
    match p.readability
    case Some(rd) =>
      var md := Strip(rd.markdown);
      if md != "" && |md| > PrimaryMinLength then Article(rd.title, md, ExtractAuthor(p.authorTags, Whole))
      else ExtractWithSoup(p, collapse)
    case None => ExtractWithSoup(p, collapse)
  }

  // ---------------------------------------------------------------------
  // Lemmas

  /** Only the first present match of each selector is read: further
      matches of a selector that already matched change nothing, even when
      the first one is empty and a later one is not. */
  lemma OnlyFirstMatchRead(probes: seq<seq<AuthorTag>>, stage: Stage, i: nat, later: seq<AuthorTag>)
    requires i < |probes| && SelectOne(probes[i], stage).Some?
    ensures ExtractAuthor(probes[i := probes[i] + later], stage) == ExtractAuthor(probes, stage)
  {
    var probes' := probes[i := probes[i] + later];
    var k := SelectOne(probes[i], stage).value;
    assert probes'[i][k] == probes[i][k];
    var k' := SelectOne(probes'[i], stage).value;
    assert k' == k;
    assert SelectorValue(probes'[i], stage) == SelectorValue(probes[i], stage);
    forall j | 0 <= j < |probes|
      ensures SelectorValue(probes'[j], stage) == SelectorValue(probes[j], stage)
    {
    }
    FirstWhereCongruent(probes', (ts: seq<AuthorTag>) => SelectorValue(ts, stage) != "",
                        probes, (ts: seq<AuthorTag>) => SelectorValue(ts, stage) != "");
  }

  /** In the fallback the probe runs on the pruned document: an author that
      only appears inside removed noise elements is not found. */
  lemma FallbackMissesNoiseAuthors(p: Page, collapse: string -> string)
    requires !PrimaryAccepted(p)
    requires forall i, k :: 0 <= i < |p.authorTags| && 0 <= k < |p.authorTags[i]| ==>
      TagValue(p.authorTags[i][k]) != "" ==> p.authorTags[i][k].inNoise
    ensures ExtractFromHtml(p, collapse).author == ""
  {
    forall i | 0 <= i < |p.authorTags|
      ensures SelectorValue(p.authorTags[i], Pruned) == ""
      ensures SelectorValue(p.authorTags[i], PrunedNoWidgets) == ""
    {
    }
  }

  /** The same `.author` element inside a footer: the primary path's probe
      sees it, the fallback's does not. */
  lemma FooterAuthorSeenOnlyByPrimary()
    ensures ExtractAuthor([[], [], [], [AuthorTag(false, None, "Ann", true, false)]], Whole) == "Ann"
    ensures ExtractAuthor([[], [], [], [AuthorTag(false, None, "Ann", true, false)]], Pruned) == ""
  {
    StripKeepsTrimmed("Ann");
    var probes := [[], [], [], [AuthorTag(false, None, "Ann", true, false)]];
    assert SelectorValue(probes[3], Whole) == "Ann";
    assert SelectorValue(probes[0], Whole) == "";
  }
}
