/** The post-URL harvester `BlogScraper._extract_post_urls`: four candidate
    streams of `href` values, resolved against the index URL, classified, and
    merged into one duplicate-free list in first-discovery order. */
module Harvester {
  import opened Seqs
  import opened PostUrl

  /** The URL library as the harvester uses it: `urljoin`, and the two
      components of `urlparse` that the classifier reads. */
  datatype UrlLib = UrlLib(
    join: (string, string) -> string,
    netloc: string -> string,
    path: string -> string)

  /** `urlparse(s)`, restricted to what the classifier needs. */
  function Parse(lib: UrlLib, s: string): (u: Url)
    ensures u.raw == s
  {
    Url(s, lib.netloc(s), lib.path(s))
  }

  /** The links around one `h1`–`h4` heading that strategy 3 looks at: the
      `href` of an enclosing `<a>` (`""` if there is none or it has no
      `href`) and the `href`s of the heading's following sibling `<a>`
      elements in order (`""` for one without `href`). */
  datatype HeadingLinks = HeadingLinks(parentHref: string, siblingHrefs: seq<string>)

  /** The candidate `href` values of an index page, one stream per strategy,
      each in document order. An empty string stands for a missing or empty
      `href`, which every strategy skips. */
  datatype Anchors = Anchors(
    all: seq<string>,                 // strategy 1: every `<a href>`
    inContainers: seq<string>,        // strategy 2: anchors inside each blog-container match
    nearHeadings: seq<HeadingLinks>,  // strategy 3: links around each heading
    inSections: seq<string>)          // strategy 4: anchors inside keyword-classed div/section

  /** How many following sibling anchors strategy 3 inspects per heading. */
  const SiblingLookahead: nat := 3

  /** The links strategy 3 tries around one heading: the enclosing link and
      the first three following sibling links. */
  predicate TriedNear(h: HeadingLinks, href: string) {
    href == h.parentHref || href in Take(h.siblingHrefs, SiblingLookahead)
  }

  /** The links strategy 3 tries around one heading, in order: the
      enclosing link, then the first three following sibling links. */
  function NearHrefs(h: HeadingLinks): (r: seq<string>)
    ensures 1 <= |r| <= SiblingLookahead + 1
    ensures forall href :: TriedNear(h, href) <==> href in r
  {
    [h.parentHref] + Take(h.siblingHrefs, SiblingLookahead)
  }

  /** Strategy 3's candidates in the order it tries them: at most four per
      heading, and exactly the links tried around some heading.
      `HeadingHrefsUnit` and `HeadingHrefsAppend` fix the order: heading by
      heading, each contributing its `NearHrefs`. */
  function HeadingHrefs(hs: seq<HeadingLinks>): (r: seq<string>)
    ensures |r| <= (SiblingLookahead + 1) * |hs|
    ensures forall k :: 0 <= k < |r| ==> exists i :: 0 <= i < |hs| && TriedNear(hs[i], r[k])
    ensures forall i, href :: 0 <= i < |hs| && TriedNear(hs[i], href) ==> href in r
  {
    if |hs| == 0 then []
    else
      var init := hs[..|hs| - 1];
      var h := hs[|hs| - 1];
      var prev := HeadingHrefs(init);
      assert forall i :: 0 <= i < |init| ==> init[i] == hs[i];
      prev + NearHrefs(h)
  }

  /** No heading gives no links, and one heading gives its own links. */
  lemma HeadingHrefsUnit(h: HeadingLinks)
    ensures HeadingHrefs([]) == []
    ensures HeadingHrefs([h]) == NearHrefs(h)
  {
    assert [h][..0] == [];
  }

  /** The links of two runs of headings are the first run's links followed
      by the second's. */
  lemma {:induction false} HeadingHrefsAppend(a: seq<HeadingLinks>, b: seq<HeadingLinks>)
    ensures HeadingHrefs(a + b) == HeadingHrefs(a) + HeadingHrefs(b)
    decreases |b|
  {
    if |b| == 0 {
      assert a + b == a;
    } else {
      var b' := b[..|b| - 1];
      assert (a + b)[..|a + b| - 1] == a + b';
      assert (a + b)[|a + b| - 1] == b[|b| - 1];
      HeadingHrefsAppend(a, b');
    }
  }

  /** Strategies 2 to 4 together. */
  function LaterCandidates(a: Anchors): seq<string> {
    a.inContainers + HeadingHrefs(a.nearHeadings) + a.inSections
  }

  /** Every candidate in the order the four strategies try them. */
  function Candidates(a: Anchors): seq<string> {
    a.all + LaterCandidates(a)
  }

  /** The absolute URL `urljoin(base_url, href)`. */
  function Resolve(lib: UrlLib, baseUrl: string, href: string): string {
    lib.join(baseUrl, href)
  }

  /** A candidate the harvester keeps (duplicates aside): a non-empty `href`
      whose resolved URL the classifier accepts. */
  predicate Admits(lib: UrlLib, baseUrl: string, href: string) {
    href != "" && IsLikelyPostUrl(Parse(lib, Resolve(lib, baseUrl, href)), Parse(lib, baseUrl))
  }

  /** Reference definition: the resolved URLs of the admitted candidates, in
      candidate order, repeats included. */
  function Accepted(lib: UrlLib, baseUrl: string, hrefs: seq<string>): (r: seq<string>)
    ensures |r| <= |hrefs|
  {
    if |hrefs| == 0 then []
    else
      var h := hrefs[|hrefs| - 1];
      Accepted(lib, baseUrl, hrefs[..|hrefs| - 1])
        + (if Admits(lib, baseUrl, h) then [Resolve(lib, baseUrl, h)] else [])
  }

  /** The harvester's result, stated as "filter, then keep first occurrences". */
  function PostUrls(lib: UrlLib, baseUrl: string, a: Anchors): seq<string> {
    Dedup(Accepted(lib, baseUrl, Candidates(a)))
  }

  /** `_extract_post_urls(html, base_url)`: classify each candidate as it is
      met and append it unless it was seen before. */
  method ExtractPostUrls(lib: UrlLib, baseUrl: string, a: Anchors) returns (urls: seq<string>)
    ensures urls == PostUrls(lib, baseUrl, a)
    ensures NoDuplicates(urls)
    ensures forall k :: 0 <= k < |urls| ==>
      urls[k] in Accepted(lib, baseUrl, Candidates(a))
    ensures forall k :: 0 <= k < |Candidates(a)| && Admits(lib, baseUrl, Candidates(a)[k]) ==>
      Resolve(lib, baseUrl, Candidates(a)[k]) in urls
    ensures forall i, j :: 0 <= i < j < |urls| ==>
      FirstIndex(Accepted(lib, baseUrl, Candidates(a)), urls[i])
        < FirstIndex(Accepted(lib, baseUrl, Candidates(a)), urls[j])
  {
    var cands := Candidates(a);
    var base := Parse(lib, baseUrl);
    urls := [];
    var seen: set<string> := {};
    var i := 0;
    while i < |cands|
      invariant 0 <= i <= |cands|
      invariant urls == Dedup(Accepted(lib, baseUrl, cands[..i]))
      invariant forall u :: u in seen <==> u in urls
    {
      var href := cands[i];
      HarvestStep(lib, baseUrl, cands, i, urls);
      if href != "" {
        var full := lib.join(baseUrl, href);
        if full !in seen && IsLikelyPostUrl(Parse(lib, full), base) {
          urls := urls + [full];
          seen := seen + {full};
        }
      }
      i := i + 1;
    }
    assert cands[..i] == cands;
    PostUrlsFacts(lib, baseUrl, a);
  }

  // ---------------------------------------------------------------------
  // Lemmas

  /** One more candidate extends the accepted list by its URL exactly when it
      is admitted. */
  lemma AcceptedStep(lib: UrlLib, baseUrl: string, hrefs: seq<string>, i: nat)
    requires i < |hrefs|
    ensures Admits(lib, baseUrl, hrefs[i]) ==>
      Accepted(lib, baseUrl, hrefs[..i + 1]) == Accepted(lib, baseUrl, hrefs[..i]) + [Resolve(lib, baseUrl, hrefs[i])]
    ensures !Admits(lib, baseUrl, hrefs[i]) ==>
      Accepted(lib, baseUrl, hrefs[..i + 1]) == Accepted(lib, baseUrl, hrefs[..i])
  {
    assert hrefs[..i + 1][..i] == hrefs[..i];
    assert Accepted(lib, baseUrl, hrefs[..i]) + [] == Accepted(lib, baseUrl, hrefs[..i]);
  }

  /** One loop step of the harvester: the next candidate is appended exactly
      when it is admitted and its URL is new. */
  lemma HarvestStep(lib: UrlLib, baseUrl: string, cands: seq<string>, i: nat, urls: seq<string>)
    requires i < |cands|
    requires urls == Dedup(Accepted(lib, baseUrl, cands[..i]))
    ensures Admits(lib, baseUrl, cands[i]) && Resolve(lib, baseUrl, cands[i]) !in urls ==>
      Dedup(Accepted(lib, baseUrl, cands[..i + 1])) == urls + [Resolve(lib, baseUrl, cands[i])]
    ensures !(Admits(lib, baseUrl, cands[i]) && Resolve(lib, baseUrl, cands[i]) !in urls) ==>
      Dedup(Accepted(lib, baseUrl, cands[..i + 1])) == urls
  {
    AcceptedStep(lib, baseUrl, cands, i);
    if Admits(lib, baseUrl, cands[i]) {
      DedupSnoc(Accepted(lib, baseUrl, cands[..i]), Resolve(lib, baseUrl, cands[i]));
    }
  }

  /** The harvester's result is duplicate-free, holds exactly the accepted
      URLs, and lists them in first-discovery order. */
  lemma PostUrlsFacts(lib: UrlLib, baseUrl: string, a: Anchors)
    ensures NoDuplicates(PostUrls(lib, baseUrl, a))
    ensures forall k :: 0 <= k < |PostUrls(lib, baseUrl, a)| ==>
      PostUrls(lib, baseUrl, a)[k] in Accepted(lib, baseUrl, Candidates(a))
    ensures forall k :: 0 <= k < |Candidates(a)| && Admits(lib, baseUrl, Candidates(a)[k]) ==>
      Resolve(lib, baseUrl, Candidates(a)[k]) in PostUrls(lib, baseUrl, a)
    ensures forall i, j :: 0 <= i < j < |PostUrls(lib, baseUrl, a)| ==>
      FirstIndex(Accepted(lib, baseUrl, Candidates(a)), PostUrls(lib, baseUrl, a)[i])
        < FirstIndex(Accepted(lib, baseUrl, Candidates(a)), PostUrls(lib, baseUrl, a)[j])
  {
    DedupOrder(Accepted(lib, baseUrl, Candidates(a)));
    AcceptedComplete(lib, baseUrl, Candidates(a));
  }

  /** Every admitted candidate's URL is among the accepted ones. */
  lemma {:induction false} AcceptedComplete(lib: UrlLib, baseUrl: string, hrefs: seq<string>)
    ensures forall k :: 0 <= k < |hrefs| && Admits(lib, baseUrl, hrefs[k]) ==>
      Resolve(lib, baseUrl, hrefs[k]) in Accepted(lib, baseUrl, hrefs)
    decreases |hrefs|
  {
    if |hrefs| > 0 {
      var p := hrefs[..|hrefs| - 1];
      AcceptedComplete(lib, baseUrl, p);
      forall k | 0 <= k < |hrefs| - 1
        ensures hrefs[k] == p[k]
      {
      }
    }
  }

  /** Every accepted URL is the resolution of an admitted candidate. */
  lemma {:induction false} AcceptedSound(lib: UrlLib, baseUrl: string, hrefs: seq<string>, u: string)
    requires u in Accepted(lib, baseUrl, hrefs)
    ensures exists k :: 0 <= k < |hrefs| && Admits(lib, baseUrl, hrefs[k]) && Resolve(lib, baseUrl, hrefs[k]) == u
    decreases |hrefs|
  {
    var p := hrefs[..|hrefs| - 1];
    if u in Accepted(lib, baseUrl, p) {
      AcceptedSound(lib, baseUrl, p, u);
      var k :| 0 <= k < |p| && Admits(lib, baseUrl, p[k]) && Resolve(lib, baseUrl, p[k]) == u;
      assert hrefs[k] == p[k];
    } else {
      assert Admits(lib, baseUrl, hrefs[|hrefs| - 1]);
    }
  }

  lemma {:induction false} AcceptedAppend(lib: UrlLib, baseUrl: string, a: seq<string>, b: seq<string>)
    ensures Accepted(lib, baseUrl, a + b) == Accepted(lib, baseUrl, a) + Accepted(lib, baseUrl, b)
    decreases |b|
  {
    if |b| == 0 {
      assert a + b == a;
    } else {
      var b' := b[..|b| - 1];
      var h := b[|b| - 1];
      AppendInit(a, b);
      AcceptedAppend(lib, baseUrl, a, b');
      var x, y := Accepted(lib, baseUrl, a), Accepted(lib, baseUrl, b');
      var z := if Admits(lib, baseUrl, h) then [Resolve(lib, baseUrl, h)] else [];
      assert Accepted(lib, baseUrl, a + b) == Accepted(lib, baseUrl, a + b') + z;
      assert (x + y) + z == x + (y + z);
    }
  }

  /** Every URL the harvester returns passes the classifier and lies on the
      index page's host. */
  lemma PostUrlsAreClassified(lib: UrlLib, baseUrl: string, a: Anchors, u: string)
    requires u in PostUrls(lib, baseUrl, a)
    ensures IsLikelyPostUrl(Parse(lib, u), Parse(lib, baseUrl))
    ensures lib.netloc(u) == lib.netloc(baseUrl)
  {
    AcceptedSound(lib, baseUrl, Candidates(a), u);
  }

  /** Strategies 2 to 4 only look at anchors with a non-empty `href`, and every
      such anchor is already in strategy 1's stream: then they add nothing,
      and the result is strategy 1's result. */
  lemma LaterStrategiesAddNothing(lib: UrlLib, baseUrl: string, a: Anchors)
    requires forall k :: 0 <= k < |LaterCandidates(a)| && LaterCandidates(a)[k] != "" ==>
      LaterCandidates(a)[k] in a.all
    ensures PostUrls(lib, baseUrl, a) == Dedup(Accepted(lib, baseUrl, a.all))
  {
    var first := Accepted(lib, baseUrl, a.all);
    var rest := Accepted(lib, baseUrl, LaterCandidates(a));
    AcceptedAppend(lib, baseUrl, a.all, LaterCandidates(a));
    AcceptedComplete(lib, baseUrl, a.all);
    forall u | u in rest
      ensures u in first
    {
      AcceptedSound(lib, baseUrl, LaterCandidates(a), u);
      var k :| 0 <= k < |LaterCandidates(a)| && Admits(lib, baseUrl, LaterCandidates(a)[k])
        && Resolve(lib, baseUrl, LaterCandidates(a)[k]) == u;
      var j :| 0 <= j < |a.all| && a.all[j] == LaterCandidates(a)[k];
    }
    DedupAbsorbs(first, rest);
  }
}
