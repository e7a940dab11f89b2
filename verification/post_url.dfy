/** The post-URL classifier `BlogScraper._is_likely_post_url`: given a
    candidate URL and the index page's URL, both already split by `urlparse`,
    decide whether the candidate is probably an individual post. */
module PostUrl {
  import opened Text

  /** A URL as the classifier sees it: the full string and the two
      `urlparse` components it reads. */
  datatype Url = Url(raw: string, netloc: string, path: string)

  /** Asset extensions, matched anywhere in the lower-cased path. */
  const StaticExtensions: seq<string> := [".css", ".js", ".png", ".jpg", ".gif", ".ico", ".xml", ".json"]

  /** Admin and authentication markers, matched anywhere in the lower-cased path. */
  const AdminMarkers: seq<string> := ["/wp-admin/", "/admin/", "/api/", "/login", "/register"]

  /** Site-navigation pages: rejected on an exact match of the whole path, and
      they also veto the "deep path" acceptance when they occur anywhere. */
  const NavigationPaths: seq<string> := [
    "/course", "/book", "/about", "/contact", "/privacy", "/terms",
    "/login", "/signup", "/register", "/checkout", "/cart", "/pricing",
    "/explore", "/tutorial", "/free-tutorial", "/help", "/support"]

  /** The path fragment that marks a blog post. */
  const BlogIndicator: string := "/blog/"

  /** Minimum number of non-empty path segments for the "deep path" branch. */
  const MinDeepSegments: nat := 3

  /** The lower-cased path, which every substring test is made against. */
  function LowerPath(u: Url): string {
    Lower(u.path)
  }

  /** The path is exactly a navigation page, with or without trailing slashes. */
  predicate IsNavigationPage(lowerPath: string) {
    exists k :: 0 <= k < |NavigationPaths| &&
      (RStripSlash(lowerPath) == NavigationPaths[k] || lowerPath == NavigationPaths[k] + "/")
  }

  /** The candidate's path, slashes trimmed, is strictly longer than the base's. */
  predicate GoesDeeper(url: Url, base: Url) {
    |RStripSlash(url.path)| > |RStripSlash(base.path)|
  }

  /** The reject rules, all of which a post URL must pass. */
  predicate PassesRejectRules(url: Url, base: Url) {
    && url.netloc == base.netloc
    && !ContainsAny(LowerPath(url), StaticExtensions)
    && !StartsWith(url.raw, "#")
    && !ContainsAny(LowerPath(url), AdminMarkers)
    && !IsNavigationPage(LowerPath(url))
    && GoesDeeper(url, base)
  }

  /** The two acceptance branches. */
  predicate HasBlogIndicator(url: Url) {
    Contains(LowerPath(url), BlogIndicator)
  }

  predicate IsDeepContentPath(url: Url) {
    SegmentCount(LowerPath(url)) >= MinDeepSegments && !ContainsAny(LowerPath(url), NavigationPaths)
  }

  /** `_is_likely_post_url(url, base_url)`. The rules are applied in the
      source's order; the first one that fires decides. */
  function IsLikelyPostUrl(url: Url, base: Url): (r: bool)
    // each reject rule, on its own, forces a rejection
    ensures url.netloc != base.netloc ==> !r
    ensures ContainsAny(LowerPath(url), StaticExtensions) ==> !r
    ensures StartsWith(url.raw, "#") ==> !r
    ensures ContainsAny(LowerPath(url), AdminMarkers) ==> !r
    ensures IsNavigationPage(LowerPath(url)) ==> !r
    ensures !GoesDeeper(url, base) ==> !r
    // past the reject rules, it accepts exactly on one of the two branches
    ensures r <==> PassesRejectRules(url, base) && (HasBlogIndicator(url) || IsDeepContentPath(url))
  {
    var path := Lower(url.path);
    if url.netloc != base.netloc then false
    else if ContainsAny(path, StaticExtensions) then false
    else if StartsWith(url.raw, "#") then false
    else if ContainsAny(path, AdminMarkers) then false
    else if IsNavigationPage(path) then false
    else
      var basePath := RStripSlash(base.path);
      var urlPath := RStripSlash(url.path);
      if |urlPath| <= |basePath| || urlPath == basePath then false
      else if Contains(path, BlogIndicator) && |urlPath| > |basePath| then true
      else if SegmentCount(path) >= MinDeepSegments && !ContainsAny(path, NavigationPaths) then true
      else false
  }

  // ---------------------------------------------------------------------
  // Lemmas

  /** Only the base's netloc and the length of its trimmed path matter: no
      prefix relation between the two paths is required. */
  lemma BaseContributesOnlyHostAndDepth(url: Url, base1: Url, base2: Url)
    requires base1.netloc == base2.netloc
    requires |RStripSlash(base1.path)| == |RStripSlash(base2.path)|
    ensures IsLikelyPostUrl(url, base1) == IsLikelyPostUrl(url, base2)
  {
  }

  /** The navigation veto on the deep-path branch is a substring test, so any
      path with a navigation page inside it and no `/blog/` is rejected. */
  lemma NavigationInsideRejectsWithoutBlog(url: Url, base: Url)
    requires ContainsAny(LowerPath(url), NavigationPaths)
    requires !HasBlogIndicator(url)
    ensures !IsLikelyPostUrl(url, base)
  {
  }

  /** A page on the same host with `/blog/` in its path is accepted once it
      passes the reject rules, however shallow it is. */
  lemma BlogIndicatorSuffices(url: Url, base: Url)
    requires PassesRejectRules(url, base)
    requires HasBlogIndicator(url)
    ensures IsLikelyPostUrl(url, base)
  {
  }
}
