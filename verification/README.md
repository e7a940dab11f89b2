# A Dafny model of the content scraper

`scraper.py` collects knowledge-base items from a list of sources. A source
ending in `.pdf` is cut into book chapters. A URL that looks like a blog index
is expanded into its post pages. If the index links to no posts, the posts
embedded in the index page itself are used. Any other URL is one article. Every
item is a `ContentItem` with a title, markdown content, a type (`blog` or
`book`), an optional source URL and an author. The items of all sources are
concatenated into one `ScrapedOutput`.

This project models that logic as pure Dafny functions and proves what the
code promises about it. The modules follow the program:

| module | what it models |
|---|---|
| `Wrappers`, `Seqs`, `Text` | `Option`; Python's list idioms (first match, filter, de-duplication, slices); Python's `str.strip`, `lower`, `in`, `split` counts and `str(n)` |
| `Content` | the `ContentItem` and `ScrapedOutput` records |
| `PostUrl` | the post-URL classifier `_is_likely_post_url` |
| `Harvester` | the post-URL harvester `_extract_post_urls` |
| `Extractor` | `ContentExtractor`: readability pass, selector fallback, author probe |
| `Embedded` | the embedded-post detector and its three strategies |
| `Pdf` | `PDFParser`: page reading limit, chapter split, sentence chunking, chapter items |
| `Orchestrator` | `scrape_url`, `scrape_blog_index`, `scrape_sources`, `_is_blog_index` |

Everything the code gets from a library is a parameter of the model. That
covers HTTP fetching, HTML parsing, readability, markdownify, `urljoin` and
`urlparse`, the regular expressions and PyMuPDF. A page is represented by what
the scraper reads from it. For example, for each selector the page lists the
elements `select` returns, in document order, each flagged with whether a
`decompose` pass removes it.

## Model

| member | source | states |
|---|---|---|
| `PostUrl.IsLikelyPostUrl` | scraper.py:474-529 | Each reject rule on its own forces a rejection: other host, static extension, leading `#`, admin marker, exact navigation page, path no deeper than the base. Past those rules a URL is accepted exactly when it has `/blog/` or at least three path segments and no navigation path inside. |
| `PostUrl.BaseContributesOnlyHostAndDepth` | scraper.py:476-515 | The base URL matters only through its host and the length of its slash-trimmed path. Two bases that agree on both classify every URL alike; the URL's path need not extend the base's. |
| `PostUrl.NavigationInsideRejectsWithoutBlog` | scraper.py:517-529 | Without `/blog/`, a path that contains a navigation path anywhere (such as `/course/x/y`) is rejected. |
| `PostUrl.BlogIndicatorSuffices` | scraper.py:518-525 | A same-host path containing `/blog/` that passes the reject rules is accepted, however shallow it is. |
| `Harvester.ExtractPostUrls` | scraper.py:390-472 | The loop's result equals `Dedup(Accepted(...))`, the reference definition. It has no duplicates. Every admitted candidate's resolved URL is in it. Its URLs appear in order of first discovery. |
| `Harvester.HarvestStep` | scraper.py:401-405 | One candidate is appended exactly when it has an `href`, passes the classifier and its resolved URL is not yet in the list. |
| `Harvester.PostUrlsFacts` | scraper.py:393-405 | The harvested list is duplicate-free, complete for admitted candidates, and ordered by first occurrence among the accepted candidates. |
| `Harvester.AcceptedComplete` | scraper.py:399-405 | Every candidate with an `href` that the classifier accepts contributes its resolved URL. |
| `Harvester.PostUrlsAreClassified` | scraper.py:401-405 | Every harvested URL passes `_is_likely_post_url` against the index URL and is on the index's host. |
| `Harvester.NearHrefs` | scraper.py:439-454 | Around one heading, strategy 3 tries the enclosing link first and then the first three following sibling links: between one and four links, exactly the ones `TriedNear` names. |
| `Harvester.HeadingHrefs` | scraper.py:427-454 | Strategy 3 tries at most four links per heading. Every link it tries belongs to some heading, and every such link of every heading is tried. |
| `Harvester.HeadingHrefsUnit` | scraper.py:427-454 | No headings give no links, and one heading gives exactly its `NearHrefs`. |
| `Harvester.HeadingHrefsAppend` | scraper.py:428-454 | The headings are handled one after another: the links of two runs of headings are the first run's links followed by the second's. With `HeadingHrefsUnit` this fixes the order heading by heading. |
| `Harvester.LaterStrategiesAddNothing` | scraper.py:407-469 | When every `href` that strategies 2-4 see was already among strategy 1's anchors, the result is strategy 1's result alone. |
| `Extractor.SelectOne` | scraper.py:119-121 | `select_one` picks the first match still present at the given pruning stage, and nothing exactly when no match is present. |
| `Extractor.ExtractAuthor` | scraper.py:107-128 | The author is the stripped value of the first selector whose first match yields a non-empty value. It is `""` exactly when no selector does. |
| `Extractor.ChooseContainer` | scraper.py:155-159 | The fallback container is the first surviving match of the first content selector that has one. It is absent exactly when every match was removed with the noise elements. |
| `Extractor.ExtractWithSoup` | scraper.py:130-176 | Title: `<title>`, else the first `<h1>`, else `""`. Content: the chosen container's stripped markdown, else the widget-free body's, then blank-line collapsing. The author is probed on the document pruned at that stage. |
| `Extractor.ExtractFromHtml` | scraper.py:82-105 | Readability's result is used exactly when its stripped markdown has more than 100 characters, with the author probed on the whole document. Otherwise (including when readability raised) the fallback's result is used. |
| `Extractor.OnlyFirstMatchRead` | scraper.py:119-127 | Further matches of a selector that already matched never change the author, even when its first match is empty. |
| `Extractor.FallbackMissesNoiseAuthors` | scraper.py:140-174 | On the fallback path, an author that occurs only inside removed noise elements is not found. |
| `Extractor.FooterAuthorSeenOnlyByPrimary` | scraper.py:96-97 | Concrete case: an `.author` inside a footer is found on the whole document but not on the pruned one. |
| `Embedded.PostFromElement` | scraper.py:323-353 | An element yields an item exactly when it has a heading of at least 5 stripped characters and its markdown has at least 100. The item has that title and content, the first author match's text, type `blog` and the index URL. |
| `Embedded.CollectSiblings` | scraper.py:359-369 | The collected siblings are named nodes, none of which is a stopping major heading. |
| `Embedded.CollectSiblingsIsFilteredPrefix` | scraper.py:361-369 | The collected siblings are exactly the named nodes before the first stopping heading. |
| `Embedded.PostFromHeading` | scraper.py:355-388 | A heading yields an item exactly when something was collected and the collected markdown has at least 100 stripped characters. The content is `# title`, a blank line, then that markdown; the author is empty. |
| `Embedded.ArticlePosts` | scraper.py:272-277 | Strategy 1 yields only items that some element matched by some article selector produces, and every item such an element produces is among them. |
| `Embedded.ArticlePostSources` | scraper.py:272-277 | Item `k` of strategy 1 is the item of match `idx[k].1` of article selector `idx[k].0`. The pairs increase in selector-then-document order, so each (selector, match) pair gives at most one item, and a pair is skipped exactly when its element yields no item. |
| `Embedded.HeadingPost` | scraper.py:284-293 | Headings without a long enough `.string`, or with a navigation word in their text, yield nothing. Any other heading yields its heading post. |
| `Embedded.HeadingPosts` | scraper.py:279-293 | Strategy 2 yields at most one item per heading. |
| `Embedded.HeadingPostSources` | scraper.py:279-293 | Item `k` of strategy 2 is the item of heading `idx[k]`. The headings are taken in document order, and a heading is skipped exactly when `HeadingPost` yields nothing for it. |
| `Embedded.PostFromDiv` | scraper.py:299-319 | A div yields an item exactly when it has more than 200 text characters and 30 words, no navigation word in its first 100 lower-cased characters, a heading over 5 characters and markdown over 100. |
| `Embedded.DivPosts` | scraper.py:296-319 | Strategy 3 yields at most one item per div. |
| `Embedded.DivPostSources` | scraper.py:296-319 | Item `k` of strategy 3 is the item of div `idx[k]`. The divs are taken in document order, and a div is skipped exactly when `PostFromDiv` yields nothing for it. |
| `Embedded.ExtractEmbeddedPosts` | scraper.py:256-321 | Strategy 2 runs only when strategy 1 found nothing, and strategy 3 only when both found nothing. |
| `Embedded.PostFromElementIsEmbedded` | scraper.py:335-353 | An element's item is a blog item of the index URL with at least 100 characters of stripped content. |
| `Embedded.PostFromHeadingIsEmbedded` | scraper.py:376-388 | A heading's item is a blog item of the index URL with at least 100 characters of stripped content. |
| `Embedded.PostFromDivIsEmbedded` | scraper.py:311-319 | A div's item is a blog item of the index URL with at least 100 characters of stripped content. |
| `Embedded.EmbeddedPostsAreItems` | scraper.py:256-321 | Every detected post is a blog item of the index URL with at least 100 characters of stripped content. |
| `Embedded.SharedMatchRepeats` | scraper.py:262-277 | An element matched by two article selectors (`.post` and `[class*="post"]`) contributes its item twice. |
| `Pdf.RawSegments` | scraper.py:669-672 | There is one raw segment per match, running from the match to the next match or to the end of the text. |
| `Pdf.SegmentsTile` | scraper.py:669-672 | For sorted in-range matches, the segments concatenate to the text from the first match on. Nothing after the first match is lost or duplicated. |
| `Pdf.StrippedSegments` | scraper.py:669-672 | There is one stripped segment per match: the text from that match to the next match (or the end), stripped. |
| `Pdf.ChaptersFor` | scraper.py:668-674 | A pattern's chapters are stripped segments longer than 500 characters, at most one per match. Every such segment is among them. |
| `Pdf.ChapterMatches` | scraper.py:668-674 | Chapter `k` is the stripped segment of match `idx[k]`, the matches are taken in increasing order, and a match is skipped exactly when its stripped segment has at most 500 characters. |
| `Pdf.SplitIntoChapters` | scraper.py:657-678 | The result is the chapters of the first pattern that matches more than once and gives a chapter. When no pattern qualifies, it is the sentence chunks. |
| `Pdf.SecondPatternRedundant` | scraper.py:659-666 | Under `re.IGNORECASE` the `Chapter` and `CHAPTER` patterns match alike, and dropping the second never changes the result. |
| `Pdf.Chunks` | scraper.py:680-696 | Chunk `k` is the stripped, space-joined sentences of group `k`. There is one chunk per group, except that the last group is dropped exactly when it strips to `""`, and at most one chunk per sentence. |
| `Pdf.ChunkText` | scraper.py:680-696 | The loop as written computes the reference chunking `Chunks`, with at most one chunk per sentence. |
| `Pdf.ChunkStep` | scraper.py:686-691 | A sentence closes the open chunk and starts the next exactly when adding it would exceed the budget and the open chunk is non-empty. Otherwise it is appended after a space (or replaces an empty chunk). |
| `Pdf.GroupsPartition` | scraper.py:686-696 | Every sentence lands in exactly one chunk group, whole and in order. |
| `Pdf.GroupsFitBudget` | scraper.py:687-691 | A sentence joins a non-empty running chunk only when the result stays within the chunk size plus the joining space. |
| `Pdf.GroupsCloseOnlyWhenFull` | scraper.py:687-689 | A chunk is closed only when it is non-empty and the next group's first sentence would push it past the budget. |
| `Pdf.LaterGroupsNonEmpty` | scraper.py:687-689 | Every chunk after the first starts with a sentence. |
| `Pdf.FullText` | scraper.py:629-634 | The text read is exactly the text of the first `max_chapters * 10` pages when the document has that many, all of it when that product covers every page, and empty when the product is not positive. |
| `Pdf.PageLimit` | scraper.py:629-632 | The pages read are `min(page count, max_chapters * 10)`, and none when that is not positive. |
| `Pdf.ChapterItem` | scraper.py:641-648 | A chapter yields an item exactly when its stripped text is longer than 200 characters. The item is titled `Chapter n` and holds the stripped text. |
| `Pdf.ChapterItems` | scraper.py:640-648 | There is at most one item per chapter. |
| `Pdf.ItemChapters` | scraper.py:640-648 | Item `k` is `ChapterItem(i + 1, chapters[i])` for the chapter `i = idx[k]`. The chapters are taken in increasing order, and chapter `i` is among them exactly when its stripped text is longer than 200 characters. |
| `Pdf.ChapterItemsAreBooks` | scraper.py:640-648 | Every chapter item is a `book` with no URL and author `Aline`, and its content is stripped and longer than 200 characters. |
| `Pdf.ChapterItemsConsecutive` | scraper.py:640-643 | When every chapter is long enough, the items are numbered `Chapter 1`, `Chapter 2`, ... in order. |
| `Pdf.NumberingHasGaps` | scraper.py:640-643 | Numbering counts dropped chapters: with a short middle chapter the titles are `Chapter 1` and `Chapter 3`. |
| `Pdf.ParsePdf` | scraper.py:619-655 | Without PyMuPDF, or when opening fails, the result is empty. Otherwise item `k` is `Chapter {i+1}` for the `k`-th chapter `i` whose stripped text is longer than 200 characters, in chapter order, where the chapters are split from the text of the pages read. Every item is a book chapter. |
| `Orchestrator.ScrapeUrl` | scraper.py:184-211 | A page yields at most one item, and one exactly when it was fetched and its stripped content has at least 100 characters. The item carries the extracted title, content and author, type `blog` and the page URL. |
| `Orchestrator.ScrapeEach` | scraper.py:243-250 | The post loop yields at most one item per URL. Every item is a web item whose source URL is one of the URLs. |
| `Orchestrator.ScrapeBlogIndex` | scraper.py:213-219 | An index that cannot be fetched yields nothing. |
| `Orchestrator.ScrapeEachFollowsUrls` | scraper.py:243-250 | The post loop yields one item per post URL whose page yields one, in URL order. Item `k` is the item `scrape_url` makes of the `k`-th such URL, with that page's title, content and author. |
| `Orchestrator.ScrapeEachAppend` | scraper.py:243-250 | Scraping a URL list is scraping its parts one after the other. |
| `Orchestrator.ScrapeEachDistinct` | scraper.py:243-250 | A duplicate-free URL list gives web items from those URLs, no two from the same URL. |
| `Orchestrator.IndexCap` | scraper.py:231-247 | A blog index yields at most `max_posts` items, on both the embedded and the harvested path. |
| `Orchestrator.IndexProvenance` | scraper.py:221-247 | With harvested post URLs, item `k` is the `scrape_url` item of the `k`-th URL among the first `max_posts` whose page yields one, and no two items share a URL. Without them, the items are the first `min(max_posts, n)` of the `n` embedded posts of the index page (for a negative `max_posts`, all but the last `-max_posts`), each a blog item of the index. |
| `Orchestrator.IndexItemsAreWeb` | scraper.py:213-250 | Every item of a blog index is a web item: type `blog`, a source URL, and at least 100 characters of stripped content. |
| `Orchestrator.IsPdfSource` | scraper.py:713 | A source is a PDF exactly when it ends in `.pdf` in any mix of letter case. |
| `Orchestrator.IsBlogIndex` | scraper.py:728-731 | A URL is a blog index exactly when one of the indicators occurs at some position of its lower-cased form. |
| `Orchestrator.SourceItems` | scraper.py:713-724 | A PDF source goes to the PDF parser (nothing without PDF support), any other source to the blog-index scraper when it looks like an index and to the single-page scraper otherwise. A PDF source yields only book chapters; any other source yields only web items. |
| `Orchestrator.ScrapeSources` | scraper.py:706-726 | The output carries the team id and the items of all sources in source order. Every item is a book chapter or a web item, and it has a source URL exactly when it is a `blog` item. |
| `Orchestrator.AllItemsAppend` | scraper.py:708-726 | The output for a list of sources is the concatenation of the outputs for its parts. |
| `Orchestrator.AllItemsUnit` | scraper.py:708-726 | No sources give no items, and a single source gives exactly its own items. With `AllItemsAppend` this fixes the output for every list of sources. |
| `Orchestrator.NoPdfNoBooks` | scraper.py:713-724 | Without a PDF source the output has no book items. |
| `Orchestrator.PdfSkippedWhenUnavailable` | scraper.py:714-718 | Without PDF support, the output is the output for the list with the PDF sources removed. |
| `Orchestrator.ResourcesIndicatorRedundant` | scraper.py:728-731 | `/resources` adds nothing to the index indicators, because `/resource` matches every URL containing it. |
| `Orchestrator.BlogHostIsIndex` | scraper.py:728-731 | Any URL whose lower-cased form contains `//blog`, such as the single post `http://blog.io/hello`, counts as a blog index, because `//blog` contains `/blog`. |
| `Orchestrator.PdfBeforeIndex` | scraper.py:713-722 | The routing rule that the PDF test comes first, restated from `SourceItems`, together with the witness that makes it matter: `/blog/A.PDF` is both a PDF source and a blog index, and it goes to the PDF parser. |
| `Seqs.Take` | scraper.py:241 | `xs[:n]` keeps the first `n` elements. A negative `n` drops that many from the end, as Python's slice does. |
| `Seqs.DedupOrder` | scraper.py:393-405 | Keeping first occurrences keeps them in the order of first occurrence. |
| `Text.StripEmpty` | scraper.py:641 | `s.strip()` is empty exactly when `s` is all whitespace. |
| `Text.StripIdempotent` | scraper.py:641-644 | Stripping twice is stripping once, so a chapter's stored content is already stripped. |
| `Text.ContainsAnyAt` | scraper.py:731 | `any(p in s for p in ps)` holds exactly when some `p` occurs at some position of `s`. |
| `Text.ContainsSuffix` | scraper.py:731 | A string that contains `p + q` contains `q`. |
| `Text.StripIsSlice` | scraper.py:672 | `s.strip()` is the contiguous piece of `s` between its leading and trailing whitespace. |
| `Text.NatToStringValue` | scraper.py:643 | The digits of `str(n)` denote `n`. |

## Left out

- Fetching (`_fetch_html` and the Playwright fallback, lines 531-611): it is I/O. A page is a `World.fetch` result; a failed fetch or an empty body is `None`.
- The half-second pause between posts (line 248) and the `async` scheduling: they do not affect any result.
- Logging, `save_output`, `main` and the demo suites (lines 733 onward): they are output only.
- The `except` handlers that turn a raised exception into `[]`: library failures are not modelled. Readability raising is a page whose `readability` view is `None`, and a PDF that cannot be opened is `open` returning `None`.
- HTML parsing, readability, markdownify, `urljoin`/`urlparse`, the three chapter regexes, the sentence split and the blank-line regex (line 172) are library code. They enter as parameters or as precomputed views of a page.
- `Text.Lower`: models `str.lower` for ASCII letters only and leaves every other character unchanged. Python also lower-cases non-ASCII letters, and a few of them matter for every `.lower()` comparison in the scraper. U+212A (KELVIN SIGN) becomes `k`. So the source rejects `/boo\u212A` as the `/book` navigation page (line 506) or as a navigation path (line 526), and treats such a heading or div as navigation (lines 287 and 304), while the model may not. U+0130 becomes two characters, so in the source it shifts the 100-character window of line 304. The model differs from the source only on such inputs.
- The `hasattr(current, 'name')` test (line 365) is a per-node input flag (`Node.hasName`). The model does not decide which bs4 node kinds carry a name.
- Strategy 3 of the harvester tests `heading.name == 'a'` on `h1`-`h4` elements (line 431). That test can never hold, so the branch is not modelled.
- `ContentItem.user_id` (line 56) is never set, and `author` is always a string at creation, so it is not optional in the model.
- `Orchestrator.ScrapeBlogIndex`: its own contract only covers the failed fetch. Its results are described by the lemmas `IndexCap`, `IndexProvenance` and `IndexItemsAreWeb`.
