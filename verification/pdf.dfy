/** `PDFParser`: the book path. The extracted text is cut into chapters at
    the start positions of a chapter-heading pattern, or, when no pattern
    gives chapters, into chunks of whole sentences under a size budget; each
    long enough chapter becomes a numbered book item.

    PyMuPDF and the regex engine are not modelled: the page texts, the match
    start positions of each pattern (`re.finditer` in `_split_into_chapters`)
    and the sentence list (`re.split` in `_chunk_text`) are inputs. */
module Pdf {
  import opened Wrappers
  import opened Seqs
  import opened Text
  import opened Content

  /** A segment becomes a chapter when strictly longer than this. */
  const MinChapterLength: nat := 500
  /** A chapter becomes an item when its stripped text is strictly longer than this. */
  const MinItemLength: nat := 200
  /** `PDFParser(chunk_size=2000)` and `parse_pdf(max_chapters=8)`. */
  const DefaultChunkSize: int := 2000
  const DefaultMaxChapters: int := 8
  /** At most `max_chapters * 10` pages are read. */
  const PagesPerChapter: int := 10
  /** Every book item is attributed to this author. */
  const BookAuthor: string := "Aline"

  // ---------------------------------------------------------------------
  // Chapters

  /** Where the segment of match `i` ends: the next match start, or the end
      of the text. */
  function SegmentEnd(text: string, ms: seq<int>, i: nat): int
    requires i < |ms|
  {
    if i + 1 < |ms| then ms[i + 1] else |text|
  }

  /** `text[start:end]` for match `i`, with Python's slice semantics. */
  function RawSegment(text: string, ms: seq<int>, i: nat): string
    requires i < |ms|
  {
    Slice(text, ms[i], SegmentEnd(text, ms, i))
  }

  /** The raw segments of every match, in match order. */
  function RawSegments(text: string, ms: seq<int>): (r: seq<string>)
    ensures |r| == |ms|
    ensures forall i :: 0 <= i < |ms| ==> r[i] == RawSegment(text, ms, i)
  {
    seq(|ms|, i requires 0 <= i < |ms| => RawSegment(text, ms, i))
  }

  predicate IsChapterLength(s: string) {
    |s| > MinChapterLength
  }

  /** `text[start:end].strip()` for every match, in match order. */
  function StrippedSegments(text: string, ms: seq<int>): (r: seq<string>)
    ensures |r| == |ms|
    ensures forall i :: 0 <= i < |ms| ==> r[i] == Strip(RawSegment(text, ms, i))
  {
    seq(|ms|, i requires 0 <= i < |ms| => Strip(RawSegment(text, ms, i)))
  }

  /** The chapters one pattern's matches give: the stripped segments longer
      than 500 characters, in match order. */
  function ChaptersFor(text: string, ms: seq<int>): (r: seq<string>)
    ensures |r| <= |ms|
    ensures forall k :: 0 <= k < |r| ==> |r[k]| > MinChapterLength
    ensures forall i :: 0 <= i < |ms| && |Strip(RawSegment(text, ms, i))| > MinChapterLength ==>
      Strip(RawSegment(text, ms, i)) in r
  {
    Filter(StrippedSegments(text, ms), IsChapterLength)
  }

  /** The matches whose segments became chapters: chapter `k` is the stripped
      segment of match `idx[k]`, the matches are taken in increasing order,
      and a match is skipped exactly when its stripped segment has at most
      500 characters. */
  function ChapterMatches(text: string, ms: seq<int>): (idx: seq<nat>)
    ensures |idx| == |ChaptersFor(text, ms)|
    ensures forall k :: 0 <= k < |idx| ==>
      idx[k] < |ms| && ChaptersFor(text, ms)[k] == Strip(RawSegment(text, ms, idx[k]))
    ensures forall k, l :: 0 <= k < l < |idx| ==> idx[k] < idx[l]
    ensures forall i :: 0 <= i < |ms| ==>
      (i in idx <==> |Strip(RawSegment(text, ms, i))| > MinChapterLength)
  {
    FilterPositions(StrippedSegments(text, ms), IsChapterLength)
  }

  /** A pattern is used when it matches more than once and gives a chapter. */
  predicate Qualifies(text: string, ms: seq<int>) {
    |ms| > 1 && ChaptersFor(text, ms) != []
  }

  /** `_split_into_chapters(text)`: `starts[p]` holds the match starts of
      pattern `p`. The first qualifying pattern's chapters, else sentence
      chunks. */
  function SplitIntoChapters(text: string, starts: seq<seq<int>>, sentences: seq<string>, chunkSize: int): (r: seq<string>)
    ensures forall p :: (0 <= p < |starts| && Qualifies(text, starts[p]) &&
      (forall q :: 0 <= q < p ==> !Qualifies(text, starts[q]))) ==> r == ChaptersFor(text, starts[p])
    ensures (forall p :: 0 <= p < |starts| ==> !Qualifies(text, starts[p])) ==> r == Chunks(sentences, chunkSize)
  {
    match FirstWhere(starts, (ms: seq<int>) => Qualifies(text, ms))
    case Some(p) => ChaptersFor(text, starts[p])
    case None => Chunks(sentences, chunkSize)
  }

  // ---------------------------------------------------------------------
  // Sentence chunking

  /** The running chunk built from a group of sentences: each sentence is
      appended after a space, except onto an empty chunk, which it replaces. */
  function Glue(g: seq<string>): string {
    if |g| == 0 then ""
    else
      var c := Glue(g[..|g| - 1]);
      if c != "" then c + " " + g[|g| - 1] else g[|g| - 1]
  }

  /** The sentences of each chunk: the loop of `_chunk_text`, with the groups
      made explicit. The last group is the chunk still open. */
  function Groups(ss: seq<string>, size: int): (gs: seq<seq<string>>)
    ensures |gs| >= 1
    ensures |ss| == 0 ==> gs == [[]]
    ensures |ss| > 0 ==> |gs| <= |ss|
  {
    if |ss| == 0 then [[]]
    else
      var gs := Groups(ss[..|ss| - 1], size);
      var s := ss[|ss| - 1];
      var cur := Glue(gs[|gs| - 1]);
      if |cur| + |s| > size && cur != "" then gs + [[s]]
      else gs[..|gs| - 1] + [gs[|gs| - 1] + [s]]
  }

  /** The chunks closed while walking: every group but the last, stripped. */
  function Closed(gs: seq<seq<string>>): (r: seq<string>)
    requires |gs| >= 1
    ensures |r| == |gs| - 1
  {
    seq(|gs| - 1, k requires 0 <= k < |gs| - 1 => Strip(Glue(gs[k])))
  }

  /** `_chunk_text(text, chunk_size)` over the sentence list: the closed
      chunks, then the open one if it has any non-space character. */
  function Chunks(ss: seq<string>, size: int): (r: seq<string>)
    ensures |r| <= |ss|
    ensures |r| == |Groups(ss, size)| - 1 || |r| == |Groups(ss, size)|
    ensures forall k :: 0 <= k < |r| ==> r[k] == Strip(Glue(Groups(ss, size)[k]))
    ensures |r| == |Groups(ss, size)| <==> Strip(Glue(Groups(ss, size)[|Groups(ss, size)| - 1])) != ""
  {
    var last := Strip(OpenChunk(ss, size));
    ClosedChunks(ss, size) + (if last != "" then [last] else [])
  }

  /** The text of the chunk still open after walking `ss`. */
  function OpenChunk(ss: seq<string>, size: int): string {
    var gs := Groups(ss, size);
    Glue(gs[|gs| - 1])
  }

  /** The chunks closed while walking `ss`. */
  function ClosedChunks(ss: seq<string>, size: int): (r: seq<string>)
    ensures |r| == |Groups(ss, size)| - 1
  {
    Closed(Groups(ss, size))
  }

  /** The loop of `_chunk_text` as written, on strings. */
  method ChunkText(sentences: seq<string>, chunkSize: int) returns (chunks: seq<string>)
    ensures chunks == Chunks(sentences, chunkSize)
    ensures |chunks| <= |sentences|
  {
    chunks := [];
    var current := "";
    var i := 0;
    while i < |sentences|
      invariant 0 <= i <= |sentences|
      invariant current == OpenChunk(sentences[..i], chunkSize)
      invariant chunks == ClosedChunks(sentences[..i], chunkSize)
    {
      var s := sentences[i];
      ChunkStep(sentences, i, chunkSize);
      if |current| + |s| > chunkSize && current != "" {
        chunks := chunks + [Strip(current)];
        current := s;
      } else {
        current := if current != "" then current + " " + s else s;
      }
      i := i + 1;
    }
    assert sentences[..i] == sentences;
    if Strip(current) != "" {
      chunks := chunks + [Strip(current)];
    }
  }

  /** Gluing one more sentence onto a group. */
  lemma GlueSnoc(g: seq<string>, s: string)
    ensures Glue(g + [s]) == if Glue(g) != "" then Glue(g) + " " + s else s
  {
    assert (g + [s])[..|g|] == g;
  }

  /** One step of the chunking loop: either the open chunk is closed and
      the sentence opens the next one, or the sentence joins the open chunk. */
  lemma ChunkStep(ss: seq<string>, i: nat, size: int)
    requires i < |ss|
    ensures var cur := OpenChunk(ss[..i], size);
      && (|cur| + |ss[i]| > size && cur != "" ==>
            ClosedChunks(ss[..i + 1], size) == ClosedChunks(ss[..i], size) + [Strip(cur)]
            && OpenChunk(ss[..i + 1], size) == ss[i])
      && (!(|cur| + |ss[i]| > size && cur != "") ==>
            ClosedChunks(ss[..i + 1], size) == ClosedChunks(ss[..i], size)
            && OpenChunk(ss[..i + 1], size) == if cur != "" then cur + " " + ss[i] else ss[i])
  {
    var gs := Groups(ss[..i], size);
    var g := gs[|gs| - 1];
    var s := ss[i];
    assert ss[..i + 1][..i] == ss[..i];
    GroupsStep(ss[..i + 1], size);
    if |Glue(g)| + |s| > size && Glue(g) != "" {
      ClosedSnoc(gs, [s]);
      GlueSnoc([], s);
    } else {
      ClosedLast(gs, g + [s]);
      GlueSnoc(g, s);
    }
  }

  /** Opening a new group closes the previous last one. */
  lemma ClosedSnoc(gs: seq<seq<string>>, x: seq<string>)
    requires |gs| >= 1
    ensures Closed(gs + [x]) == Closed(gs) + [Strip(Glue(gs[|gs| - 1]))]
  {
  }

  /** Growing the open group closes nothing. */
  lemma ClosedLast(gs: seq<seq<string>>, x: seq<string>)
    requires |gs| >= 1
    ensures Closed(gs[..|gs| - 1] + [x]) == Closed(gs)
  {
  }

  // ---------------------------------------------------------------------
  // Items

  /** `f"Chapter {n}"`. */
  function ChapterTitle(n: nat): string {
    "Chapter " + NatToString(n)
  }

  /** The item for the chapter numbered `number` (counting from 1), if its
      stripped text is long enough. */
  function ChapterItem(number: nat, chapter: string): (r: Option<ContentItem>)
    ensures r.Some? <==> |Strip(chapter)| > MinItemLength
    ensures r.Some? ==> r.value.title == ChapterTitle(number)
    ensures r.Some? ==> r.value.content == Strip(chapter)
  {
    var body := Strip(chapter);
    if body != "" && |body| > MinItemLength then
      Some(ContentItem(ChapterTitle(number), body, Book, None, BookAuthor))
    else None
  }

  /** The item loop of `parse_pdf`: chapter `i` (from 0) is numbered `i + 1`. */
  function ChapterItems(chapters: seq<string>): (r: seq<ContentItem>)
    ensures |r| <= |chapters|
  {
    if |chapters| == 0 then []
    else
      var it := ChapterItem(|chapters|, chapters[|chapters| - 1]);
      ChapterItems(chapters[..|chapters| - 1]) + (if it.Some? then [it.value] else [])
  }

  /** `idx` lists, in increasing order, exactly the chapters whose stripped
      text is long enough, and `r[k]` is the item of chapter `idx[k]`,
      numbered `idx[k] + 1`. */
  ghost predicate ItemsFrom(chapters: seq<string>, r: seq<ContentItem>, idx: seq<nat>) {
    && |idx| == |r|
    && (forall k :: 0 <= k < |idx| ==> idx[k] < |chapters| && ChapterItem(idx[k] + 1, chapters[idx[k]]) == Some(r[k]))
    && (forall k, l :: 0 <= k < l < |idx| ==> idx[k] < idx[l])
    && (forall i :: 0 <= i < |chapters| ==> (i in idx <==> |Strip(chapters[i])| > MinItemLength))
  }

  /** The chapters that became items: item `k` is the item of chapter
      `idx[k]`, numbered `idx[k] + 1`, the chapters are taken in increasing
      order, and a chapter is skipped exactly when its stripped text has at
      most 200 characters. */
  function ItemChapters(chapters: seq<string>): (idx: seq<nat>)
    ensures ItemsFrom(chapters, ChapterItems(chapters), idx)
  {
    if |chapters| == 0 then []
    else
      var n := |chapters| - 1;
      var prev := ItemChapters(chapters[..n]);
      ItemsFromSnoc(chapters, ChapterItems(chapters[..n]), prev);
      prev + (if ChapterItem(n + 1, chapters[n]).Some? then [n] else [])
  }

  /** Extending the item positions by the last chapter. */
  lemma {:induction false} ItemsFromSnoc(chapters: seq<string>, r: seq<ContentItem>, prev: seq<nat>)
    requires |chapters| > 0
    requires ItemsFrom(chapters[..|chapters| - 1], r, prev)
    ensures var n := |chapters| - 1;
      var it := ChapterItem(n + 1, chapters[n]);
      ItemsFrom(chapters, r + (if it.Some? then [it.value] else []), prev + (if it.Some? then [n] else []))
  {
    var n := |chapters| - 1;
    var init := chapters[..n];
    var it := ChapterItem(n + 1, chapters[n]);
    var r' := r + (if it.Some? then [it.value] else []);
    var idx := prev + (if it.Some? then [n] else []);
    forall k | 0 <= k < |idx|
      ensures idx[k] < |chapters| && ChapterItem(idx[k] + 1, chapters[idx[k]]) == Some(r'[k])
    {
      if k < |prev| {
        assert init[prev[k]] == chapters[prev[k]];
      }
    }
    forall i | 0 <= i < |chapters|
      ensures i in idx <==> |Strip(chapters[i])| > MinItemLength
    {
      if i < n {
        assert init[i] == chapters[i];
        assert i in idx <==> i in prev;
      } else {
        assert n !in prev;
      }
    }
  }

  /** What `parse_pdf` needs from PyMuPDF and the regex engine: whether the
      library is installed, the page texts of a document (None when opening
      or reading raises), and the pattern matches and sentence split of a text. */
  datatype PdfEngine = PdfEngine(
    available: bool,
    open: string -> Option<seq<string>>,
    matchStarts: string -> seq<seq<int>>,
    sentences: string -> seq<string>)

  /** `min(len(doc), max_chapters * 10)` as a page count for `range`. */
  function PageLimit(pageCount: nat, maxChapters: int): (n: nat)
    ensures n <= pageCount
    ensures maxChapters * PagesPerChapter <= 0 ==> n == 0
    ensures 0 <= maxChapters * PagesPerChapter <= pageCount ==> n == maxChapters * PagesPerChapter
    ensures maxChapters * PagesPerChapter >= pageCount ==> n == pageCount
  {
    var m := if pageCount < maxChapters * PagesPerChapter then pageCount else maxChapters * PagesPerChapter;
    if m < 0 then 0 else m
  }

  /** The text of the pages read, in page order: exactly the first
      `max_chapters * 10` pages' text when the document has that many, all of
      it when the page budget covers every page, and nothing when the budget
      is not positive; in every case a prefix of the whole document's text. */
  function FullText(pages: seq<string>, maxChapters: int): (r: string)
    ensures |r| <= |Flatten(pages)| && Flatten(pages)[..|r|] == r
    ensures 0 <= maxChapters * PagesPerChapter <= |pages| ==> r == Flatten(pages[..maxChapters * PagesPerChapter])
    ensures maxChapters * PagesPerChapter >= |pages| ==> r == Flatten(pages)
    ensures maxChapters * PagesPerChapter <= 0 ==> r == ""
  {
    var n := PageLimit(|pages|, maxChapters);
    assert pages == pages[..n] + pages[n..];
    FlattenAppend(pages[..n], pages[n..]);
    Flatten(pages[..n])
  }

  /** `parse_pdf(pdf_path, max_chapters)` with the parser's chunk size:
      nothing without PyMuPDF or when the file cannot be opened; otherwise
      the items of the chapters split from the text of the pages read, item
      `k` being chapter `idx[k]`'s item numbered `idx[k] + 1`, every chapter
      of more than 200 stripped characters taken, in order. */
  function ParsePdf(engine: PdfEngine, path: string, maxChapters: int, chunkSize: int): (r: seq<ContentItem>)
    ensures !engine.available || engine.open(path).None? ==> r == []
    ensures engine.available && engine.open(path).Some? ==>
      var text := FullText(engine.open(path).value, maxChapters);
      var chapters := SplitIntoChapters(text, engine.matchStarts(text), engine.sentences(text), chunkSize);
      ItemsFrom(chapters, r, ItemChapters(chapters))
    ensures forall k :: 0 <= k < |r| ==> IsBookItem(r[k])
  {
    if !engine.available then []
    else
      match engine.open(path)
      case None => []
      case Some(pages) =>
        var text := FullText(pages, maxChapters);
        var chapters := SplitIntoChapters(text, engine.matchStarts(text), engine.sentences(text), chunkSize);
        ChapterItemsAreBooks(chapters);
        ChapterItems(chapters)
  }

  /** The invariant of every book item. */
  predicate IsBookItem(it: ContentItem) {
    && it.contentType == Book && it.sourceUrl.None? && it.author == BookAuthor
    && |it.content| > MinItemLength && Strip(it.content) == it.content
  }

  // ---------------------------------------------------------------------
  // Lemmas

  /** The raw segments tile the text from the first match to the end: the
      text before the first match is the only part never looked at. */
  lemma {:induction false} SegmentsTile(text: string, ms: seq<int>)
    requires |ms| > 0
    requires forall i :: 0 <= i < |ms| ==> 0 <= ms[i] <= |text|
    requires forall i :: 0 <= i < |ms| - 1 ==> ms[i] <= ms[i + 1]
    ensures Flatten(RawSegments(text, ms)) == text[ms[0]..]
    decreases |ms|
  {
    if |ms| == 1 {
      assert RawSegments(text, ms) == [text[ms[0]..]] by {
        assert RawSegment(text, ms, 0) == text[ms[0]..];
      }
      FlattenCons(text[ms[0]..], []);
    } else {
      SegmentsCons(text, ms);
      SegmentsTile(text, ms[1..]);
      FlattenCons(text[ms[0]..ms[1]], RawSegments(text, ms[1..]));
      assert text[ms[0]..ms[1]] + text[ms[1]..] == text[ms[0]..];
    }
  }

  /** The first segment runs up to the second match; the rest are the
      segments of the remaining matches. */
  lemma SegmentsCons(text: string, ms: seq<int>)
    requires |ms| >= 2 && 0 <= ms[0] <= ms[1] <= |text|
    ensures RawSegments(text, ms) == [text[ms[0]..ms[1]]] + RawSegments(text, ms[1..])
  {
    assert RawSegment(text, ms, 0) == text[ms[0]..ms[1]];
    forall i | 1 <= i < |ms|
      ensures RawSegment(text, ms, i) == RawSegment(text, ms[1..], i - 1)
    {
    }
  }

  /** Flattening a sequence with a given head. */
  lemma FlattenCons<T>(x: seq<T>, t: seq<seq<T>>)
    ensures Flatten([x] + t) == x + Flatten(t)
  {
    FlattenAppend([x], t);
    assert [x][..0] == [];
    assert Flatten([x]) == x by {
      assert Flatten([x]) == Flatten([]) + x;
    }
  }

  /** Under `re.IGNORECASE` the first two patterns find the same matches, so
      the second is never the one used. */
  lemma SecondPatternRedundant(text: string, starts: seq<seq<int>>, sentences: seq<string>, chunkSize: int)
    requires |starts| >= 2 && starts[0] == starts[1]
    ensures SplitIntoChapters(text, starts, sentences, chunkSize) ==
      SplitIntoChapters(text, [starts[0]] + starts[2..], sentences, chunkSize)
  {
    var short := [starts[0]] + starts[2..];
    var ok := (ms: seq<int>) => Qualifies(text, ms);
    FirstWhereDropsDuplicate(starts, ok);
    match FirstWhere(starts, ok)
    case None =>
      assert FirstWhere(short, ok).None?;
    case Some(p) =>
      var p' := FirstWhere(short, ok).value;
      assert short[p'] == starts[p];
  }

  /** Every sentence lands in exactly one chunk, unsplit and in order. */
  lemma {:induction false} GroupsPartition(ss: seq<string>, size: int)
    ensures Flatten(Groups(ss, size)) == ss
    decreases |ss|
  {
    if |ss| == 0 {
      var none: seq<seq<string>> := [[]];
      assert Flatten(none) == Flatten(none[..0]) + none[0];
    } else {
      GroupsPartition(ss[..|ss| - 1], size);
      FlattenGroupsStep(ss, size);
      SplitLast(ss);
    }
  }

  /** One more sentence adds exactly that sentence to the flattened groups. */
  lemma FlattenGroupsStep(ss: seq<string>, size: int)
    requires |ss| > 0
    ensures Flatten(Groups(ss, size)) == Flatten(Groups(ss[..|ss| - 1], size)) + [ss[|ss| - 1]]
  {
    var gs := Groups(ss[..|ss| - 1], size);
    var s := ss[|ss| - 1];
    var next := Groups(ss, size);
    GroupsStep(ss, size);
    if |Glue(gs[|gs| - 1])| + |s| > size && Glue(gs[|gs| - 1]) != "" {
      assert next == gs + [[s]];
      FlattenSnoc(gs, [s]);
    } else {
      assert next == gs[..|gs| - 1] + [gs[|gs| - 1] + [s]];
      FlattenExtendLast(gs, s);
    }
  }

  /** One more sentence either opens a new group or joins the last one. */
  lemma GroupsStep(ss: seq<string>, size: int)
    requires |ss| > 0
    ensures var gs := Groups(ss[..|ss| - 1], size);
      var s := ss[|ss| - 1];
      var cur := Glue(gs[|gs| - 1]);
      && (|cur| + |s| > size && cur != "" ==> Groups(ss, size) == gs + [[s]])
      && (!(|cur| + |s| > size && cur != "") ==> Groups(ss, size) == gs[..|gs| - 1] + [gs[|gs| - 1] + [s]])
  {
  }

  /** Groups after the first are never empty: a new group starts with the
      sentence that did not fit. */
  lemma {:induction false} LaterGroupsNonEmpty(ss: seq<string>, size: int)
    ensures forall k :: 0 < k < |Groups(ss, size)| ==> |Groups(ss, size)[k]| > 0
    ensures |ss| > 0 ==> |Groups(ss, size)[0]| > 0
    decreases |ss|
  {
    if |ss| > 0 {
      LaterGroupsNonEmpty(ss[..|ss| - 1], size);
    }
  }

  /** Every prefix of a group that extends non-empty glued text stays within
      `size + 1` characters. */
  predicate FitsBudget(g: seq<string>, size: int) {
    forall j :: 0 < j < |g| ==> Glue(g[..j]) == "" || |Glue(g[..j + 1])| <= size + 1
  }

  /** A sentence joins a non-empty running chunk only when the chunk stays
      within `size + 1` characters (the joining space is not counted). */
  lemma {:induction false} GroupsFitBudget(ss: seq<string>, size: int)
    ensures forall k :: 0 <= k < |Groups(ss, size)| ==> FitsBudget(Groups(ss, size)[k], size)
    decreases |ss|
  {
    if |ss| > 0 {
      var init := ss[..|ss| - 1];
      var s := ss[|ss| - 1];
      var gs := Groups(init, size);
      GroupsFitBudget(init, size);
      GroupsStep(ss, size);
      var g := gs[|gs| - 1];
      var r := Groups(ss, size);
      if |Glue(g)| + |s| > size && Glue(g) != "" {
        assert r == gs + [[s]];
        assert FitsBudget([s], size);
        forall k | 0 <= k < |r|
          ensures FitsBudget(r[k], size)
        {
          if k < |gs| {
            assert r[k] == gs[k];
          }
        }
      } else {
        assert r == gs[..|gs| - 1] + [g + [s]];
        FitsAfterJoin(g, s, size);
        forall k | 0 <= k < |r|
          ensures FitsBudget(r[k], size)
        {
          if k < |gs| - 1 {
            assert r[k] == gs[k];
          }
        }
      }
    }
  }

  /** A sentence joins the open group only when the glued text stays within
      the budget (allowing for the joining space). */
  lemma FitsAfterJoin(g: seq<string>, s: string, size: int)
    requires FitsBudget(g, size)
    requires !(|Glue(g)| + |s| > size && Glue(g) != "")
    ensures FitsBudget(g + [s], size)
  {
    var h := g + [s];
    forall j | 0 < j < |h|
      ensures Glue(h[..j]) == "" || |Glue(h[..j + 1])| <= size + 1
    {
      if j < |g| {
        assert h[..j] == g[..j] && h[..j + 1] == g[..j + 1];
      } else {
        assert h[..j] == g && h[..j + 1] == h;
        GlueSnoc(g, s);
      }
    }
  }


  /** A chunk is closed only when the next sentence would push it past the
      budget: between consecutive groups, the earlier is non-empty text and
      adding the next group's first sentence exceeds `size`. */
  predicate ClosedWhenFull(a: seq<string>, b: seq<string>, size: int) {
    Glue(a) != "" && |b| > 0 && |Glue(a)| + |b[0]| > size
  }

  lemma {:induction false} GroupsCloseOnlyWhenFull(ss: seq<string>, size: int)
    ensures forall k :: 0 <= k < |Groups(ss, size)| - 1 ==> ClosedWhenFull(Groups(ss, size)[k], Groups(ss, size)[k + 1], size)
    decreases |ss|
  {
    if |ss| > 0 {
      var init := ss[..|ss| - 1];
      var s := ss[|ss| - 1];
      var gs := Groups(init, size);
      GroupsCloseOnlyWhenFull(init, size);
      LaterGroupsNonEmpty(init, size);
      GroupsStep(ss, size);
      var g := gs[|gs| - 1];
      var r := Groups(ss, size);
      if |Glue(g)| + |s| > size && Glue(g) != "" {
        assert r == gs + [[s]];
        forall k | 0 <= k < |r| - 1
          ensures ClosedWhenFull(r[k], r[k + 1], size)
        {
          assert r[k] == gs[k];
          if k + 1 < |gs| {
            assert r[k + 1] == gs[k + 1];
          }
        }
      } else {
        assert r == gs[..|gs| - 1] + [g + [s]];
        forall k | 0 <= k < |r| - 1
          ensures ClosedWhenFull(r[k], r[k + 1], size)
        {
          assert r[k] == gs[k];
          if k + 1 < |gs| - 1 {
            assert r[k + 1] == gs[k + 1];
          } else {
            assert r[k + 1] == g + [s] && |g| > 0;
            assert r[k + 1][0] == g[0];
          }
        }
      }
    }
  }

  /** Every PDF item is a book chapter by the fixed author, with stripped
      content longer than 200 characters. */
  lemma {:induction false} ChapterItemsAreBooks(chapters: seq<string>)
    ensures forall k :: 0 <= k < |ChapterItems(chapters)| ==> IsBookItem(ChapterItems(chapters)[k])
    decreases |chapters|
  {
    if |chapters| > 0 {
      ChapterItemsAreBooks(chapters[..|chapters| - 1]);
      StripIdempotent(chapters[|chapters| - 1]);
    }
  }

  /** When every chapter is long enough, the items are numbered 1, 2, 3, ... */
  lemma {:induction false} ChapterItemsConsecutive(chapters: seq<string>)
    requires forall i :: 0 <= i < |chapters| ==> |Strip(chapters[i])| > MinItemLength
    ensures |ChapterItems(chapters)| == |chapters|
    ensures forall k :: 0 <= k < |chapters| ==> ChapterItems(chapters)[k].title == ChapterTitle(k + 1)
    decreases |chapters|
  {
    if |chapters| > 0 {
      var n := |chapters|;
      var init := chapters[..n - 1];
      ChapterItemsConsecutive(init);
      var it := ChapterItem(n, chapters[n - 1]);
      assert it.Some? by {
        assert |Strip(chapters[n - 1])| > MinItemLength;
      }
      var r := ChapterItems(chapters);
      assert r == ChapterItems(init) + [it.value];
      forall k | 0 <= k < n
        ensures r[k].title == ChapterTitle(k + 1)
      {
        if k < n - 1 {
          assert r[k] == ChapterItems(init)[k];
        }
      }
    }
  }

  /** A dropped chapter leaves a gap in the numbering: with a short middle
      chapter the items are "Chapter 1" and "Chapter 3". */
  lemma NumberingHasGaps(long: string, short: string)
    requires |Strip(long)| > MinItemLength && |Strip(short)| <= MinItemLength
    ensures |ChapterItems([long, short, long])| == 2
    ensures ChapterItems([long, short, long])[0].title == ChapterTitle(1) == "Chapter 1"
    ensures ChapterItems([long, short, long])[1].title == ChapterTitle(3) == "Chapter 3"
  {
    var cs := [long, short, long];
    assert cs[..2] == [long, short] && cs[..2][..1] == [long] && [long][..0] == [];
    assert ChapterItems([long]) == [ChapterItem(1, long).value];
    assert ChapterItems([long, short]) == ChapterItems([long]);
    assert NatToString(1) == "1" && NatToString(3) == "3";
  }
}
