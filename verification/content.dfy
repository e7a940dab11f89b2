/** The records the scraper produces: one `ContentItem` per extracted unit
    (a blog post or a book chapter) and the `ScrapedOutput` that collects
    them in processing order. */
module Content {
  import opened Wrappers

  /** `content_type`: `"blog"` for web-derived items, `"book"` for PDF chunks. */
  datatype ContentType = Blog | Book

  /** `ContentItem`. Every creation site supplies the author as a string
      (possibly empty), so it is not optional here. */
  datatype ContentItem = ContentItem(
    title: string,
    content: string,
    contentType: ContentType,
    sourceUrl: Option<string>,
    author: string)

  /** `ScrapedOutput`. */
  datatype ScrapedOutput = ScrapedOutput(teamId: string, items: seq<ContentItem>)
}
