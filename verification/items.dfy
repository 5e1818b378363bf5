/** The record the spider yields: one per fetched article page. */
module Items {
  import opened Wrappers

  /** A `CrawlingItem`. The fields are untyped in the source; their types here
      are the types of the values the spider stores in them: the three
      selector results may be `None`, the link and the content are always
      strings. */
  datatype Item = Item(
    date: Option<string>,
    name: Option<string>,
    link: string,
    labels: Option<string>,
    content: string
  )
}
