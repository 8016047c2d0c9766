/** The records the catalog stores (`class Result`, script.js:10-20) and how one is built
    from arXiv's parsed Atom response (`filterData`, script.js:25-27). */
module Records {
  import opened Wrappers

  /** The parts of an arXiv Atom entry the page shows: title, abstract and canonical URL.
      The catalog itself never looks inside. */
  datatype Entry = Entry(title: string, summary: string, url: string)

  /** `<feed>`; `entry` is None when the response holds no `<entry>` element. */
  datatype Feed = Feed(entry: Option<Entry>)

  /** The parsed response body; `feed` is None when it holds no `<feed>` element. */
  datatype Document = Document(feed: Option<Feed>)

  /** A catalogued paper: the link the user typed, the arXiv entry (JavaScript's `undefined`
      when there was none) and the derived identifier, which is the catalog's key. */
  datatype Result = Result(link: string, data: Option<Entry>, id: string)

  /** `filterData(data, link, id)`: None where `data.feed.entry` throws because there is no
      feed (the surrounding `.catch` then yields `undefined`). The key is always the caller's
      `id`, never anything taken from the response. */
  function FilterData(doc: Document, link: string, id: string): (r: Option<Result>)
    ensures r.Some? <==> doc.feed.Some?
    ensures r.Some? ==> r.value.id == id && r.value.link == link
    ensures r.Some? ==> r.value.data == doc.feed.value.entry
  {
    match doc.feed
    case None => None
    case Some(feed) => Some(Result(link, feed.entry, id))
  }
}
