/** The records the aggregator reads and writes. */
module Records {
  import opened Js

  /** One configured source: the fields of an entry of `sources` that the aggregator reads. */
  datatype Source = Source(name: Value, site: Value, feed: Value)

  /**
    One update `{source, title, date, url}`.  The XML path always fills the
    fields with strings (except a `url` that falls back to the source's
    `site`); the JSON path copies whatever values the feed holds.
   */
  datatype Item = Item(source: Value, title: Value, date: Value, url: Value)
}
