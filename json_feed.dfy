/**
  The JSON side of the aggregator (`normalizeJsonItems`) and the per-source
  fetch (`fetchSourceUpdates`), whose network call and `JSON.parse` are
  parameters of the model.
 */
module JsonFeed {
  import opened Wrappers
  import opened Js
  import opened Text
  import opened Records
  import opened XmlFeed

  /**
    The list `normalizeJsonItems` maps over: the array itself, or else
    `data.items || data.entries || []`.  None when evaluating that throws
    (`data` is null) or when the value chosen has no `map` (is not an array).
   */
  function RawItems(data: Value): (r: Option<seq<Value>>)
    ensures data.Array? ==> r == Some(data.elems)
    ensures Nullish(data) ==> r.None?
    ensures !data.Array? && !Nullish(data) && Truthy(Prop(data, "items")) ==>
      r == if Prop(data, "items").Array? then Some(Prop(data, "items").elems) else None
    ensures !data.Array? && !Nullish(data) && !Truthy(Prop(data, "items")) && Truthy(Prop(data, "entries")) ==>
      r == if Prop(data, "entries").Array? then Some(Prop(data, "entries").elems) else None
    ensures !data.Array? && !Nullish(data) && !Truthy(Prop(data, "items")) && !Truthy(Prop(data, "entries")) ==>
      r == Some([])
  {
    if data.Array? then Some(data.elems)
    else if Nullish(data) then None
    else
      var candidates := [Prop(data, "items"), Prop(data, "entries")];
      assert candidates[1] == Prop(data, "entries");
      var chosen := FirstTruthy(candidates, Array([]));
      if chosen.Array? then Some(chosen.elems) else None
  }

  /**
    The record the `map` callback builds for one element: each field the
    first truthy of its candidates, ending with the source's name, "Update",
    "" and the source's `site`.
   */
  function JsonRecord(item: Value, source: Source): (r: Item)
    requires !Nullish(item)
    ensures r.source == if Truthy(Prop(item, "source")) then Prop(item, "source") else source.name
    ensures Truthy(Prop(item, "title")) ==> r.title == Prop(item, "title")
    ensures !Truthy(Prop(item, "title")) && Truthy(Prop(item, "summary")) ==> r.title == Prop(item, "summary")
    ensures !Truthy(Prop(item, "title")) && !Truthy(Prop(item, "summary")) ==> r.title == Str("Update")
    ensures Truthy(Prop(item, "date")) ==> r.date == Prop(item, "date")
    ensures !Truthy(Prop(item, "date")) && Truthy(Prop(item, "published")) ==> r.date == Prop(item, "published")
    ensures !Truthy(Prop(item, "date")) && !Truthy(Prop(item, "published")) && Truthy(Prop(item, "updated")) ==>
      r.date == Prop(item, "updated")
    ensures !Truthy(Prop(item, "date")) && !Truthy(Prop(item, "published")) && !Truthy(Prop(item, "updated")) ==>
      r.date == Str("")
    ensures Truthy(Prop(item, "url")) ==> r.url == Prop(item, "url")
    ensures !Truthy(Prop(item, "url")) && Truthy(Prop(item, "link")) ==> r.url == Prop(item, "link")
    ensures !Truthy(Prop(item, "url")) && !Truthy(Prop(item, "link")) ==> r.url == source.site
    ensures Truthy(r.title)
  {
    var titles := [Prop(item, "title"), Prop(item, "summary")];
    var dates := [Prop(item, "date"), Prop(item, "published"), Prop(item, "updated")];
    var urls := [Prop(item, "url"), Prop(item, "link")];
    assert titles[1] == Prop(item, "summary") && dates[1] == Prop(item, "published") && dates[2] == Prop(item, "updated");
    assert urls[1] == Prop(item, "link");
    Item(
      FirstTruthy([Prop(item, "source")], source.name),
      FirstTruthy(titles, Str("Update")),
      FirstTruthy(dates, Str("")),
      FirstTruthy(urls, source.site))
  }

  /** `items.map(callback)`: None when the callback throws on a null or undefined element. */
  function JsonRecords(items: seq<Value>, source: Source): (r: Option<seq<Item>>)
    ensures r.Some? <==> forall i :: 0 <= i < |items| ==> !Nullish(items[i])
    ensures r.Some? ==> |r.value| == |items| && forall i :: 0 <= i < |items| ==> r.value[i] == JsonRecord(items[i], source)
  {
    if items == [] then Some([])
    else if Nullish(items[0]) then None
    else match JsonRecords(items[1..], source)
      case None =>
        assert exists i :: 0 <= i < |items[1..]| && Nullish(items[1..][i]);
        None
      case Some(rest) => Some([JsonRecord(items[0], source)] + rest)
  }

  /** `normalizeJsonItems(data, source)`; None when it throws. */
  function NormalizeJsonItems(data: Value, source: Source): (r: Option<seq<Item>>)
    ensures r.Some? <==> RawItems(data).Some? && forall i :: 0 <= i < |RawItems(data).value| ==> !Nullish(RawItems(data).value[i])
    ensures r.Some? ==> |r.value| == |RawItems(data).value|
    ensures r.Some? ==> forall i :: 0 <= i < |r.value| ==> r.value[i] == JsonRecord(RawItems(data).value[i], source)
  {
    match RawItems(data)
    case None => None
    case Some(items) => JsonRecords(items, source)
  }

  /** A JSON item with neither `title` nor `summary` is titled "Update"; one with no date field has date "". */
  lemma JsonDefaults(item: Value, source: Source)
    requires item.Object?
    ensures "title" !in item.fields && "summary" !in item.fields ==> JsonRecord(item, source).title == Str("Update")
    ensures "date" !in item.fields && "published" !in item.fields && "updated" !in item.fields ==>
      JsonRecord(item, source).date == Str("")
  {
  }

  /** What the feed request came back with: a network failure, or a status and a body. */
  datatype FeedResponse = FeedUnreachable | FeedAnswered(ok: bool, body: string)

  /** The sniffing test `trimmed.startsWith("{") || trimmed.startsWith("[")`. */
  predicate LooksLikeJson(trimmed: string) {
    |trimmed| > 0 && (trimmed[0] == '{' || trimmed[0] == '[')
  }

  /**
    `fetchSourceUpdates(source)`, given what the request returned
    (`response`, not consulted when there is no feed) and the parser
    `JSON.parse` stands for (None when it throws).  Every failure is caught and
    yields the empty list.
   */
  function FetchSourceUpdates(source: Source, response: FeedResponse, parseJson: string -> Option<Value>): (r: seq<Item>)
    ensures !Truthy(source.feed) ==> r == []
    ensures response.FeedUnreachable? || !response.ok ==> r == []
  {
    if !Truthy(source.feed) then []
    else match response
      case FeedUnreachable => []
      case FeedAnswered(ok, body) =>
        if !ok then []
        else
          var trimmed := Trim(body);
          if LooksLikeJson(trimmed) then
            match parseJson(trimmed)
            case None => []
            case Some(data) =>
              match NormalizeJsonItems(data, source)
              case None => []
              case Some(items) => items
          else
            XmlRecords(trimmed, source)
  }

  /** Whatever path a source's records come from, each of them has a truthy title. */
  lemma FetchedTitlesTruthy(source: Source, response: FeedResponse, parseJson: string -> Option<Value>)
    ensures var r := FetchSourceUpdates(source, response, parseJson);
      forall i :: 0 <= i < |r| ==> Truthy(r[i].title)
  {
    if Truthy(source.feed) && response.FeedAnswered? && response.ok && !LooksLikeJson(Trim(response.body)) {
      XmlRecordsShape(Trim(response.body), source);
    }
  }

  /**
    A body that, trimmed, starts with `{` or `[` goes to the JSON normaliser,
    and any other body to the XML parser: the two paths never mix.
   */
  lemma FetchDispatchesOnFirstCharacter(source: Source, body: string, parseJson: string -> Option<Value>)
    requires Truthy(source.feed)
    ensures var r := FetchSourceUpdates(source, FeedAnswered(true, body), parseJson);
      var trimmed := Trim(body);
      (LooksLikeJson(trimmed) && parseJson(trimmed).Some? && NormalizeJsonItems(parseJson(trimmed).value, source).Some? ==>
        r == NormalizeJsonItems(parseJson(trimmed).value, source).value) &&
      (LooksLikeJson(trimmed) && (parseJson(trimmed).None? || NormalizeJsonItems(parseJson(trimmed).value, source).None?) ==>
        r == []) &&
      (!LooksLikeJson(trimmed) ==> r == XmlRecords(trimmed, source))
  {
  }
}
