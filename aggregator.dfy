/**
  The body of `main` in the aggregator: pool the first three items of every
  source in source order, drop the items without a date, sort the rest by
  date, newest first, and keep ten.
 */
module Aggregator {
  import opened Wrappers
  import opened Js
  import opened Records
  import opened JsonFeed
  import opened Sorting

  /** How many items one source may contribute (`items.slice(0, 3)`). */
  const PerSourceCap: nat := 3
  /** How many items the snapshot keeps (`cleaned.slice(0, 10)`). */
  const SnapshotCap: nat := 10

  /** What `fetchSourceUpdates` returns for each source, the i-th request having returned `responses[i]`. */
  function FetchAll(sources: seq<Source>, responses: seq<FeedResponse>, parseJson: string -> Option<Value>): (r: seq<seq<Item>>)
    requires |sources| == |responses|
    ensures |r| == |sources|
    ensures forall i :: 0 <= i < |r| ==> r[i] == FetchSourceUpdates(sources[i], responses[i], parseJson)
  {
    if sources == [] then []
    else [FetchSourceUpdates(sources[0], responses[0], parseJson)] + FetchAll(sources[1..], responses[1..], parseJson)
  }

  /** `allItems` after the loop: the first three items of each source's list, concatenated in source order. */
  function Pool(fetched: seq<seq<Item>>): seq<Item>
  {
    if fetched == [] then []
    else
      var n := |fetched| - 1;
      Pool(fetched[..n]) + Take(fetched[n], PerSourceCap)
  }

  /** No source contributes more than three items to the pool. */
  lemma {:induction false} PoolBound(fetched: seq<seq<Item>>)
    ensures |Pool(fetched)| <= PerSourceCap * |fetched|
  {
    if fetched != [] {
      PoolBound(fetched[..|fetched| - 1]);
    }
  }

  /** Each source's contribution is the first three items of its own list, in its own order, after those of the sources before it. */
  lemma {:induction false} PoolAppend(fetched: seq<seq<Item>>, more: seq<seq<Item>>)
    ensures Pool(fetched + more) == Pool(fetched) + Pool(more)
    decreases |more|
  {
    if more == [] {
      assert fetched + more == fetched;
    } else {
      var n := |more| - 1;
      var whole := fetched + more;
      assert whole[..|whole| - 1] == fetched + more[..n];
      assert whole[|whole| - 1] == more[n];
      PoolAppend(fetched, more[..n]);
      calc {
        Pool(whole);
        Pool(fetched + more[..n]) + Take(more[n], PerSourceCap);
        Pool(fetched) + Pool(more[..n]) + Take(more[n], PerSourceCap);
        Pool(fetched) + Pool(more);
      }
    }
  }

  /** `allItems.filter((item) => item.date)`: keeps exactly the items whose date is truthy, in order. */
  function Dated(items: seq<Item>): (r: seq<Item>)
    ensures forall i :: 0 <= i < |r| ==> Truthy(r[i].date)
    ensures forall x: Item :: Truthy(x.date) ==> multiset(r)[x] == multiset(items)[x]
    ensures forall x: Item :: !Truthy(x.date) ==> multiset(r)[x] == 0
    ensures multiset(r) <= multiset(items)
  {
    if items == [] then []
    else
      var rest := Dated(items[1..]);
      assert items == [items[0]] + items[1..];
      if Truthy(items[0].date) then [items[0]] + rest else rest
  }

  lemma {:induction false} DatedAppend(a: seq<Item>, b: seq<Item>)
    ensures Dated(a + b) == Dated(a) + Dated(b)
  {
    if a == [] {
      assert a + b == b;
    } else {
      assert (a + b)[0] == a[0] && (a + b)[1..] == a[1..] + b;
      DatedAppend(a[1..], b);
    }
  }

  /** A list whose every date is truthy passes the filter unchanged. */
  lemma {:induction false} DatedKeepsDated(items: seq<Item>)
    requires forall i :: 0 <= i < |items| ==> Truthy(items[i].date)
    ensures Dated(items) == items
  {
    if items != [] {
      DatedKeepsDated(items[1..]);
    }
  }

  /**
    When every source returns at least three items and its first three carry
    dates, the filtered pool holds exactly three items per source: twelve such
    sources fill all ten places of the snapshot.
   */
  lemma {:induction false} FullSourcesFillPool(fetched: seq<seq<Item>>)
    requires forall i :: 0 <= i < |fetched| ==>
      |fetched[i]| >= PerSourceCap && forall k :: 0 <= k < PerSourceCap ==> Truthy(fetched[i][k].date)
    ensures |Dated(Pool(fetched))| == PerSourceCap * |fetched|
  {
    if fetched != [] {
      var n := |fetched| - 1;
      var init := fetched[..n];
      assert forall i :: 0 <= i < |init| ==> init[i] == fetched[i];
      FullSourcesFillPool(init);
      DatedAppend(Pool(init), Take(fetched[n], PerSourceCap));
      FirstThreeDated(fetched[n]);
    }
  }

  lemma FirstThreeDated(xs: seq<Item>)
    requires |xs| >= PerSourceCap && forall k :: 0 <= k < PerSourceCap ==> Truthy(xs[k].date)
    ensures |Dated(Take(xs, PerSourceCap))| == PerSourceCap
  {
    DatedKeepsDated(Take(xs, PerSourceCap));
  }

  /**
    The time `new Date(item.date)` denotes, with 0 standing in for an invalid
    date.  The source's comparator yields NaN for an invalid date, which leaves
    the order of such items to the JavaScript engine, so no contract below
    relies on that stand-in.
   */
  function DateKey(parseDate: Value -> Option<int>, x: Item): int {
    match parseDate(x.date)
    case Some(t) => t
    case None => 0
  }

  predicate AllDatesParse(items: seq<Item>, parseDate: Value -> Option<int>) {
    forall i :: 0 <= i < |items| ==> parseDate(items[i].date).Some?
  }

  /**
    The loop of `main` over the sources: `responses[i]` is what fetching the
    i-th source's feed returned and `parseJson` stands for `JSON.parse`.
   */
  method PoolSources(sources: seq<Source>, responses: seq<FeedResponse>, parseJson: string -> Option<Value>)
    returns (all: seq<Item>)
    requires |sources| == |responses|
    ensures all == Pool(FetchAll(sources, responses, parseJson))
  {
    ghost var fetched := FetchAll(sources, responses, parseJson);
    all := [];
    for i := 0 to |sources|
      invariant all == Pool(fetched[..i])
    {
      var items := FetchSourceUpdates(sources[i], responses[i], parseJson);
      all := all + Take(items, PerSourceCap);
      assert fetched[..i + 1][..i] == fetched[..i];
    }
    assert fetched[..|sources|] == fetched;
  }

  /**
    The ranking step of `main`: filter out the undated items, sort the rest
    newest first (`parseDate` stands for `new Date`, None for an invalid date),
    keep ten.
   */
  method Rank(all: seq<Item>, parseDate: Value -> Option<int>) returns (items: seq<Item>)
    ensures |items| == Min(SnapshotCap, |Dated(all)|)
    ensures forall i :: 0 <= i < |items| ==> Truthy(items[i].date)
    ensures multiset(items) <= multiset(Dated(all))
    ensures AllDatesParse(Dated(all), parseDate) ==>
      forall i, j :: 0 <= i < j < |items| ==> DateKey(parseDate, items[i]) >= DateKey(parseDate, items[j])
    ensures AllDatesParse(Dated(all), parseDate) ==>
      forall x, y :: x in items && y in multiset(Dated(all)) - multiset(items) ==> DateKey(parseDate, y) <= DateKey(parseDate, x)
  {
    var cleaned := Dated(all);
    items := TakeLargest(cleaned, (x: Item) => DateKey(parseDate, x), SnapshotCap);
    DrawnFromDated(items, all);
  }

  /** Whatever is drawn from the filtered pool carries a date. */
  lemma DrawnFromDated(items: seq<Item>, all: seq<Item>)
    requires multiset(items) <= multiset(Dated(all))
    ensures forall i :: 0 <= i < |items| ==> Truthy(items[i].date)
  {
    forall i | 0 <= i < |items|
      ensures Truthy(items[i].date)
    {
      assert items[i] in multiset(Dated(all));
    }
  }

  /** `main` without the file I/O: the snapshot's `items`. */
  method BuildUpdates(sources: seq<Source>, responses: seq<FeedResponse>,
                      parseJson: string -> Option<Value>, parseDate: Value -> Option<int>)
    returns (items: seq<Item>)
    requires |sources| == |responses|
    ensures var all := Pool(FetchAll(sources, responses, parseJson));
      |items| == Min(SnapshotCap, |Dated(all)|) &&
      (forall i :: 0 <= i < |items| ==> Truthy(items[i].date)) &&
      multiset(items) <= multiset(Dated(all)) &&
      (AllDatesParse(Dated(all), parseDate) ==>
        forall i, j :: 0 <= i < j < |items| ==> DateKey(parseDate, items[i]) >= DateKey(parseDate, items[j])) &&
      (AllDatesParse(Dated(all), parseDate) ==>
        forall x, y :: x in items && y in multiset(Dated(all)) - multiset(items) ==> DateKey(parseDate, y) <= DateKey(parseDate, x))
  {
    var all := PoolSources(sources, responses, parseJson);
    items := Rank(all, parseDate);
  }
}
