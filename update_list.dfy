/**
  The client script's `updateList`: load the project list, ask for every
  project's latest commit, and when at least one answered, replace the
  contents of the page's updates list by the six newest, each as a link.
 */
module UpdateList {
  import opened Wrappers
  import opened Js
  import opened Commits
  import opened Sorting

  /** How many updates the list shows (`updates.slice(0, 6)`). */
  const ShownCap: nat := 6

  /**
    `Array.isArray(data.projects) ? data.projects : []`, None where reading
    `data.projects` throws (a JSON body of `null`).
   */
  function Projects(data: Value): (r: Option<seq<Value>>)
    ensures r.None? <==> Nullish(data)
    ensures !Nullish(data) && Prop(data, "projects").Array? ==> r == Some(Prop(data, "projects").elems)
    ensures !Nullish(data) && !Prop(data, "projects").Array? ==> r == Some([])
  {
    if Nullish(data) then None
    else
      var projects := Prop(data, "projects");
      if projects.Array? then Some(projects.elems) else Some([])
  }

  /**
    `projects.map(fetchLatestCommit)`, `respond(i)` standing for what the
    request made for the project at index `i` returned: two equal projects
    at different indices make two requests, which may answer differently.
   */
  function Outcomes(projects: seq<Value>, respond: nat -> JsonResponse): (r: seq<Outcome>)
    ensures |r| == |projects|
    ensures forall i :: 0 <= i < |r| ==> r[i] == FetchLatestCommit(projects[i], respond(i))
  {
    seq(|projects|, (i: int) requires 0 <= i < |projects| => FetchLatestCommit(projects[i], respond(i)))
  }

  /** `.filter(Boolean)` on the settled values: the records, each as often as it occurs, nulls dropped. */
  function Kept(outcomes: seq<Outcome>): (r: seq<CommitUpdate>)
    ensures forall u :: multiset(r)[u] == multiset(outcomes)[Update(u)]
    ensures |r| <= |outcomes|
  {
    if outcomes == [] then []
    else
      var rest := Kept(outcomes[1..]);
      assert outcomes == [outcomes[0]] + outcomes[1..];
      if outcomes[0].Update? then [outcomes[0].update] + rest else rest
  }

  /** The filter keeps the order of the projects: the records of a list's parts, one after the other. */
  lemma {:induction false} KeptAppend(a: seq<Outcome>, b: seq<Outcome>)
    ensures Kept(a + b) == Kept(a) + Kept(b)
  {
    if a == [] {
      assert a + b == b;
    } else {
      assert (a + b)[0] == a[0] && (a + b)[1..] == a[1..] + b;
      KeptAppend(a[1..], b);
    }
  }

  predicate AnyRejected(outcomes: seq<Outcome>) {
    exists i :: 0 <= i < |outcomes| && outcomes[i].Rejected?
  }

  /**
    The updates `updateList` goes on to sort: None when it returns early or
    something throws (the page's list is then kept as it was), otherwise the
    non-empty list of records in project order.
   */
  function Updates(page: JsonResponse, respond: nat -> JsonResponse): (r: Option<seq<CommitUpdate>>)
    ensures page.Unreachable? || !page.ok || page.payload.None? ==> r.None?
    ensures page.Answered? && page.payload.Some? && Nullish(page.payload.value) ==> r.None?
    ensures r.Some? ==> r.value != []
  {
    match page
    case Unreachable => None
    case Answered(ok, payload) =>
      if !ok || payload.None? then None
      else match Projects(payload.value)
        case None => None
        case Some(projects) =>
          var outcomes := Outcomes(projects, respond);
          if AnyRejected(outcomes) || Kept(outcomes) == [] then None
          else Some(Kept(outcomes))
  }

  /**
    One rejected commit request makes `Promise.all` reject, so nothing is
    shown even if other projects answered.
   */
  lemma OneFailureKeepsList(data: Value, respond: nat -> JsonResponse, i: nat)
    requires Projects(data).Some? && i < |Projects(data).value|
    requires FetchLatestCommit(Projects(data).value[i], respond(i)) == Rejected
    ensures Updates(Answered(true, Some(data)), respond) == None
  {
    var outcomes := Outcomes(Projects(data).value, respond);
    assert outcomes[i].Rejected?;
  }

  /**
    With no failure, the records are exactly the non-null answers, in project
    order, and each keeps its multiplicity.
   */
  lemma UpdatesAreAnswers(data: Value, respond: nat -> JsonResponse)
    requires Projects(data).Some?
    requires !AnyRejected(Outcomes(Projects(data).value, respond))
    ensures var outcomes := Outcomes(Projects(data).value, respond);
      Updates(Answered(true, Some(data)), respond) ==
        if Kept(outcomes) == [] then None else Some(Kept(outcomes))
  {
  }

  /** The time `new Date(item.date)` denotes, 0 standing in for an invalid date. */
  function UpdateKey(parseDate: Value -> Option<int>, u: CommitUpdate): int {
    match parseDate(u.date)
    case Some(t) => t
    case None => 0
  }

  predicate AllDatesParse(us: seq<CommitUpdate>, parseDate: Value -> Option<int>) {
    forall i :: 0 <= i < |us| ==> parseDate(us[i].date).Some?
  }

  /**
    `formatDate(dateString)`: "Recent" for an invalid date, otherwise the
    month and year `format` gives for the time it denotes.
   */
  function FormatDate(date: Value, parseDate: Value -> Option<int>, format: int -> string): (r: string)
    ensures parseDate(date).None? ==> r == "Recent"
    ensures parseDate(date).Some? ==> r == format(parseDate(date).value)
  {
    match parseDate(date)
    case None => "Recent"
    case Some(t) => format(t)
  }

  /** One list entry: the link's target and the parts of its text. */
  datatype Entry = Entry(href: Value, when: string, name: Value, message: string)

  /** The entry `updateList` appends for `item`: the link goes to `item.url`, or to "/" when that is falsy. */
  function EntryOf(u: CommitUpdate, parseDate: Value -> Option<int>, format: int -> string): (r: Entry)
    ensures Truthy(u.url) ==> r.href == u.url
    ensures !Truthy(u.url) ==> r.href == Str("/")
    ensures r.when == FormatDate(u.date, parseDate, format)
    ensures r.name == u.name && r.message == u.message
  {
    Entry(FirstTruthy([u.url], Str("/")), FormatDate(u.date, parseDate, format), u.name, u.message)
  }

  /**
    `updates.sort(...)` then `.slice(0, 6)`: at most six of the updates,
    newest first, and the six newest whenever every date is valid.
   */
  method Newest(updates: seq<CommitUpdate>, parseDate: Value -> Option<int>) returns (selected: seq<CommitUpdate>)
    ensures |selected| == Min(ShownCap, |updates|)
    ensures multiset(selected) <= multiset(updates)
    ensures AllDatesParse(updates, parseDate) ==>
      forall i, j :: 0 <= i < j < |selected| ==> UpdateKey(parseDate, selected[i]) >= UpdateKey(parseDate, selected[j])
    ensures AllDatesParse(updates, parseDate) ==>
      forall x, y :: x in selected && y in multiset(updates) - multiset(selected) ==> UpdateKey(parseDate, y) <= UpdateKey(parseDate, x)
  {
    selected := TakeLargest(updates, (u: CommitUpdate) => UpdateKey(parseDate, u), ShownCap);
  }

  /** The `forEach` over the kept updates: one entry per update, in order. */
  method Entries(selected: seq<CommitUpdate>, parseDate: Value -> Option<int>, format: int -> string) returns (entries: seq<Entry>)
    ensures |entries| == |selected|
    ensures forall i :: 0 <= i < |selected| ==> entries[i] == EntryOf(selected[i], parseDate, format)
  {
    entries := [];
    for i := 0 to |selected|
      invariant |entries| == i
      invariant forall k :: 0 <= k < i ==> entries[k] == EntryOf(selected[k], parseDate, format)
    {
      entries := entries + [EntryOf(selected[i], parseDate, format)];
    }
  }

  /**
    What `updateList` shows: None when it keeps the list it found, otherwise
    the entries of `selected`, which are at most six of the updates, newest
    first and the six newest whenever every date is valid.
   */
  method Select(page: JsonResponse, respond: nat -> JsonResponse,
                parseDate: Value -> Option<int>, format: int -> string)
    returns (shown: Option<seq<Entry>>, selected: seq<CommitUpdate>)
    ensures shown.None? <==> Updates(page, respond).None?
    ensures shown.None? ==> selected == []
    ensures shown.Some? ==>
      |shown.value| == |selected| &&
      forall i :: 0 <= i < |selected| ==> shown.value[i] == EntryOf(selected[i], parseDate, format)
    ensures Updates(page, respond).Some? ==>
      var updates := Updates(page, respond).value;
      |selected| == Min(ShownCap, |updates|) &&
      multiset(selected) <= multiset(updates) &&
      (AllDatesParse(updates, parseDate) ==>
        (forall i, j :: 0 <= i < j < |selected| ==> UpdateKey(parseDate, selected[i]) >= UpdateKey(parseDate, selected[j])) &&
        forall x, y :: x in selected && y in multiset(updates) - multiset(selected) ==> UpdateKey(parseDate, y) <= UpdateKey(parseDate, x))
  {
    var found := Updates(page, respond);
    if found.None? {
      return None, [];
    }
    selected := Newest(found.value, parseDate);
    var entries := Entries(selected, parseDate, format);
    shown := Some(entries);
  }

  /** The page's `[data-updates]` element, as the sequence of entries it lists. */
  class UpdatesElement {
    var entries: seq<Entry>

    constructor(fallback: seq<Entry>)
      ensures entries == fallback
    {
      entries := fallback;
    }

    /**
      `updateList()` run against this element: it keeps its fallback entries
      unless there is something to show, and then lists one entry for each
      of the updates in `selected`, in order: at most six of them, newest
      first, and the six newest whenever every date is valid.
     */
    method UpdateList(page: JsonResponse, respond: nat -> JsonResponse,
                      parseDate: Value -> Option<int>, format: int -> string)
      returns (selected: seq<CommitUpdate>)
      modifies this
      ensures Updates(page, respond).None? ==> entries == old(entries) && selected == []
      ensures Updates(page, respond).Some? ==>
        var updates := Updates(page, respond).value;
        0 < |entries| == |selected| == Min(ShownCap, |updates|) &&
        (forall i :: 0 <= i < |selected| ==> entries[i] == EntryOf(selected[i], parseDate, format)) &&
        multiset(selected) <= multiset(updates) &&
        (AllDatesParse(updates, parseDate) ==>
          (forall i, j :: 0 <= i < j < |selected| ==> UpdateKey(parseDate, selected[i]) >= UpdateKey(parseDate, selected[j])) &&
          forall x, y :: x in selected && y in multiset(updates) - multiset(selected) ==> UpdateKey(parseDate, y) <= UpdateKey(parseDate, x))
    {
      var shown;
      shown, selected := Select(page, respond, parseDate, format);
      if shown.Some? {
        entries := shown.value;
      }
    }
  }
}
