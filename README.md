# Recent-activity feed pipeline, in Dafny

This project models the two scripts that maintain the "recent updates" list
of a personal site.

- `scripts/build-updates.mjs` is the aggregator. For every configured source
  it fetches a feed, reads it as JSON or as RSS/Atom XML, and normalises each
  entry into a `{source, title, date, url}` record. It keeps the first three
  records of each source. It then drops the undated ones, sorts the rest
  newest first, and keeps ten.
- `scripts/updates.js` is the page script. For every project it asks the
  GitHub API for the latest commit, cleans each commit message, and replaces
  the page's list with links to the six newest.

The modules follow the scripts:

| module | file | models |
|---|---|---|
| `Js` | `js.dfy` | JavaScript values, truthiness, `a \|\| b`, property access, `slice(0, n)` |
| `Text` | `text.dfy` | `\s`, case-insensitive search, `trim`, `split("\n")[0]`, `replace(/\s+/g, " ")` |
| `Records` | `records.dfy` | source descriptors and normalised records |
| `XmlFeed` | `xml_feed.dfy` | `extractTag`, `extractLink`, `parseXmlFeed` |
| `JsonFeed` | `json_feed.dfy` | `normalizeJsonItems`, `fetchSourceUpdates` |
| `Sorting` | `sorting.dfy` | the in-place descending sort both scripts use |
| `Aggregator` | `aggregator.dfy` | the pool, filter, sort and slice of `main` |
| `Commits` | `commits.dfy` | `cleanMessage`, `fetchLatestCommit` |
| `UpdateList` | `update_list.dfy` | `updateList`, `formatDate` |

A few parts of the environment are parameters, because the model cannot see
them:

- A `FeedResponse` or `JsonResponse` value stands for what a `fetch` returned.
  It is either a network failure or a status together with the body.
- The commit request made for each project is a function
  `respond: nat -> JsonResponse` of the project's index in the list, so two
  equal projects make two requests that may be answered differently.
- `parseJson: string -> Option<Value>` stands for `JSON.parse`. None means it
  threw.
- `parseDate: Value -> Option<int>` stands for `new Date(x)`. None means an
  invalid date.
- `format: int -> string` stands for the `Intl.DateTimeFormat` month-and-year
  formatter.

Each regular expression becomes an explicit search over `seq<char>`. The
search finds the leftmost position where the pattern matches. The greedy
and lazy parts of the pattern become "first" or "last" index searches.
Sorting uses an integer key: the parsed time, or 0 for an invalid date. The
order of the sorted output is stated only when every date parses (see
"Left out").

## Model

| member | source | states |
|---|---|---|
| `Js.Truthy` | scripts/build-updates.mjs:38-44 | JavaScript truthiness: `undefined`, `null`, `false`, `0` and `""` are falsy, everything else JSON can hold is truthy |
| `Js.Prop` | scripts/build-updates.mjs:58-63 | `v.key` reads an own field of an object and is `undefined` otherwise; it is only defined where `v` is neither null nor undefined, the case in which JavaScript throws |
| `Js.FirstTruthy` | scripts/build-updates.mjs:38-44 | `a \|\| b \|\| … \|\| last` gives the first truthy operand, or `last` (even if falsy) when none is truthy |
| `Js.Take` | scripts/build-updates.mjs:102 | `slice(0, n)` keeps a prefix of length `min(n, length)` |
| `Text.IsSpace` | scripts/build-updates.mjs:20 | the whitespace of `\s` and `trim()`: the ECMAScript WhiteSpace and LineTerminator characters; `Text.Trim` and `Text.CollapseSpaces` state what follows from it |
| `Text.Lower` | scripts/build-updates.mjs:18 | the case folding of the `i` flag, on ASCII letters; `Text.MatchesAtIgnoresCase` states what follows from it |
| `Text.SameIgnoringCase` | scripts/build-updates.mjs:18 | two patterns that differ only in letter case; `Text.SameIgnoringCaseFramed` and `Text.MatchesAtIgnoresCase` state how it is used |
| `Text.SameIgnoringCaseFramed` | scripts/build-updates.mjs:18 | putting the same text around two patterns that differ only in case keeps them so |
| `Text.MatchesAt` | scripts/build-updates.mjs:18 | a pattern occurs at an index under the `i` flag; `Text.MatchesAtIgnoresCase` and `Text.FindIgnoringCase` state what follows from it |
| `Text.MatchesAtIgnoresCase` | scripts/build-updates.mjs:18 | patterns that differ only in letter case match at the same places |
| `Text.Trim` | scripts/build-updates.mjs:20 | `trim()` leaves a contiguous slice with only whitespace dropped at either end; it has no whitespace at either edge, and it is empty exactly when the input is all whitespace |
| `Text.NonSpaceTrim` | scripts/updates.js:23 | `trim()` drops only whitespace: every other character stays, in order |
| `Text.FirstLine` | scripts/updates.js:23 | `split("\n")[0]` is a prefix with no line feed, and is followed by a line feed whenever it is shorter than the input |
| `Text.CollapseSpaces` | scripts/updates.js:24 | `replace(/\s+/g, " ")` is empty only for empty input, and begins and ends with whitespace exactly when the input does |
| `Text.CollapseSpacesSeparates` | scripts/updates.js:24 | after collapsing, the only whitespace is `' '` and no two whitespace characters are adjacent |
| `Text.CollapseSpacesKeepsText` | scripts/updates.js:24 | collapsing keeps every non-whitespace character, in order |
| `Text.CollapseSpacesAppend` | scripts/updates.js:24 | collapsing works run by run: it distributes over a concatenation that does not split a whitespace run |
| `Text.CollapseSpacesOfRun` | scripts/updates.js:24 | a whole run of whitespace, of any length and kind, becomes exactly one space |
| `Text.CollapseSpacesOfText` | scripts/updates.js:24 | text without whitespace is left unchanged |
| `Text.CollapseSpacesBetweenWords` | scripts/updates.js:24 | two words separated by any whitespace run come out separated by exactly one space |
| `Text.FindIgnoringCase` | scripts/updates.js:8 | the leftmost case-insensitive occurrence at or after `from`, or None when there is none at or after `from` |
| `Text.ContainsIgnoringCase` | scripts/updates.js:8 | `/pat/i.test(s)`; stated by `Text.ContainsIgnoringCaseMeans` |
| `Text.ContainsIgnoringCaseMeans` | scripts/updates.js:8 | `/pat/i.test(s)` holds exactly when `pat` occurs somewhere in `s`, regardless of case |
| `XmlFeed.TagContentAt` | scripts/build-updates.mjs:18 | a match of `<tag[^>]*>([\s\S]*?)</tag>` can only start inside the block; `XmlFeed.TagContentAtMeans` gives its whole shape |
| `XmlFeed.Delimited` | scripts/build-updates.mjs:18 | the capture of an opening pattern, its `>` and a closing pattern at `p`; it can only start inside the text, and `XmlFeed.DelimitedMeans` gives its whole shape |
| `XmlFeed.TagSpan` | scripts/build-updates.mjs:18 | the shape of a tag match: opening pattern at `p`, the first `>` after it at `g`, the first closing pattern after that at `e`; used by `XmlFeed.DelimitedMeans` |
| `XmlFeed.DelimitedMeans` | scripts/build-updates.mjs:18 | a match at `p` exists exactly when the opening pattern is at `p`, a `>` follows, and a closing tag follows that; the capture runs from the first such `>` to the first closing tag after it |
| `XmlFeed.TagContentAtMeans` | scripts/build-updates.mjs:18 | the same for `<tag` and `</tag>`, compared without regard to case |
| `XmlFeed.ExtractTag` | scripts/build-updates.mjs:17-21 | the trimmed capture of the leftmost match, or "" when there is none; stated by `XmlFeed.ExtractTagWithoutMatch` and `XmlFeed.ExtractTagFindsLeftmost` |
| `XmlFeed.ExtractTagWithoutMatch` | scripts/build-updates.mjs:17-21 | with no `<tag …>…</tag>` pair, `extractTag` gives "" |
| `XmlFeed.ExtractTagFindsLeftmost` | scripts/build-updates.mjs:17-21 | otherwise it gives the trimmed content of the leftmost match, which ends at the first closing tag |
| `XmlFeed.ExtractTagIgnoresCase` | scripts/build-updates.mjs:18 | two tag names that differ only in letter case extract the same content |
| `XmlFeed.HrefAt` | scripts/build-updates.mjs:24 | a captured `href` value is non-empty and contains no quote |
| `XmlFeed.HrefSpan` | scripts/build-updates.mjs:24 | the shape of an `href` match; used by `XmlFeed.HrefAtMeans` |
| `XmlFeed.HrefAtMeans` | scripts/build-updates.mjs:24 | `href=["']([^"']+)["'][^>]*>` matches at `h` exactly when a quote follows `href=`, another quote comes later with text between, and a `>` comes after that; the capture is the text up to the first quote after the opening one |
| `XmlFeed.LinkHrefAt` | scripts/build-updates.mjs:24 | a `<link … href=…>` match starts inside the block and captures a non-empty value; `XmlFeed.LinkHrefAtMeans` gives its whole shape |
| `XmlFeed.LinkCandidate` | scripts/build-updates.mjs:24 | an `href` match that `<link[^>]*` at `p` can reach; used by `XmlFeed.LinkHrefAtMeans` |
| `XmlFeed.LinkCandidateReach` | scripts/build-updates.mjs:24 | the `href` matches that `<link[^>]*` can reach are exactly those before the first `>` after `<link` |
| `XmlFeed.LastHref` | scripts/build-updates.mjs:24 | the greatest position in a range at which the `href` part matches, or None when it matches nowhere in the range |
| `XmlFeed.LastLinkCandidate` | scripts/build-updates.mjs:24 | when `h` is the last `href` match reachable from `<link` at `p`, its value is the one captured |
| `XmlFeed.LinkHrefAtMeans` | scripts/build-updates.mjs:24 | `<link` at `p` matches exactly when some `href` match is reachable from it, and the value captured is that of the last reachable one, as the greedy `[^>]*` gives back characters from the right |
| `XmlFeed.ExtractLink` | scripts/build-updates.mjs:23-29 | the trimmed `href` of the leftmost `<link … href=…>` match, else `extractTag(block, "link")`; stated by `XmlFeed.ExtractLinkPrefersHref` and `XmlFeed.ExtractLinkFallsBackToContent` |
| `XmlFeed.ExtractLinkPrefersHref` | scripts/build-updates.mjs:23-27 | when some `<link>` tag carries an `href`, the leftmost such tag's value, trimmed, is the link |
| `XmlFeed.ExtractLinkFallsBackToContent` | scripts/build-updates.mjs:28 | only when no `<link>` tag carries an `href` is the link the `<link>…</link>` content (or "") |
| `XmlFeed.BlockEndAt` | scripts/build-updates.mjs:33-34 | a block match is a whole `<name>…</name>` slice of the feed |
| `XmlFeed.BlockSpan` | scripts/build-updates.mjs:33-34 | the shape of a block match: `<name>` at `p` and the first `</name>` after it at `e`; used by `XmlFeed.BlockEndAtMeans` |
| `XmlFeed.BlockEndAtMeans` | scripts/build-updates.mjs:33-34 | a block matches at `p` exactly when `<name>` is there and some `</name>` follows; the block ends just after the first such closing tag |
| `XmlFeed.Blocks` | scripts/build-updates.mjs:33-34 | the global match is empty exactly when no block starts anywhere, and each element is a whole block |
| `XmlFeed.BlocksStep` | scripts/build-updates.mjs:33-34 | the global match yields the block at the leftmost position where one matches, then resumes where that block ends |
| `XmlFeed.FeedBlocks` | scripts/build-updates.mjs:33-35 | the `<item>` blocks when at least one exists, otherwise the `<entry>` blocks, and never a mix of the two |
| `XmlFeed.RecordOf` | scripts/build-updates.mjs:38-51 | `source` is the source's name; the title is the extracted title or "Update"; the date is the first non-empty of `pubDate`, `updated` and `dc:date`, else ""; the url is the link or the source's `site` |
| `XmlFeed.BlockRecord` | scripts/build-updates.mjs:38-51 | the record of one block: `RecordOf` applied to the extracted title, the three dates and the link |
| `XmlFeed.BlockRecords` | scripts/build-updates.mjs:37-52 | one record per block, in block order |
| `XmlFeed.XmlRecords` | scripts/build-updates.mjs:31-55 | the records of the chosen blocks; stated by `XmlFeed.XmlRecordsShape` and `XmlFeed.ParseXmlFeed` |
| `XmlFeed.ParseXmlFeed` | scripts/build-updates.mjs:31-55 | the loop pushes one record per chosen block, in document order |
| `XmlFeed.XmlRecordsShape` | scripts/build-updates.mjs:31-55 | one record per chosen block, each naming the source and carrying a non-empty string title and a string date |
| `JsonFeed.RawItems` | scripts/build-updates.mjs:58 | the list is the array itself, else `data.items`, else `data.entries`, else empty; it is None when that throws or the chosen value is not an array |
| `JsonFeed.JsonRecord` | scripts/build-updates.mjs:59-64 | each field is its first truthy candidate, ending with the source's name, "Update", "" and the source's `site`; the title is always truthy |
| `JsonFeed.JsonRecords` | scripts/build-updates.mjs:59-64 | the `map` succeeds exactly when no element is null or undefined, and then gives one record per element, in order |
| `JsonFeed.NormalizeJsonItems` | scripts/build-updates.mjs:57-65 | the output is as long as the chosen list, and each record is that of the element at the same index |
| `JsonFeed.JsonDefaults` | scripts/build-updates.mjs:61-62 | an item without `title` or `summary` is titled "Update"; one without any date field has date "" |
| `JsonFeed.FetchSourceUpdates` | scripts/build-updates.mjs:67-94 | no feed, an unreachable feed or a non-OK status gives `[]` |
| `JsonFeed.FetchedTitlesTruthy` | scripts/build-updates.mjs:38-61 | every record a source yields, on either path, has a truthy title |
| `JsonFeed.LooksLikeJson` | scripts/build-updates.mjs:83-88 | the trimmed body starts with `{` or `[`; `JsonFeed.FetchDispatchesOnFirstCharacter` states the dispatch it decides |
| `JsonFeed.FetchDispatchesOnFirstCharacter` | scripts/build-updates.mjs:80-93 | a trimmed body that starts with `{` or `[` goes to the JSON normaliser, and a parse failure there gives `[]`; any other body goes to `parseXmlFeed` |
| `Sorting.SortDescending` | scripts/build-updates.mjs:106 | after the in-place sort the array is non-increasing by key and is a permutation of what it held |
| `Sorting.PrefixHoldsLargest` | scripts/build-updates.mjs:110 | a prefix of a sorted sequence is sorted, is drawn from it, and holds keys no smaller than any element left out |
| `Sorting.TakeLargest` | scripts/build-updates.mjs:106-110 | sorting a copy and slicing gives `min(n, length)` elements, drawn without repetition, largest first, and none smaller than any element left out |
| `Aggregator.FetchAll` | scripts/build-updates.mjs:100-101 | one fetched list per source, in source order |
| `Aggregator.Pool` | scripts/build-updates.mjs:98-103 | `allItems` after the loop; stated by `Aggregator.PoolBound`, `Aggregator.PoolAppend` and `Aggregator.PoolSources` |
| `Aggregator.PoolBound` | scripts/build-updates.mjs:100-103 | the pool holds at most three items per source in total; the per-source cap itself is `Aggregator.PoolAppend` |
| `Aggregator.PoolAppend` | scripts/build-updates.mjs:100-103 | the pool is the concatenation of each source's first three items, in source order |
| `Aggregator.Dated` | scripts/build-updates.mjs:105 | the filter keeps every item with a truthy date, as often as it occurs, and no other item |
| `Aggregator.DatedAppend` | scripts/build-updates.mjs:105 | the filter keeps the order of the pool |
| `Aggregator.DatedKeepsDated` | scripts/build-updates.mjs:105 | a list whose dates are all truthy passes the filter unchanged |
| `Aggregator.FullSourcesFillPool` | scripts/build-updates.mjs:100-105 | when every source gives at least three items and its first three are dated, the filtered pool holds exactly three per source |
| `Aggregator.PoolSources` | scripts/build-updates.mjs:98-103 | the loop over the sources builds exactly the pool of their fetched lists |
| `Aggregator.DateKey` | scripts/build-updates.mjs:106 | `new Date(item.date)` as a sort key, 0 for an invalid date; `Aggregator.Rank` states the order it gives |
| `Aggregator.AllDatesParse` | scripts/build-updates.mjs:106 | every item's date is a valid date, the condition under which `Aggregator.Rank` states the order |
| `Aggregator.Rank` | scripts/build-updates.mjs:105-110 | it keeps `min(10, dated)` items, all dated, drawn as a sub-multiset of the dated ones; when every date parses they are newest first and are the ten latest |
| `Aggregator.BuildUpdates` | scripts/build-updates.mjs:96-111 | the written `items` of the snapshot: the ranking of the pool of every source's fetch |
| `Commits.CleanLine` | scripts/updates.js:23-24 | the first line, trimmed, each whitespace run made one space; stated by `Commits.CleanLineIsClean` |
| `Commits.CleanLineIsClean` | scripts/updates.js:23-24 | the cleaned line has no line feed, no whitespace at either end and no two adjacent whitespace characters; it keeps the first line's other characters in order, and is empty exactly when that line is blank |
| `Commits.CleanMessage` | scripts/updates.js:21-25 | a falsy message gives "Update"; a non-empty string gives its cleaned first line; a truthy non-string makes `split` throw |
| `Commits.BlankFirstLineGivesEmpty` | scripts/updates.js:22-24 | a non-empty message whose first line is blank gives "", not "Update" |
| `Commits.FetchLatestCommit` | scripts/updates.js:27-53 | the result is null, whatever the network answers, unless the guard passes; an unreachable API rejects; a non-OK status gives null; an OK response whose body is not JSON rejects; a record takes its name and url from the project |
| `Commits.IsPlaceholderRepo` | scripts/updates.js:8 | the placeholder pattern matches a string `repo`; its meaning is stated by `Text.ContainsIgnoringCaseMeans` |
| `Commits.ShouldQuery` | scripts/updates.js:28 | the guard `project && project.repo && !PLACEHOLDER.test(project.repo)`; `Commits.FetchLatestCommit` gives null whenever it fails |
| `Commits.FirstElement` | scripts/updates.js:42 | `commits[0]`: the first element of an array, the `"0"` field of an object, the first character of a string, else `undefined` |
| `Commits.Latest` | scripts/updates.js:42 | `commits && commits[0]`; `Commits.NoCommitGivesNull` and `Commits.LatestCommitRecord` state what follows from it |
| `Commits.OptionalDate` | scripts/updates.js:50 | `v?.date`: `undefined` for null or undefined `v`, otherwise its `date` |
| `Commits.PlaceholderRepoSkipped` | scripts/updates.js:8 | a `repo` containing `YOUR-GITHUB-ORG`, `YOUR-USERNAME` or `YOUR-REPO`, in any letter case, gives null without a request |
| `Commits.LatestCommitRecord` | scripts/updates.js:41-52 | for any payload whose `latest.commit` is truthy: the promise rejects exactly when `cleanMessage` throws; otherwise the record takes name and url from the project, the author date when truthy or else the committer date, and `cleanMessage` of the message |
| `Commits.MissingMessageIsUpdate` | scripts/updates.js:22-51 | a commit without a message is still recorded, with the message "Update" |
| `Commits.NoCommitGivesNull` | scripts/updates.js:42-45 | whatever the payload, when `!latest \|\| !latest.commit` holds the result is null |
| `UpdateList.Projects` | scripts/updates.js:62 | `data.projects` when it is an array, otherwise `[]`; None when `data` is null |
| `UpdateList.Outcomes` | scripts/updates.js:63 | one `fetchLatestCommit` outcome per project, in project order |
| `UpdateList.Kept` | scripts/updates.js:63 | `.filter(Boolean)` keeps every record, as often as it occurs, and drops the nulls |
| `UpdateList.KeptAppend` | scripts/updates.js:63 | the filter keeps project order |
| `UpdateList.Updates` | scripts/updates.js:55-67 | an unreachable, non-OK or unparsable project list, or a body of `null`, leaves nothing to show; anything to show is non-empty |
| `UpdateList.AnyRejected` | scripts/updates.js:63 | some commit request rejected, which makes `Promise.all` reject; `UpdateList.OneFailureKeepsList` and `UpdateList.UpdatesAreAnswers` state its effect |
| `UpdateList.OneFailureKeepsList` | scripts/updates.js:63 | a single rejected commit request rejects `Promise.all`, so nothing is shown |
| `UpdateList.UpdatesAreAnswers` | scripts/updates.js:63-67 | without a rejection, what is shown comes from the non-null records, and nothing is shown when there are none |
| `UpdateList.FormatDate` | scripts/updates.js:10-19 | "Recent" for an invalid date, otherwise the formatter's text for its time |
| `UpdateList.EntryOf` | scripts/updates.js:75-76 | the link goes to the item's url, or to "/" when that is falsy; its text is made from the formatted date, the name and the message |
| `UpdateList.UpdateKey` | scripts/updates.js:69 | `new Date(item.date)` as a sort key, 0 for an invalid date; `UpdateList.Newest` states the order it gives |
| `UpdateList.AllDatesParse` | scripts/updates.js:69 | every update's date is a valid date, the condition under which `UpdateList.Newest` states the order |
| `UpdateList.Newest` | scripts/updates.js:69-72 | it keeps `min(6, n)` of the updates as a sub-multiset; when every date parses they are newest first and are the six latest |
| `UpdateList.Entries` | scripts/updates.js:72-79 | one entry per kept update, in order |
| `UpdateList.Select` | scripts/updates.js:55-83 | nothing is shown exactly when the function returns early or throws; otherwise the entries of the six newest updates, one per update, in order |
| `UpdateList.UpdatesElement.UpdateList` | scripts/updates.js:55-83 | the list keeps its fallback entries when nothing is shown; otherwise it holds one entry per returned update, in order, and those are `min(6, n)` of the updates, newest first and the six newest when every date is valid |

## Left out

- File I/O, `console.log` and the JSON pretty-printing of the snapshot (`fs.readFile`, `fs.writeFile`) are not modelled. Neither is `generated_at`, which reads the clock.
- `fetch`, its headers, `response.text()` and `response.json()` are not modelled. Their outcomes are the `FeedResponse` and `JsonResponse` parameters.
- `JSON.parse`, `new Date` and `Intl.DateTimeFormat` are not modelled. They are the parameters `parseJson`, `parseDate` and `format`.
- Sort order for invalid dates: the source's comparator gives NaN there, so the engine decides the order. `Aggregator.Rank`, `Aggregator.BuildUpdates` and `UpdateList.Newest` state ordering and "the latest" only when every date parses. Stability is never relied on.
- Concurrency is not modelled. `await` inside the source loop and `Promise.all` are taken as sequential evaluation, in list order.
- The DOM is not modelled beyond the list's entries. `UpdateList.UpdatesElement` holds the entries as values. Element creation, `innerHTML`, the link text template and `DOMContentLoaded` are left out.
- `scripts/profile-stats.js` is not part of this model. It only fetches a document and writes two DOM fields.
- Inherited properties are not modelled. `Js.Prop` reads own fields only, so `item.link` on a string is `undefined`, whereas JavaScript returns `String.prototype.link`.
- `Commits.IsPlaceholderRepo` tests only a string `repo`. A non-string `repo` never counts as a placeholder, whereas JavaScript would test its string conversion.
- Case-insensitive matching folds ASCII letters only. Every pattern matched this way is ASCII, and the `i` flag never maps a non-ASCII character onto an ASCII one.
- Strings are sequences of code points rather than UTF-16 code units. This makes a difference only for `FirstElement` on a string beyond the Basic Multilingual Plane.
- The regular expressions at scripts/build-updates.mjs:33-34 are written with doubled backslashes. As written, the `/` after `<\\` ends each literal, and the `item` after it would be its flags, which is not a valid set of flags. That is an early SyntaxError: the script as written fails to parse and never runs. The model follows the evident intent: a case-insensitive, non-greedy `<item>…</item>` (or `<entry>…</entry>`) match whose opening tag has no attributes.
- In `extractLink` the greedy `[^>]*` runs to the first `>` after `<link`. The `href` captured is therefore the last one that completes the pattern before that `>`, not the first; `XmlFeed.LinkHrefAt` models it this way.
- A `null` or `undefined` entry in `sources` is not modelled: `Records.Source` is always a record. In the source, `fetchSourceUpdates` reads `source.feed` before its `try` (scripts/build-updates.mjs:68), so such an entry makes `main` reject and nothing is written.
- The aggregator has no commit-log fallback and no `repo` field. Sources are read only through their `feed`, exactly as scripts/build-updates.mjs does.
