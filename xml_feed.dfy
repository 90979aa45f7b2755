/**
  The XML side of the aggregator (`extractTag`, `extractLink`, `parseXmlFeed`):
  each regular expression is modelled as the leftmost position at which its
  pattern matches, with the pattern's greedy and lazy parts resolved by the
  searches they amount to.
 */
module XmlFeed {
  import opened Wrappers
  import opened Js
  import opened Text
  import opened Records

  /**
    The capture of `<tag[^>]*>([\s\S]*?)</tag>` (flag `i`) when the match starts
    at `p`: the opening tag runs to the first `>` after `<tag`, and the content
    stops at the first `</tag>` after that.
   */
  function TagContentAt(s: string, tag: string, p: nat): (r: Option<string>)
    ensures r.Some? ==> p < |s|
  {
    Delimited(s, "<" + tag, "</" + tag + ">", p)
  }

  /** The text between the `>` that ends an `open` tag at `p` and the next `close`, ignoring case. */
  function Delimited(s: string, open: string, close: string, p: nat): (r: Option<string>)
    ensures r.Some? ==> p < |s|
  {
    if MatchesAt(s, p, open) then
      match IndexOf(s, '>', p + |open|)
      case None => None
      case Some(g) =>
        match FindIgnoringCase(s, close, g + 1)
        case None => None
        case Some(e) => Some(s[g + 1..e])
    else None
  }

  /**
    The shape of a match of `open[^>]*>([\s\S]*?)close` at `p`: `g` is the
    first `>` after `open`, and `e` the first `close` after that `>`.
   */
  predicate TagSpan(s: string, open: string, close: string, p: nat, g: nat, e: nat) {
    MatchesAt(s, p, open)
    && p + |open| <= g < |s| && s[g] == '>' && (forall k :: p + |open| <= k < g ==> s[k] != '>')
    && g < e && MatchesAt(s, e, close) && (forall k :: g + 1 <= k < e ==> !MatchesAt(s, k, close))
  }

  /** There is a match at `p` exactly when the shape is there, and its capture is the text between `>` and `close`. */
  lemma DelimitedMeans(s: string, open: string, close: string, p: nat)
    ensures Delimited(s, open, close, p).Some? <==> exists g: nat, e: nat :: TagSpan(s, open, close, p, g, e)
    ensures forall g: nat, e: nat :: TagSpan(s, open, close, p, g, e) ==> Delimited(s, open, close, p) == Some(s[g + 1..e])
  {
    forall g: nat, e: nat | TagSpan(s, open, close, p, g, e)
      ensures Delimited(s, open, close, p) == Some(s[g + 1..e])
    {
      var g' := IndexOf(s, '>', p + |open|);
      assert g'.Some? && !(g'.value < g) && !(g < g'.value);
      var e' := FindIgnoringCase(s, close, g + 1);
      assert e'.Some? && !(e'.value < e) && !(e < e'.value);
    }
    if Delimited(s, open, close, p).Some? {
      var g := IndexOf(s, '>', p + |open|).value;
      var e := FindIgnoringCase(s, close, g + 1).value;
      assert TagSpan(s, open, close, p, g, e);
    }
  }

  /** `tag` instantiates the shape: the capture runs from the `>` of `<tag…>` to the first `</tag>`, ignoring case. */
  lemma TagContentAtMeans(s: string, tag: string, p: nat)
    ensures TagContentAt(s, tag, p).Some? <==> exists g: nat, e: nat :: TagSpan(s, "<" + tag, "</" + tag + ">", p, g, e)
    ensures forall g: nat, e: nat :: TagSpan(s, "<" + tag, "</" + tag + ">", p, g, e) ==> TagContentAt(s, tag, p) == Some(s[g + 1..e])
  {
    DelimitedMeans(s, "<" + tag, "</" + tag + ">", p);
  }

  lemma DelimitedIgnoresCase(s: string, open1: string, open2: string, close1: string, close2: string, p: nat)
    requires SameIgnoringCase(open1, open2) && SameIgnoringCase(close1, close2)
    ensures Delimited(s, open1, close1, p) == Delimited(s, open2, close2, p)
  {
    MatchesAtIgnoresCase(s, p, open1, open2);
    if MatchesAt(s, p, open1) {
      var g := IndexOf(s, '>', p + |open1|);
      if g.Some? {
        FindIgnoringCaseAgrees(s, close1, close2, g.value + 1);
      }
    }
  }

  /** `p` is where the leftmost match of the tag pattern starts. */
  predicate LeftmostTagAt(block: string, tag: string, p: nat) {
    TagContentAt(block, tag, p).Some? && forall q: nat :: q < p ==> TagContentAt(block, tag, q).None?
  }

  /** `extractTag(block, tag)`. */
  function ExtractTag(block: string, tag: string): string
  {
    match FirstIndex(0, |block|, (p: nat) => TagContentAt(block, tag, p).Some?)
    case None => ""
    case Some(p) => Trim(TagContentAt(block, tag, p).value)
  }

  /** Without a `<tag …>…</tag>` pair, `extractTag` gives "". */
  lemma ExtractTagWithoutMatch(block: string, tag: string)
    requires forall p: nat :: TagContentAt(block, tag, p).None?
    ensures ExtractTag(block, tag) == ""
  {
  }

  /** Otherwise it gives the content of the leftmost match, trimmed. */
  lemma ExtractTagFindsLeftmost(block: string, tag: string, p: nat)
    requires LeftmostTagAt(block, tag, p)
    ensures ExtractTag(block, tag) == Trim(TagContentAt(block, tag, p).value)
  {
    FirstIndexIsLeast(0, |block|, (p: nat) => TagContentAt(block, tag, p).Some?, p);
  }

  lemma TagContentAtIgnoresCase(block: string, tag1: string, tag2: string, p: nat)
    requires SameIgnoringCase(tag1, tag2)
    ensures TagContentAt(block, tag1, p) == TagContentAt(block, tag2, p)
  {
    SameIgnoringCaseFramed("<", tag1, tag2, "");
    SameIgnoringCaseFramed("</", tag1, tag2, ">");
    DelimitedIgnoresCase(block, "<" + tag1, "<" + tag2, "</" + tag1 + ">", "</" + tag2 + ">", p);
  }

  /** Tag names are compared without regard to case: `pubDate` finds `<PUBDATE>…</pubdate>`. */
  lemma ExtractTagIgnoresCase(block: string, tag1: string, tag2: string)
    requires SameIgnoringCase(tag1, tag2)
    ensures ExtractTag(block, tag1) == ExtractTag(block, tag2)
  {
    forall p: nat
      ensures TagContentAt(block, tag1, p) == TagContentAt(block, tag2, p)
    {
      TagContentAtIgnoresCase(block, tag1, tag2, p);
    }
    FirstIndexAgrees(0, |block|,
      (p: nat) => TagContentAt(block, tag1, p).Some?,
      (p: nat) => TagContentAt(block, tag2, p).Some?);
  }

  predicate IsQuote(c: char) {
    c == '"' || c == '\''
  }

  /**
    The capture of `href=["']([^"']+)["'][^>]*>` (flag `i`) when `href=` starts
    at `h`: a quote, then a non-empty run up to the next quote (of either kind),
    then some `>` further on.
   */
  function HrefAt(s: string, h: nat): (r: Option<string>)
    ensures r.Some? ==> |r.value| > 0 && forall k :: 0 <= k < |r.value| ==> !IsQuote(r.value[k])
  {
    if MatchesAt(s, h, "href=") && h + 5 < |s| && IsQuote(s[h + 5]) then
      var quote := (k: nat) => k < |s| && IsQuote(s[k]);
      var close := FirstIndex(h + 6, |s|, quote);
      match close
      case None => None
      case Some(q) =>
        assert forall k :: h + 6 <= k < q ==> !IsQuote(s[k]) by {
          forall k | h + 6 <= k < q ensures !IsQuote(s[k]) {
            assert !quote(k);
          }
        }
        if q > h + 6 && IndexOf(s, '>', q + 1).Some? then Some(s[h + 6..q]) else None
    else None
  }

  /**
    The shape of a match of the `href` part at `h`: the opening quote at
    `h + 5`, the first quote after it at `q` with at least one character
    between, and a `>` somewhere after `q`.
   */
  predicate HrefSpan(s: string, h: nat, q: nat) {
    MatchesAt(s, h, "href=") && h + 5 < |s| && IsQuote(s[h + 5])
    && h + 6 < q < |s| && IsQuote(s[q]) && (forall k :: h + 6 <= k < q ==> !IsQuote(s[k]))
    && '>' in s[q + 1..]
  }

  /** There is an `href` match at `h` exactly when the shape is there, and it captures the quoted text. */
  lemma HrefAtMeans(s: string, h: nat)
    ensures HrefAt(s, h).Some? <==> exists q: nat :: HrefSpan(s, h, q)
    ensures forall q: nat :: HrefSpan(s, h, q) ==> HrefAt(s, h) == Some(s[h + 6..q])
  {
    var quote := (k: nat) => k < |s| && IsQuote(s[k]);
    forall q: nat | HrefSpan(s, h, q)
      ensures HrefAt(s, h) == Some(s[h + 6..q])
    {
      var q' := FirstIndex(h + 6, |s|, quote);
      assert quote(q);
      assert q'.Some? && !(q'.value < q) && !(q < q'.value);
      assert IndexOf(s, '>', q + 1).Some? by {
        var j :| j in s[q + 1..] && j == '>';
        var i :| 0 <= i < |s[q + 1..]| && s[q + 1..][i] == '>';
        assert s[q + 1 + i] == '>';
      }
    }
    if HrefAt(s, h).Some? {
      var q := FirstIndex(h + 6, |s|, quote).value;
      var g := IndexOf(s, '>', q + 1).value;
      assert s[q + 1..][g - q - 1] == '>';
      assert HrefSpan(s, h, q);
    }
  }

  /** The greatest `h` in `[lo, hi)` at which the `href` part matches. */
  function LastHref(s: string, lo: nat, hi: nat): (r: Option<nat>)
    decreases hi - lo
    ensures r.Some? ==> lo <= r.value < hi && HrefAt(s, r.value).Some? && forall k :: r.value < k < hi ==> HrefAt(s, k).None?
    ensures r.None? ==> forall k :: lo <= k < hi ==> HrefAt(s, k).None?
  {
    if lo >= hi then None
    else if HrefAt(s, hi - 1).Some? then Some(hi - 1)
    else LastHref(s, lo, hi - 1)
  }

  /**
    The capture of `<link[^>]*href=["']([^"']+)["'][^>]*>` (flag `i`) when the
    match starts at `p`.  The greedy `[^>]*` cannot pass the first `>` after
    `<link` and gives back characters from the right, so the `href=` used is
    the last one before that `>` that completes the pattern.
   */
  function LinkHrefAt(s: string, p: nat): (r: Option<string>)
    ensures r.Some? ==> p < |s| && |r.value| > 0
  {
    if MatchesAt(s, p, "<link") then
      var end := match IndexOf(s, '>', p + 5) case Some(g) => g case None => |s|;
      match LastHref(s, p + 5, end + 1)
      case None => None
      case Some(h) => HrefAt(s, h)
    else None
  }

  /** An `href` match at `h` that the `[^>]*` after `<link` at `p` can reach. */
  predicate LinkCandidate(s: string, p: nat, h: nat) {
    p + 5 <= h < |s| && (forall k :: p + 5 <= k < h ==> s[k] != '>') && HrefAt(s, h).Some?
  }

  /** The `href` matches `[^>]*` can reach are those up to the first `>` after `<link`. */
  lemma LinkCandidateReach(s: string, p: nat, h: nat, end: nat)
    requires end == match IndexOf(s, '>', p + 5) case Some(g) => g case None => |s|
    ensures LinkCandidate(s, p, h) <==> p + 5 <= h < end + 1 && HrefAt(s, h).Some?
  {
    if HrefAt(s, h).Some? {
      assert h < |s| && s[h] != '>' by {
        assert MatchesAt(s, h, "href=");
        assert Lower(s[h + 0]) == Lower("href="[0]);
      }
    }
  }

  /**
    A `<link` at `p` matches exactly when some `href` is reachable from it,
    and the value captured is that of the last reachable one.
   */
  lemma LinkHrefAtMeans(s: string, p: nat)
    ensures LinkHrefAt(s, p).Some? <==> MatchesAt(s, p, "<link") && exists h: nat :: LinkCandidate(s, p, h)
    ensures forall h: nat ::
      (MatchesAt(s, p, "<link") && LinkCandidate(s, p, h) && (forall k: nat :: h < k ==> !LinkCandidate(s, p, k)))
      ==> LinkHrefAt(s, p) == HrefAt(s, h)
  {
    if MatchesAt(s, p, "<link") {
      var end := match IndexOf(s, '>', p + 5) case Some(g) => g case None => |s|;
      var last := LastHref(s, p + 5, end + 1);
      if last.Some? {
        LinkCandidateReach(s, p, last.value, end);
      }
      forall h: nat | LinkCandidate(s, p, h)
        ensures last.Some?
      {
        LinkCandidateReach(s, p, h, end);
      }
      forall h: nat | LinkCandidate(s, p, h) && (forall k: nat :: h < k ==> !LinkCandidate(s, p, k))
        ensures LinkHrefAt(s, p) == HrefAt(s, h)
      {
        LastLinkCandidate(s, p, h);
      }
    }
  }

  /** The last reachable `href` is the one whose value is captured. */
  lemma LastLinkCandidate(s: string, p: nat, h: nat)
    requires MatchesAt(s, p, "<link")
    requires LinkCandidate(s, p, h) && (forall k: nat :: h < k ==> !LinkCandidate(s, p, k))
    ensures LinkHrefAt(s, p) == HrefAt(s, h)
  {
    var end := match IndexOf(s, '>', p + 5) case Some(g) => g case None => |s|;
    var last := LastHref(s, p + 5, end + 1);
    LinkCandidateReach(s, p, h, end);
    assert last.Some? && h <= last.value;
    LinkCandidateReach(s, p, last.value, end);
    assert !(h < last.value);
  }

  /** `p` is where the leftmost match of the `<link … href=…>` pattern starts. */
  predicate LeftmostLinkHrefAt(block: string, p: nat) {
    LinkHrefAt(block, p).Some? && forall q: nat :: q < p ==> LinkHrefAt(block, q).None?
  }

  /** `extractLink(block)`. */
  function ExtractLink(block: string): string
  {
    match FirstIndex(0, |block|, (p: nat) => LinkHrefAt(block, p).Some?)
    case None => ExtractTag(block, "link")
    case Some(p) => Trim(LinkHrefAt(block, p).value)
  }

  /** Whenever some `<link>` tag carries an `href`, the leftmost one's value is the link, trimmed. */
  lemma ExtractLinkPrefersHref(block: string, p: nat)
    requires LeftmostLinkHrefAt(block, p)
    ensures ExtractLink(block) == Trim(LinkHrefAt(block, p).value)
  {
    FirstIndexIsLeast(0, |block|, (p: nat) => LinkHrefAt(block, p).Some?, p);
  }

  /** Only when none does, the link is the content of `<link>…</link>` (or ""). */
  lemma ExtractLinkFallsBackToContent(block: string)
    requires forall p: nat :: LinkHrefAt(block, p).None?
    ensures ExtractLink(block) == ExtractTag(block, "link")
  {
  }

  /** `b` is a whole `<name>…</name>` block, tags compared without regard to case. */
  predicate IsBlock(b: string, name: string) {
    |b| >= 2 * |name| + 5 && MatchesAt(b, 0, "<" + name + ">") && MatchesAt(b, |b| - |name| - 3, "</" + name + ">")
  }

  /**
    The end (exclusive) of the match of `<name>[\s\S]*?<\/name>` (flag `i`)
    that starts at `p`: the opening tag has no attributes, and the block stops
    at the first closing tag.
   */
  function BlockEndAt(s: string, name: string, p: nat): (r: Option<nat>)
    ensures r.Some? ==> p + 2 * |name| + 5 <= r.value <= |s|
    ensures r.Some? ==> IsBlock(s[p..r.value], name)
  {
    if MatchesAt(s, p, "<" + name + ">") then
      match FindIgnoringCase(s, "</" + name + ">", p + |name| + 2)
      case None => None
      case Some(e) =>
        SliceIsBlock(s, name, p, e);
        Some(e + |name| + 3)
    else None
  }

  /** The text from an opening tag to a closing tag that starts after it is a whole block. */
  lemma SliceIsBlock(s: string, name: string, p: nat, e: nat)
    requires MatchesAt(s, p, "<" + name + ">") && MatchesAt(s, e, "</" + name + ">")
    requires p + |name| + 2 <= e
    ensures IsBlock(s[p..e + |name| + 3], name)
  {
    var b := s[p..e + |name| + 3];
    assert MatchesAt(b, 0, "<" + name + ">") by {
      forall k | 0 <= k < |name| + 2 ensures b[k] == s[p + k] { }
    }
    assert MatchesAt(b, |b| - |name| - 3, "</" + name + ">") by {
      forall j | e <= j < e + |name| + 3 ensures b[j - p] == s[j] { }
    }
  }

  /** The shape of a block match at `p`: `<name>` there, and the first `</name>` after it at `e`. */
  predicate BlockSpan(s: string, name: string, p: nat, e: nat) {
    MatchesAt(s, p, "<" + name + ">") && p + |name| + 2 <= e && MatchesAt(s, e, "</" + name + ">")
    && forall k :: p + |name| + 2 <= k < e ==> !MatchesAt(s, k, "</" + name + ">")
  }

  /** A block matches at `p` exactly when the shape is there, and it ends just after that first closing tag. */
  lemma BlockEndAtMeans(s: string, name: string, p: nat)
    ensures BlockEndAt(s, name, p).Some? <==> exists e: nat :: BlockSpan(s, name, p, e)
    ensures forall e: nat :: BlockSpan(s, name, p, e) ==> BlockEndAt(s, name, p) == Some(e + |name| + 3)
  {
    var close := "</" + name + ">";
    forall e: nat | BlockSpan(s, name, p, e)
      ensures BlockEndAt(s, name, p) == Some(e + |name| + 3)
    {
      var e' := FindIgnoringCase(s, close, p + |name| + 2);
      assert e'.Some? && !(e'.value < e) && !(e < e'.value);
    }
    if BlockEndAt(s, name, p).Some? {
      assert BlockSpan(s, name, p, FindIgnoringCase(s, close, p + |name| + 2).value);
    }
  }

  /**
    The global match resumes where the previous block ended: from `from`, it
    is the block at the leftmost position where one matches, followed by the
    blocks from that block's end.
   */
  lemma BlocksStep(s: string, name: string, from: nat, p: nat)
    requires from <= p && BlockEndAt(s, name, p).Some?
    requires forall q: nat :: from <= q < p ==> BlockEndAt(s, name, q).None?
    ensures Blocks(s, name, from) == [s[p..BlockEndAt(s, name, p).value]] + Blocks(s, name, BlockEndAt(s, name, p).value)
  {
    FirstIndexIsLeast(from, |s|, (q: nat) => BlockEndAt(s, name, q).Some?, p);
  }

  /** What the global match `xml.match(/<name>[\s\S]*?<\/name>/gi)` yields from `from` on, in document order. */
  function Blocks(s: string, name: string, from: nat): (r: seq<string>)
    decreases |s| - from
    ensures r == [] <==> forall p: nat :: from <= p ==> BlockEndAt(s, name, p).None?
    ensures forall b :: b in r ==> IsBlock(b, name)
  {
    var at := (p: nat) => BlockEndAt(s, name, p).Some?;
    var first := FirstIndex(from, |s|, at);
    assert forall p: nat :: at(p) <==> BlockEndAt(s, name, p).Some?;
    match first
    case None => []
    case Some(p) =>
      var e := BlockEndAt(s, name, p).value;
      [s[p..e]] + Blocks(s, name, e)
  }

  /** The blocks `parseXmlFeed` reads: the `<item>` blocks if there is one, otherwise the `<entry>` blocks. */
  function FeedBlocks(xml: string): (r: seq<string>)
    ensures (exists p: nat :: BlockEndAt(xml, "item", p).Some?) ==> r == Blocks(xml, "item", 0) && r != []
    ensures (forall p: nat :: BlockEndAt(xml, "item", p).None?) ==> r == Blocks(xml, "entry", 0)
    ensures (forall b :: b in r ==> IsBlock(b, "item")) || (forall b :: b in r ==> IsBlock(b, "entry"))
  {
    var items := Blocks(xml, "item", 0);
    if items != [] then items else Blocks(xml, "entry", 0)
  }

  /**
    The record built from what was extracted from one block: the title or
    "Update", the first non-empty of the three dates or "", the link or the
    source's `site`.
   */
  function RecordOf(source: Source, title: string, pubDate: string, updated: string, dcDate: string, link: string): (r: Item)
    ensures r.source == source.name
    ensures r.title == Str(if title != "" then title else "Update")
    ensures r.date.Str?
    ensures pubDate != "" ==> r.date.s == pubDate
    ensures pubDate == "" && updated != "" ==> r.date.s == updated
    ensures pubDate == "" && updated == "" ==> r.date.s == dcDate
    ensures r.url == if link != "" then Str(link) else source.site
  {
    var dates := [Str(pubDate), Str(updated), Str(dcDate)];
    assert Truthy(dates[0]) <==> pubDate != "";
    assert Truthy(dates[1]) <==> updated != "";
    assert Truthy(dates[2]) <==> dcDate != "";
    Item(
      source.name,
      FirstTruthy([Str(title)], Str("Update")),
      FirstTruthy(dates, Str("")),
      FirstTruthy([Str(link)], source.site))
  }

  /** The record `parseXmlFeed` pushes for one block. */
  function BlockRecord(block: string, source: Source): Item
  {
    RecordOf(source,
      ExtractTag(block, "title"),
      ExtractTag(block, "pubDate"), ExtractTag(block, "updated"), ExtractTag(block, "dc:date"),
      ExtractLink(block))
  }

  /** One record per block, in block order. */
  function BlockRecords(blocks: seq<string>, source: Source): (r: seq<Item>)
    ensures |r| == |blocks|
    ensures forall i :: 0 <= i < |r| ==> r[i] == BlockRecord(blocks[i], source)
  {
    if blocks == [] then [] else [BlockRecord(blocks[0], source)] + BlockRecords(blocks[1..], source)
  }

  /** The value of `parseXmlFeed(xml, source)`. */
  function XmlRecords(xml: string, source: Source): seq<Item>
  {
    BlockRecords(FeedBlocks(xml), source)
  }

  /** `parseXmlFeed`: the loop that pushes one record per chosen block. */
  method ParseXmlFeed(xml: string, source: Source) returns (items: seq<Item>)
    ensures items == XmlRecords(xml, source)
  {
    var blocks := FeedBlocks(xml);
    items := [];
    for i := 0 to |blocks|
      invariant |items| == i
      invariant forall k :: 0 <= k < i ==> items[k] == BlockRecord(blocks[k], source)
    {
      items := items + [BlockRecord(blocks[i], source)];
    }
  }

  /**
    `parseXmlFeed` emits exactly one record per chosen block, in block order,
    each naming the source and carrying a non-empty title and a string date.
   */
  lemma XmlRecordsShape(xml: string, source: Source)
    ensures |XmlRecords(xml, source)| == |FeedBlocks(xml)|
    ensures forall i :: 0 <= i < |FeedBlocks(xml)| ==>
      var r := XmlRecords(xml, source)[i];
      r == BlockRecord(FeedBlocks(xml)[i], source) &&
      r.source == source.name && r.title.Str? && r.title.s != "" && r.date.Str?
  {
    var blocks := FeedBlocks(xml);
    forall i | 0 <= i < |blocks|
      ensures var r := XmlRecords(xml, source)[i];
        r.source == source.name && r.title.Str? && r.title.s != "" && r.date.Str?
    {
      var b := blocks[i];
      var _ := RecordOf(source, ExtractTag(b, "title"), ExtractTag(b, "pubDate"),
        ExtractTag(b, "updated"), ExtractTag(b, "dc:date"), ExtractLink(b));
    }
  }
}
