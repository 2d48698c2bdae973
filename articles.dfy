/** The relevance filter and the mapping of a raw item to a published news
    record (the `.filter` and `.map` callbacks of `fetchNews`). */
module Articles {
  import opened Wrappers
  import opened Text
  import opened Feeds

  /** The clean record the map step builds for each surviving item. */
  datatype NewsRecord = NewsRecord(
    title: Option<string>,
    link: string,
    pubDate: Option<int>,
    snippet: string,
    source: string,
    isPolitical: bool)

  /** What makes a run throw: `new URL(link)` rejects the link of a surviving
      item (an absent link is rejected too). */
  datatype RunError = InvalidUrl(link: Option<string>)

  /** `substring(0, 150)` on the content fallback. */
  const SnippetLimit: nat := 150

  /** The topic keywords of the relevance filter. */
  const TopicKeywords: seq<string> := ["cameroun", "cameroon"]

  /** The political keywords, checked against the lower-cased title. */
  const PoliticalKeywords: seq<string> := ["politique", "politics", "président", "gouvernement"]

  /** JavaScript truthiness of an optional string: present and non-empty. */
  predicate Truthy(f: Option<string>)
  {
    f.Some? && f.value != ""
  }

  /** An optional string, with the empty string for an absent one. */
  function OrEmpty(f: Option<string>): string
  {
    if f.Some? then f.value else ""
  }

  /** `item.title?.toLowerCase() || ''` */
  function TitleText(item: RawItem): string
  {
    ToLower(OrEmpty(item.title))
  }

  /** `item.contentSnippet || item.content || ''`, before lower-casing. */
  function ContentText(item: RawItem): string
  {
    if Truthy(item.contentSnippet) then item.contentSnippet.value else OrEmpty(item.content)
  }

  /** The text contains one of the given keywords. */
  predicate MentionsAny(text: string, keywords: seq<string>)
  {
    exists k :: k in keywords && Contains(text, k)
  }

  /** The filter callback: "cameroun" or "cameroon" occurs in the lower-cased
      title or the lower-cased content. */
  predicate IsRelevant(item: RawItem)
    ensures IsRelevant(item) ==> item.title.Some? || item.contentSnippet.Some? || item.content.Some?
  {
    MentionsAny(TitleText(item), TopicKeywords) || MentionsAny(ToLower(ContentText(item)), TopicKeywords)
  }

  /** `allNews.filter(IsRelevant)`: keeps exactly the relevant items, every
      copy of each, in their original order. */
  function KeepRelevant(items: seq<RawItem>): (kept: seq<RawItem>)
    ensures |kept| <= |items|
    ensures forall x :: x in kept <==> x in items && IsRelevant(x)
    ensures forall x :: multiset(kept)[x] == if IsRelevant(x) then multiset(items)[x] else 0
  {
    if items == [] then []
    else
      assert items == [items[0]] + items[1..];
      var rest := KeepRelevant(items[1..]);
      if IsRelevant(items[0]) then [items[0]] + rest else rest
  }

  /** The filter works feed by feed: filtering a concatenation is
      concatenating the filtered parts, so order is kept. */
  lemma {:induction false} KeepRelevantAppend(a: seq<RawItem>, b: seq<RawItem>)
    ensures KeepRelevant(a + b) == KeepRelevant(a) + KeepRelevant(b)
  {
    if a == [] {
      assert a + b == b;
    } else {
      assert (a + b)[0] == a[0];
      assert (a + b)[1..] == a[1..] + b;
      KeepRelevantAppend(a[1..], b);
    }
  }

  /** An optional string, lower-cased when present. */
  function LowerOpt(f: Option<string>): (g: Option<string>)
    ensures g.Some? <==> f.Some?
  {
    if f.Some? then Some(ToLower(f.value)) else None
  }

  /** The filter is case-insensitive: an item is kept iff the same item with
      its title and texts lower-cased is kept. */
  lemma RelevanceIgnoresCase(item: RawItem)
    ensures IsRelevant(item) <==>
            IsRelevant(item.(title := LowerOpt(item.title),
                             contentSnippet := LowerOpt(item.contentSnippet),
                             content := LowerOpt(item.content)))
  {
    var low := item.(title := LowerOpt(item.title),
                     contentSnippet := LowerOpt(item.contentSnippet),
                     content := LowerOpt(item.content));
    ToLowerIdempotent(OrEmpty(item.title));
    assert TitleText(low) == TitleText(item);
    if Truthy(item.contentSnippet) {
      ToLowerIdempotent(item.contentSnippet.value);
    } else {
      ToLowerIdempotent(OrEmpty(item.content));
      assert !Truthy(low.contentSnippet);
    }
    assert ToLower(ContentText(low)) == ToLower(ContentText(item));
  }

  /** The match is by substring: "Cameroonian" in a title is enough. */
  lemma SubstringMatchIsEnough()
    ensures IsRelevant(RawItem(Some("Cameroonian leader"), None, None, None, None, None))
  {
    var item := RawItem(Some("Cameroonian leader"), None, None, None, None, None);
    var t := TitleText(item);
    assert t == "cameroon" + "ian leader";
    assert Contains("cameroon", "cameroon") by {
      assert "cameroon" <= "cameroon"[0..];
    }
    ContainsInContext("", "cameroon", "ian leader", "cameroon");
    assert "" + "cameroon" + "ian leader" == t;
  }

  /** The political flag: one of the political keywords occurs in the
      lower-cased title; an absent title gives false. */
  function IsPolitical(title: Option<string>): (political: bool)
    ensures title.None? ==> !political
  {
    MentionsAny(ToLower(OrEmpty(title)), PoliticalKeywords)
  }

  /** The political flag ignores case, so an upper-case accented title
      ("PRÉSIDENT") is flagged like its lower-case form. */
  lemma PoliticalIgnoresCase(title: string)
    ensures IsPolitical(Some(title)) == IsPolitical(Some(ToLower(title)))
  {
    ToLowerIdempotent(title);
  }

  /** An upper-case accented keyword is recognised. */
  lemma AccentedTitleIsPolitical()
    ensures IsPolitical(Some("LE PRÉSIDENT"))
  {
    var t := ToLower("LE PRÉSIDENT");
    assert t[3..] == "président";
    assert "président" <= t[3..];
    assert Contains(t, "président");
  }

  /** `item.contentSnippet || (item.content || '').substring(0, 150)` */
  function Snippet(item: RawItem): (s: string)
    ensures Truthy(item.contentSnippet) ==> s == item.contentSnippet.value
    ensures !Truthy(item.contentSnippet) ==>
              && |s| <= SnippetLimit
              && s <= OrEmpty(item.content)
              && (|OrEmpty(item.content)| <= SnippetLimit ==> s == OrEmpty(item.content))
    ensures !Truthy(item.contentSnippet) && |OrEmpty(item.content)| > SnippetLimit ==> |s| == SnippetLimit
  {
    if Truthy(item.contentSnippet) then item.contentSnippet.value
    else
      var c := OrEmpty(item.content);
      if |c| <= SnippetLimit then c else c[..SnippetLimit]
  }

  /** The map callback. `new URL(item.link)` is the parameter `hostOf`, which
      gives the hostname or fails; it fails the run on an absent link too. */
  function ToRecord(item: RawItem, hostOf: string -> Option<string>): (r: Result<NewsRecord, RunError>)
    ensures r.Success? <==> item.link.Some? && hostOf(item.link.value).Some?
    ensures r.Failure? ==> r.error == InvalidUrl(item.link)
    ensures r.Success? ==>
              && r.value.title == item.title
              && Some(r.value.link) == item.link
              && r.value.pubDate == (if item.isoDate.Some? then item.isoDate else item.pubDate)
              && r.value.snippet == Snippet(item)
              && Some(r.value.source) == hostOf(item.link.value)
              && r.value.isPolitical == IsPolitical(item.title)
  {
    if item.link.None? then Failure(InvalidUrl(item.link))
    else
      match hostOf(item.link.value)
      case None => Failure(InvalidUrl(item.link))
      case Some(host) =>
        Success(NewsRecord(
          item.title,
          item.link.value,
          if item.isoDate.Some? then item.isoDate else item.pubDate,
          Snippet(item),
          host,
          IsPolitical(item.title)))
  }

  /** `.map(...)` over the filtered items: one record per item, in order, or
      the error of the first item whose link `new URL` rejects. */
  function ToRecords(items: seq<RawItem>, hostOf: string -> Option<string>): (r: Result<seq<NewsRecord>, RunError>)
    ensures r.Success? <==> forall i :: 0 <= i < |items| ==> ToRecord(items[i], hostOf).Success?
    ensures r.Success? ==>
              && |r.value| == |items|
              && forall i :: 0 <= i < |items| ==> ToRecord(items[i], hostOf) == Success(r.value[i])
    ensures r.Failure? ==>
              exists k :: 0 <= k < |items|
                && ToRecord(items[k], hostOf) == Failure(r.error)
                && forall j :: 0 <= j < k ==> ToRecord(items[j], hostOf).Success?
  {
    if items == [] then Success([])
    else
      assert forall i :: 1 <= i < |items| ==> items[i] == items[1..][i - 1];
      match ToRecord(items[0], hostOf)
      case Failure(e) => Failure(e)
      case Success(head) =>
        match ToRecords(items[1..], hostOf)
        case Failure(e) =>
          var k :| 0 <= k < |items| - 1
                   && ToRecord(items[1..][k], hostOf) == Failure(e)
                   && forall j :: 0 <= j < k ==> ToRecord(items[1..][j], hostOf).Success?;
          assert ToRecord(items[k + 1], hostOf) == Failure(e);
          Failure(e)
        case Success(tail) => Success([head] + tail)
  }
}
