/** One run of `fetchNews` and the module-level `cachedNews` it replaces. */
module Server {
  import opened Wrappers
  import opened Feeds
  import opened Articles
  import opened Ordering
  import opened Dedup

  /** `FEEDS.map(url => parser.parseURL(url).then(...).catch(...))`, settled:
      one outcome per configured feed, in `FEEDS` order. */
  function FetchAll(fetch: string -> FeedResult): (results: seq<FeedResult>)
    ensures |results| == |FeedUrls|
    ensures forall i :: 0 <= i < |FeedUrls| ==> results[i] == fetch(FeedUrls[i])
    ensures Flatten(results) == ItemsOf(fetch(FeedUrls[0])) + ItemsOf(fetch(FeedUrls[1])) + ItemsOf(fetch(FeedUrls[2]))
  {
    var r := seq(|FeedUrls|, i requires 0 <= i < |FeedUrls| => fetch(FeedUrls[i]));
    assert r[1..][1..][1..] == [];
    assert Flatten(r[1..][1..]) == ItemsOf(r[2]) + Flatten(r[1..][1..][1..]);
    r
  }

  /** The filter, map and sort chain over the merged items. */
  function Process(allNews: seq<RawItem>, hostOf: string -> Option<string>): (r: Result<seq<NewsRecord>, RunError>)
    ensures r.Success? ==> |r.value| <= |allNews|
    ensures r.Success? ==> forall i, j :: 0 <= i < j < |r.value| && r.value[j].isPolitical ==> r.value[i].isPolitical
    ensures r.Success? ==> forall rec :: rec in r.value ==> exists x :: x in allNews && IsRelevant(x) && ToRecord(x, hostOf) == Success(rec)
  {
    var kept := KeepRelevant(allNews);
    match ToRecords(kept, hostOf)
    case Failure(e) => Failure(e)
    case Success(records) =>
      var sorted := SortNews(records);
      assert forall rec :: rec in sorted ==> exists x :: x in allNews && IsRelevant(x) && ToRecord(x, hostOf) == Success(rec) by {
        forall rec | rec in sorted
          ensures exists x :: x in allNews && IsRelevant(x) && ToRecord(x, hostOf) == Success(rec)
        {
          assert rec in multiset(records);
          var m :| 0 <= m < |records| && records[m] == rec;
          assert ToRecord(kept[m], hostOf) == Success(rec);
          assert kept[m] in kept;
        }
      }
      Success(sorted)
  }

  /** What a run publishes, or the error that makes it throw. */
  function Pipeline(results: seq<FeedResult>, hostOf: string -> Option<string>): (r: Result<seq<NewsRecord>, RunError>)
    ensures r.Success? ==> |r.value| <= |Flatten(results)|
    ensures r.Success? ==> forall i, j :: 0 <= i < j < |r.value| ==> r.value[i].link != r.value[j].link
  {
    match Process(Flatten(results), hostOf)
    case Failure(e) => Failure(e)
    case Success(sorted) => Success(Deduped(sorted))
  }

  /** A run throws exactly when some relevant item's link is rejected by
      `new URL`; irrelevant items with bad links are filtered out first. */
  lemma RunFailsIffRelevantLinkRejected(results: seq<FeedResult>, hostOf: string -> Option<string>)
    ensures Pipeline(results, hostOf).Failure? <==>
            exists x :: x in Flatten(results) && IsRelevant(x) && ToRecord(x, hostOf).Failure?
  {
  }

  /** Every published record is the mapped form of a relevant item that some
      feed returned, and no two published records share a link. */
  lemma SnapshotRecordsComeFromRelevantItems(results: seq<FeedResult>, hostOf: string -> Option<string>)
    requires Pipeline(results, hostOf).Success?
    ensures forall i, j :: 0 <= i < j < |Pipeline(results, hostOf).value| ==>
              Pipeline(results, hostOf).value[i].link != Pipeline(results, hostOf).value[j].link
    ensures forall rec :: rec in Pipeline(results, hostOf).value ==>
              exists x :: x in Flatten(results) && IsRelevant(x) && ToRecord(x, hostOf) == Success(rec)
  {
  }

  /** Every relevant item some feed returned has its link in the published
      list: deduplication drops records, never links. */
  lemma SnapshotCoversRelevantLinks(results: seq<FeedResult>, hostOf: string -> Option<string>, x: RawItem)
    requires Pipeline(results, hostOf).Success?
    requires x in Flatten(results) && IsRelevant(x)
    ensures x.link.Some? && HasLink(Pipeline(results, hostOf).value, x.link.value)
  {
    var kept := KeepRelevant(Flatten(results));
    var records := ToRecords(kept, hostOf).value;
    var sorted := SortNews(records);
    var m :| 0 <= m < |kept| && kept[m] == x;
    var rec := records[m];
    assert ToRecord(x, hostOf) == Success(rec);
    assert rec in multiset(sorted);
    var k :| 0 <= k < |sorted| && sorted[k] == rec;
    assert HasLink(sorted, rec.link);
  }

  /** With a failed feed, the filter still sees every other feed's items, in
      feed order. */
  lemma FailedFeedIsolated(results: seq<FeedResult>, k: nat)
    requires k < |results| && results[k] == FetchFailed
    ensures KeepRelevant(Flatten(results)) ==
            KeepRelevant(Flatten(results[..k])) + KeepRelevant(Flatten(results[k + 1..]))
  {
    FailedFeedContributesNothing(results, k);
    KeepRelevantAppend(Flatten(results[..k]), Flatten(results[k + 1..]));
  }

  /** Two feeds return one item each with the same link and the same rank,
      and the third feed fails: the run publishes exactly one record, the one
      from the later feed, so its title wins. */
  lemma LaterFeedWinsForSharedLink(x1: RawItem, x2: RawItem, hostOf: string -> Option<string>)
    requires IsRelevant(x1) && IsRelevant(x2)
    requires ToRecord(x1, hostOf).Success? && ToRecord(x2, hostOf).Success?
    requires x1.link == x2.link
    requires RankOf(ToRecord(x1, hostOf).value) == RankOf(ToRecord(x2, hostOf).value)
    ensures Pipeline([Fetched([x1]), Fetched([x2]), FetchFailed], hostOf) == Success([ToRecord(x2, hostOf).value])
    ensures Pipeline([Fetched([x1]), Fetched([x2]), FetchFailed], hostOf).value[0].title == x2.title
  {
    var results := [Fetched([x1]), Fetched([x2]), FetchFailed];
    var r1, r2 := ToRecord(x1, hostOf).value, ToRecord(x2, hostOf).value;
    FlattenTwoFeeds(x1, x2);
    assert [x1, x2][1..] == [x2];
    assert KeepRelevant([x1, x2]) == [x1, x2];
    RecordsOfTwo(x1, x2, hostOf);
    SortKeepsEqualRankOrder(r1, r2);
    DedupLaterWins(r1, r2);
  }

  /** The merged items of the scenario's three feeds. */
  lemma FlattenTwoFeeds(x1: RawItem, x2: RawItem)
    ensures Flatten([Fetched([x1]), Fetched([x2]), FetchFailed]) == [x1, x2]
  {
    var results := [Fetched([x1]), Fetched([x2]), FetchFailed];
    assert results[1..] == [Fetched([x2]), FetchFailed] && results[1..][1..] == [FetchFailed];
    assert [FetchFailed][1..] == [];
    assert Flatten([FetchFailed]) == [];
    assert Flatten(results[1..]) == [x2];
  }

  /** Mapping two items that both have accepted links. */
  lemma RecordsOfTwo(x1: RawItem, x2: RawItem, hostOf: string -> Option<string>)
    requires ToRecord(x1, hostOf).Success? && ToRecord(x2, hostOf).Success?
    ensures ToRecords([x1, x2], hostOf) == Success([ToRecord(x1, hostOf).value, ToRecord(x2, hostOf).value])
  {
    var items := [x1, x2];
    assert forall i :: 0 <= i < |items| ==> ToRecord(items[i], hostOf).Success?;
    var r := ToRecords(items, hostOf).value;
    assert ToRecord(items[0], hostOf) == Success(r[0]);
    assert ToRecord(items[1], hostOf) == Success(r[1]);
    assert |r| == 2 && r == [r[0], r[1]];
    assert r[0] == ToRecord(x1, hostOf).value && r[1] == ToRecord(x2, hostOf).value;
    assert ToRecords(items, hostOf) == Success(r);
  }

  /** The process-wide news store. */
  class NewsCache {
    var cachedNews: seq<NewsRecord>

    /** `let cachedNews = []`. */
    constructor()
      ensures cachedNews == []
    {
      cachedNews := [];
    }

    /** One run of `fetchNews`: fetch every feed (a failing one counts as
        empty), filter, map, sort, deduplicate, and replace `cachedNews`; a
        run that throws leaves `cachedNews` as it was. */
    method FetchNews(fetch: string -> FeedResult, hostOf: string -> Option<string>)
      modifies this
      ensures Pipeline(FetchAll(fetch), hostOf).Success? ==> cachedNews == Pipeline(FetchAll(fetch), hostOf).value
      ensures Pipeline(FetchAll(fetch), hostOf).Failure? ==> cachedNews == old(cachedNews)
    {
      var allFeedItems := FetchAll(fetch);
      var allNews := Flatten(allFeedItems);
      var processed := Process(allNews, hostOf);
      match processed {
        case Failure(_) =>
        case Success(processedNews) =>
          var uniqueNews := DedupByLink(processedNews);
          cachedNews := uniqueNews;
      }
    }
  }
}
