/** What the feed client hands to the aggregation: raw items per feed, or a
    failure that the per-feed catch turns into an empty list. */
module Feeds {
  import opened Wrappers

  /** One feed item as the RSS parser returns it. Every field may be absent;
      dates are already timestamps (parsing them is not modelled). */
  datatype RawItem = RawItem(
    title: Option<string>,
    link: Option<string>,
    isoDate: Option<int>,
    pubDate: Option<int>,
    contentSnippet: Option<string>,
    content: Option<string>)

  /** The settled outcome of fetching one feed. */
  datatype FeedResult = Fetched(items: seq<RawItem>) | FetchFailed

  /** The configured feeds, in the order their results are merged. */
  const FeedUrls: seq<string> := [
    "https://fr.allafrica.com/tools/headlines/rdf/cameroon/headlines.rdf",
    "https://allafrica.com/tools/headlines/rdf/cameroon/headlines.rdf",
    "https://www.africanews.com/feed/rss"
  ]

  /** The per-feed catch: a failed feed yields the empty list. */
  function ItemsOf(f: FeedResult): seq<RawItem>
  {
    match f
    case Fetched(items) => items
    case FetchFailed => []
  }

  /** `allFeedItems.flat()`: the per-feed lists, one after the other. */
  function Flatten(results: seq<FeedResult>): (all: seq<RawItem>)
    ensures forall i :: 0 <= i < |results| ==> |ItemsOf(results[i])| <= |all|
  {
    if results == [] then []
    else
      assert forall i :: 1 <= i < |results| ==> results[i] == results[1..][i - 1];
      ItemsOf(results[0]) + Flatten(results[1..])
  }

  /** An item is in the merged list iff some feed returned it. */
  lemma {:induction false} FlattenContains(results: seq<FeedResult>, x: RawItem)
    ensures x in Flatten(results) <==> exists i :: 0 <= i < |results| && x in ItemsOf(results[i])
  {
    if results != [] {
      FlattenContains(results[1..], x);
      assert forall i :: 1 <= i < |results| ==> results[i] == results[1..][i - 1];
      if x in Flatten(results[1..]) {
        var j :| 0 <= j < |results| - 1 && x in ItemsOf(results[1..][j]);
        assert x in ItemsOf(results[j + 1]);
      }
    }
  }

  /** Flattening is a homomorphism from concatenation of result lists. */
  lemma {:induction false} FlattenAppend(a: seq<FeedResult>, b: seq<FeedResult>)
    ensures Flatten(a + b) == Flatten(a) + Flatten(b)
  {
    if a == [] {
      assert a + b == b;
    } else {
      assert (a + b)[1..] == a[1..] + b;
      FlattenAppend(a[1..], b);
    }
  }

  /** The items of feed `k` sit, unchanged, between those of the feeds before
      it and those of the feeds after it. */
  lemma {:induction false} FlattenAt(results: seq<FeedResult>, k: nat)
    requires k < |results|
    ensures Flatten(results) == Flatten(results[..k]) + ItemsOf(results[k]) + Flatten(results[k + 1..])
  {
    var pre, mid, post := results[..k], [results[k]], results[k + 1..];
    calc {
      Flatten(results);
      { assert results == (pre + mid) + post; }
      Flatten((pre + mid) + post);
      { FlattenAppend(pre + mid, post); }
      Flatten(pre + mid) + Flatten(post);
      { FlattenAppend(pre, mid); }
      Flatten(pre) + Flatten(mid) + Flatten(post);
      { FlattenSingle(results[k]); }
      Flatten(pre) + ItemsOf(results[k]) + Flatten(post);
    }
  }

  lemma FlattenSingle(f: FeedResult)
    ensures Flatten([f]) == ItemsOf(f)
  {
  }

  /** A failed feed contributes exactly zero items, and every other feed's
      items are still present, in feed order. */
  lemma FailedFeedContributesNothing(results: seq<FeedResult>, k: nat)
    requires k < |results| && results[k] == FetchFailed
    ensures Flatten(results) == Flatten(results[..k]) + Flatten(results[k + 1..])
  {
    FlattenAt(results, k);
  }
}
