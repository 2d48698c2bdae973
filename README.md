# Cameroon news aggregation, modelled in Dafny

This project models the aggregation step of the elomo news backend: the
`fetchNews` function in `server.js` and the module-level `cachedNews` list it
replaces. One run fetches the three configured RSS feeds. A feed that fails
counts as an empty list. The run merges the items and keeps those that
mention "cameroun" or "cameroon" in the title or content, ignoring case. It
maps each kept item to a clean news record with a political flag. It sorts the
records with political ones first and newest first within each group. It
removes duplicate links with a JavaScript `Map`. Last, it replaces
`cachedNews`, but only if nothing threw.

Modules, one per stage of the run:

- `Wrappers` (`wrappers.dfy`): `Option` for absent fields, `Result` for a
  step that may throw.
- `Text` (`text.dfy`): `toLowerCase` and `includes`.
- `Feeds` (`feeds.dfy`): raw feed items, the per-feed outcome, the `FEEDS`
  list and `flat()`.
- `Articles` (`articles.dfy`): the filter callback, the political flag, the
  snippet and the map callback. `new URL(link).hostname` is the parameter
  `hostOf`, a partial function. When it fails, the whole run throws.
- `Ordering` (`ordering.dfy`): the comparator, written as a strict weak order
  on (political flag, date). The sort is a stable insertion sort, because
  JavaScript's `Array.prototype.sort` is stable.
- `Dedup` (`dedup.dfy`): the `Map`-based deduplication. `Deduped` is the
  specification. `BuildLinkMap` and `DedupByLink` are the loops that insert
  into the map and then spread its values. Each link keeps the position of
  its first record and the value of its last record.
- `Server` (`server.dfy`): the whole run as the function `Pipeline`, and the
  class `NewsCache`. The class holds `cachedNews` and has the method
  `FetchNews`, which performs one run.

Facts about the code that shape the model:

- The code sorts before it deduplicates, so the surviving duplicate of a link
  is the last one in sorted order.
- The sort puts political records first and orders by date only within each
  group.
- An item that passes the filter and whose link `new URL` rejects makes the
  whole run throw, so the previous `cachedNews` stays. Items the filter drops
  never reach `new URL`.
- The only classification is the political flag on the title. Titles and
  links are copied as the feed gives them. The snippet is `contentSnippet` as
  given, or else the first 150 characters of `content`. No HTML is stripped.

One consequence of deduplicating after sorting is proved rather than assumed.
A link can have both a political and a non-political record. Then the
surviving record, which is the last one, can be non-political and still sit at
the position of the first one. In that case the published list is not
political-first (`Dedup.DedupCanBreakPoliticalFirst`). When all records of
each link share their rank, the order survives deduplication
(`Dedup.DedupKeepsOrderWhenDuplicatesShareRank`).

## Model

| member | source | states |
|---|---|---|
| Text.ToLower | server.js:52-53 | lower-casing keeps the length, turns each folded capital into its lower-case letter, leaves every other character unchanged, and leaves no folded capital |
| Text.ToLowerIdempotent | server.js:52-53 | lower-casing twice is the same as lower-casing once |
| Text.Contains | server.js:56-59 | `includes`: a match needs the keyword no longer than the text, and the empty keyword always matches; its substring behaviour is `Text.ContainsInContext` |
| Text.ContainsInContext | server.js:56-59 | `includes` matches substrings: a keyword found in a text is still found when more text surrounds it |
| Feeds.FlattenContains | server.js:43-46 | an item is in the merged list iff some feed's settled result contains it |
| Feeds.FlattenAppend | server.js:46 | merging result lists that were joined equals joining the merged lists |
| Feeds.FlattenAt | server.js:43-46 | feed k's items sit unchanged between the items of the feeds before it and the items of the feeds after it |
| Feeds.FailedFeedContributesNothing | server.js:32-39 | the per-feed catch (`Feeds.ItemsOf`) turns a failed feed into [], so it adds zero items, and the other feeds' items still appear in `FEEDS` order |
| Feeds.Flatten | server.js:46 | `flat()`: every feed's items fit in the merged list; contents and order are in `Feeds.FlattenContains` and `Feeds.FlattenAt` |
| Articles.KeepRelevant | server.js:51-60 | the filter keeps exactly the relevant items, every copy of each, and never lengthens the list |
| Articles.KeepRelevantAppend | server.js:49-60 | filtering joined lists equals joining the filtered lists, so the filter keeps item order |
| Articles.RelevanceIgnoresCase | server.js:52-59 | an item is kept iff the same item with title, snippet and content lower-cased is kept |
| Articles.SubstringMatchIsEnough | server.js:55-59 | a title "Cameroonian leader" passes the filter, because "cameroon" found on its own is still found inside the longer title |
| Articles.IsRelevant | server.js:51-60 | the filter callback: an item with no title, snippet or content is never kept; case-insensitivity is `Articles.RelevanceIgnoresCase` |
| Articles.IsPolitical | server.js:64-68 | a missing title is never political |
| Articles.PoliticalIgnoresCase | server.js:64-68 | the political flag of a title equals the flag of its lower-cased form |
| Articles.AccentedTitleIsPolitical | server.js:64-68 | an upper-case accented title "LE PRÉSIDENT" is flagged political |
| Articles.Snippet | server.js:74 | a non-empty contentSnippet is the snippet as is; otherwise the snippet is the prefix of content (or "") of exactly 150 characters when content is longer, and all of it when content is that short |
| Articles.ToRecord | server.js:62-77 | mapping succeeds iff the link is present and `new URL` accepts it, and otherwise fails with that link; title and link are copied, the date is isoDate else pubDate, the source is the hostname, and the flag is the political check of the title |
| Articles.ToRecords | server.js:62-78 | `.map` yields one record per item, in order, iff every link is accepted; otherwise it fails with the error of the first rejected item |
| Ordering.OutranksIsStrictWeakOrder | server.js:80-84 | the comparator is irreflexive and asymmetric, and when the first rank outranks the third, any second rank is outranked by the first or outranks the third |
| Ordering.Outranks | server.js:80-84 | the comparator: a political record outranks a non-political one, and an outranking pair is of distinct ranks and never puts a non-political record above a political one; the order laws are `Ordering.OutranksIsStrictWeakOrder` |
| Ordering.InsertPermutes | server.js:80-84 | inserting a record adds exactly that record |
| Ordering.InsertOrdered | server.js:80-84 | inserting into an ordered list keeps it ordered |
| Ordering.InsertRankClass | server.js:80-84 | inserting puts the record ahead of the records of its own rank and moves no other record of that rank |
| Ordering.SortNews | server.js:79-84 | the sorted list is a permutation of the mapped list; political records come before non-political ones; within one flag a later date never follows an earlier one; the records of each rank keep their input order |
| Ordering.SortKeepsEqualRankOrder | server.js:80-84 | two records that the comparator calls equal stay in their input order |
| Dedup.FirstLinksFacts | server.js:87 | the Map's keys are distinct, are exactly the links of the input, and come in the order of each link's first occurrence |
| Dedup.Deduped | server.js:87 | the output is no longer than the input; its links are pairwise distinct and are exactly the input's links, in order of first occurrence; each link's record is the last input record with that link |
| Dedup.InsertKeepsLinkMap | server.js:87 | inserting the next record under its link turns the Map of a prefix into the Map of the prefix one record longer |
| Dedup.BuildLinkMap | server.js:87 | the Map built by repeated insertion holds each link once, in first-occurrence order, with its last record |
| Dedup.DedupByLink | server.js:87 | spreading the Map's values gives exactly the deduplicated list |
| Dedup.DedupKeepsOrderWhenDuplicatesShareRank | server.js:80-87 | if all records of each link share their rank, the deduplicated sorted list is still ordered |
| Dedup.DedupCanBreakPoliticalFirst | server.js:80-87 | for [political l, political m, non-political l], the sorted input is ordered, the output is [non-political l, political m], and that output is not political-first |
| Dedup.DedupLaterWins | server.js:87 | of two records with one link, only the later one survives |
| Server.FetchAll | server.js:17-46 | fetching every configured feed and flattening gives the items of the first, second and third feed of `FEEDS`, one block after the other, with a failed feed's block empty |
| Server.Process | server.js:49-84 | filter, map and sort: on success no more records than items, political records first, and each record the mapping of a relevant input item |
| Server.Pipeline | server.js:43-87 | one run's result: on success no more records than fetched items, with pairwise distinct links; the rest is in the `Server` lemmas below |
| Server.RunFailsIffRelevantLinkRejected | server.js:49-94 | a run throws iff some fetched item that passes the filter has a link that `new URL` rejects |
| Server.SnapshotRecordsComeFromRelevantItems | server.js:49-89 | in a completed run, published links are pairwise distinct, and every published record is the mapped form of a relevant fetched item |
| Server.SnapshotCoversRelevantLinks | server.js:49-89 | in a completed run, every relevant fetched item has its link in the published list |
| Server.FailedFeedIsolated | server.js:32-60 | with one failed feed, the filter sees the other feeds' items, in feed order |
| Server.LaterFeedWinsForSharedLink | server.js:43-89 | when two feeds each return one relevant item with the same link and rank and the third feed fails, the run publishes exactly the later feed's record, with its title |
| Server.NewsCache.constructor | server.js:24 | the cache starts empty |
| Server.NewsCache.FetchNews | server.js:27-95 | a run that completes replaces `cachedNews` with the pipeline's deduplicated list; a run that throws leaves it unchanged |

## Left out

- The Express app, CORS, the `/news` and `/` routes, `app.listen` and `PORT` (server.js:2-13, 97-116). This is HTTP plumbing; `/news` only returns `cachedNews`.
- `rss-parser`'s `parseURL` (network fetch and XML parsing in a library). It becomes the parameter `fetch` of `FetchNews`, which returns the items or a failure for each feed URL.
- `Promise.all` concurrency and the `setInterval` schedule. One run is one call of `FetchNews`. Two overlapping async runs, where the last one to finish wins, are not modelled.
- Parsing dates with `new Date(...)`. Dates are integer timestamps that may be absent.
- Ordering.SortNews: an absent date sorts as the oldest. In the source, `new Date(undefined)` is NaN, the comparator then returns NaN, and JavaScript treats that as "equal". The comparator is then inconsistent and the resulting order depends on the engine.
- The internals of `new URL(link).hostname`. It becomes the parameter `hostOf`, which returns the hostname or fails. An absent link always fails, as `new URL(undefined)` does.
- Text.ToLower: folds only ASCII `A`-`Z` and the Latin-1 capitals U+00C0-U+00DE. Other Unicode case mappings are not modelled.
- Articles.Snippet: counts characters. `substring(0, 150)` counts UTF-16 code units.
- Fields of the wrong JavaScript type, such as a non-string title whose `toLowerCase` would throw, or a feed without `items`. Every field is an optional string or an optional timestamp.
- `console.log` and `console.error` logging.
