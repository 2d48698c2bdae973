/** Deduplication by link: `[...new Map(news.map(n => [n.link, n])).values()]`.
    A JavaScript `Map` keeps each key at the position of its first insertion
    and overwrites the value on every later insertion, so each link keeps the
    place of its first record and the value of its last. */
module Dedup {
  import opened Wrappers
  import opened Articles
  import opened Ordering

  /** Some record in `s` carries link `l`. */
  predicate HasLink(s: seq<NewsRecord>, l: string)
  {
    exists i :: 0 <= i < |s| && s[i].link == l
  }

  /** Where link `l` first occurs in `s`. */
  function FirstIndex(s: seq<NewsRecord>, l: string): (k: nat)
    requires HasLink(s, l)
    ensures k < |s| && s[k].link == l
    ensures forall j :: 0 <= j < k ==> s[j].link != l
    decreases |s|
  {
    var n := |s| - 1;
    if HasLink(s[..n], l) then FirstIndex(s[..n], l)
    else
      assert forall j :: 0 <= j < n ==> s[..n][j] == s[j];
      n
  }

  /** Where link `l` last occurs in `s`. */
  function LastIndex(s: seq<NewsRecord>, l: string): (k: nat)
    requires HasLink(s, l)
    ensures k < |s| && s[k].link == l
    ensures forall j :: k < j < |s| ==> s[j].link != l
    decreases |s|
  {
    var n := |s| - 1;
    if s[n].link == l then n
    else
      assert HasLink(s[..n], l) by {
        var i :| 0 <= i < |s| && s[i].link == l;
        assert s[..n][i] == s[i];
      }
      LastIndex(s[..n], l)
  }

  /** The Map's keys in insertion order: each link once, where it first occurs. */
  function FirstLinks(s: seq<NewsRecord>): (ks: seq<string>)
    ensures |ks| <= |s|
    decreases |s|
  {
    if s == [] then []
    else
      var n := |s| - 1;
      var prior := FirstLinks(s[..n]);
      if s[n].link in prior then prior else prior + [s[n].link]
  }

  /** The keys are distinct, are exactly the links of `s`, and come in the
      order in which their links first occur in `s`. */
  lemma {:induction false} FirstLinksFacts(s: seq<NewsRecord>)
    ensures forall i, j :: 0 <= i < j < |FirstLinks(s)| ==> FirstLinks(s)[i] != FirstLinks(s)[j]
    ensures forall l :: l in FirstLinks(s) <==> HasLink(s, l)
    ensures forall i, j :: 0 <= i < j < |FirstLinks(s)| ==>
              FirstIndex(s, FirstLinks(s)[i]) < FirstIndex(s, FirstLinks(s)[j])
    decreases |s|
  {
    if s != [] {
      var n := |s| - 1;
      var prior := FirstLinks(s[..n]);
      FirstLinksFacts(s[..n]);
      forall l ensures HasLink(s, l) <==> HasLink(s[..n], l) || s[n].link == l {
        if HasLink(s, l) && s[n].link != l {
          var i :| 0 <= i < |s| && s[i].link == l;
          assert s[..n][i] == s[i];
        }
        if HasLink(s[..n], l) {
          var i :| 0 <= i < n && s[..n][i].link == l;
          assert s[i].link == l;
        }
      }
      forall l | HasLink(s[..n], l) ensures FirstIndex(s, l) == FirstIndex(s[..n], l) {
      }
      if s[n].link !in prior {
        assert FirstIndex(s, s[n].link) == n;
      }
    }
  }

  /** The deduplicated list: for each key in insertion order, the last record
      with that link. */
  function Deduped(s: seq<NewsRecord>): (r: seq<NewsRecord>)
    ensures |r| <= |s|
    ensures forall i, j :: 0 <= i < j < |r| ==> r[i].link != r[j].link
    ensures forall l :: HasLink(r, l) <==> HasLink(s, l)
    ensures forall i :: 0 <= i < |r| ==> HasLink(s, r[i].link)
    ensures forall i, j :: 0 <= i < j < |r| ==> FirstIndex(s, r[i].link) < FirstIndex(s, r[j].link)
    ensures forall i :: 0 <= i < |r| ==> r[i] == s[LastIndex(s, r[i].link)]
  {
    var ks := FirstLinks(s);
    FirstLinksFacts(s);
    var r := seq(|ks|, i requires 0 <= i < |ks| => s[LastIndex(s, ks[i])]);
    assert forall i :: 0 <= i < |r| ==> r[i].link == ks[i];
    assert forall l :: HasLink(r, l) <==> l in ks by {
      forall l ensures HasLink(r, l) <==> l in ks {
        if l in ks {
          var i :| 0 <= i < |ks| && ks[i] == l;
          assert r[i].link == l;
        }
      }
    }
    r
  }

  /** Inserting record `s[i]` into the Map built from `s[..i]`: a new link
      joins the keys at the end, and every other link keeps its last record. */
  lemma InsertStep(s: seq<NewsRecord>, i: nat)
    requires i < |s|
    ensures FirstLinks(s[..i + 1]) ==
            if s[i].link in FirstLinks(s[..i]) then FirstLinks(s[..i]) else FirstLinks(s[..i]) + [s[i].link]
    ensures HasLink(s[..i + 1], s[i].link) && LastIndex(s[..i + 1], s[i].link) == i
    ensures forall l :: HasLink(s[..i], l) && l != s[i].link ==>
              HasLink(s[..i + 1], l) && LastIndex(s[..i + 1], l) == LastIndex(s[..i], l)
  {
    assert s[..i + 1][..i] == s[..i];
    assert s[..i + 1][i] == s[i];
    forall l | HasLink(s[..i], l) ensures HasLink(s[..i + 1], l) {
      var t :| 0 <= t < i && s[..i][t].link == l;
      assert s[..i + 1][t].link == l;
    }
  }

  /** `keys` and `byLink` are the Map built from the records `p`: its keys in
      insertion order and, for each, the last record inserted under it. */
  ghost predicate IsLinkMap(keys: seq<string>, byLink: map<string, NewsRecord>, p: seq<NewsRecord>)
  {
    && keys == FirstLinks(p)
    && (forall l :: l in byLink <==> l in keys)
    && (forall l :: l in byLink ==> HasLink(p, l) && byLink[l] == p[LastIndex(p, l)])
  }

  /** Inserting `s[i]` under its link turns the Map of `s[..i]` into the Map
      of `s[..i + 1]`. */
  lemma InsertKeepsLinkMap(s: seq<NewsRecord>, i: nat, keys: seq<string>, byLink: map<string, NewsRecord>)
    requires i < |s| && IsLinkMap(keys, byLink, s[..i])
    ensures IsLinkMap(if s[i].link in byLink then keys else keys + [s[i].link], byLink[s[i].link := s[i]], s[..i + 1])
  {
    InsertStep(s, i);
  }

  /** `new Map(entries)`: inserts every record under its link in list order.
      The Map is returned as its keys in insertion order and its contents. */
  method BuildLinkMap(s: seq<NewsRecord>) returns (keys: seq<string>, byLink: map<string, NewsRecord>)
    ensures keys == FirstLinks(s)
    ensures forall l :: l in byLink <==> l in keys
    ensures forall l :: l in byLink ==> HasLink(s, l) && byLink[l] == s[LastIndex(s, l)]
  {
    keys, byLink := [], map[];
    var i := 0;
    while i < |s|
      invariant 0 <= i <= |s|
      invariant IsLinkMap(keys, byLink, s[..i])
    {
      InsertKeepsLinkMap(s, i, keys, byLink);
      var l := s[i].link;
      if l !in byLink {
        keys := keys + [l];
      }
      byLink := byLink[l := s[i]];
      i := i + 1;
    }
    assert s[..|s|] == s;
  }

  /** The `t`-th element of the deduplicated list. */
  lemma DedupedAt(s: seq<NewsRecord>, t: nat)
    requires t < |FirstLinks(s)|
    ensures |Deduped(s)| == |FirstLinks(s)|
    ensures HasLink(s, FirstLinks(s)[t]) && Deduped(s)[t] == s[LastIndex(s, FirstLinks(s)[t])]
  {
  }

  /** `[...map.values()]` after building the Map. */
  method DedupByLink(s: seq<NewsRecord>) returns (unique: seq<NewsRecord>)
    ensures unique == Deduped(s)
  {
    var keys, byLink := BuildLinkMap(s);
    unique := [];
    var j := 0;
    while j < |keys|
      invariant 0 <= j <= |keys|
      invariant |unique| == j
      invariant forall t :: 0 <= t < j ==> unique[t] == byLink[keys[t]]
    {
      unique := unique + [byLink[keys[j]]];
      j := j + 1;
    }
    if |keys| == 0 {
      assert |Deduped(s)| == 0;
    }
    forall t | 0 <= t < |keys| ensures unique[t] == Deduped(s)[t] {
      DedupedAt(s, t);
    }
    if |keys| > 0 {
      DedupedAt(s, 0);
    }
  }

  /** When every link's records share one rank, deduplication keeps the
      sorted order: each survivor takes the place of a record of its rank. */
  lemma DedupKeepsOrderWhenDuplicatesShareRank(s: seq<NewsRecord>)
    requires Ordered(s)
    requires forall i, j :: 0 <= i < |s| && 0 <= j < |s| && s[i].link == s[j].link ==> RankOf(s[i]) == RankOf(s[j])
    ensures Ordered(Deduped(s))
  {
  }

  /** When one link has a political and a non-political record, the
      survivor can be non-political and still sit at the political record's
      place, ahead of a political record: the published list is then not
      political-first. */
  lemma DedupCanBreakPoliticalFirst()
    ensures
      var a := NewsRecord(None, "l", None, "", "h", true);
      var b := NewsRecord(None, "m", None, "", "h", true);
      var c := NewsRecord(None, "l", None, "", "h", false);
      Ordered([a, b, c]) && Deduped([a, b, c]) == [c, b] && !Ordered([c, b])
  {
    var a := NewsRecord(None, "l", None, "", "h", true);
    var b := NewsRecord(None, "m", None, "", "h", true);
    var c := NewsRecord(None, "l", None, "", "h", false);
    var s := [a, b, c];
    assert Before(b, c) && !Before(b, a) && !Before(c, a) && !Before(c, b);
    assert s[..2] == [a, b] && [a, b][..1] == [a] && [a][..0] == [];
    assert FirstLinks([a]) == ["l"];
    assert FirstLinks([a, b]) == ["l", "m"];
    assert FirstLinks(s) == ["l", "m"];
    DedupedAt(s, 0);
    DedupedAt(s, 1);
    assert LastIndex(s, "l") == 2;
    assert LastIndex(s, "m") == 1 by {
      assert s[..2][1].link == "m";
    }
  }

  /** Two records with one link: the later one survives. */
  lemma DedupLaterWins(r1: NewsRecord, r2: NewsRecord)
    requires r1.link == r2.link
    ensures Deduped([r1, r2]) == [r2]
  {
    var s := [r1, r2];
    assert s[..1] == [r1] && [r1][..0] == [];
    assert FirstLinks([r1]) == [r1.link];
    assert FirstLinks(s) == [r1.link];
    assert HasLink(s, r1.link);
    assert LastIndex(s, r1.link) == 1;
  }
}
