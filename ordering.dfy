/** The `.sort` step: political records first, then newest first. */
module Ordering {
  import opened Wrappers
  import opened Articles

  /** The two things the comparator looks at. */
  datatype Rank = Rank(political: bool, date: Option<int>)

  function RankOf(a: NewsRecord): Rank
  {
    Rank(a.isPolitical, a.pubDate)
  }

  /** `d1` is a later date than `d2`; an absent date is older than any date. */
  predicate Later(d1: Option<int>, d2: Option<int>)
  {
    match d1
    case None => false
    case Some(x) => d2.None? || x > d2.value
  }

  /** The comparator returns a negative number: a political record beats a
      non-political one, and within one flag the later date wins. */
  predicate Outranks(k1: Rank, k2: Rank)
    ensures Outranks(k1, k2) ==> k1 != k2 && (k1.political || !k2.political)
    ensures k1.political && !k2.political ==> Outranks(k1, k2)
  {
    (k1.political && !k2.political) || (k1.political == k2.political && Later(k1.date, k2.date))
  }

  predicate Before(a: NewsRecord, b: NewsRecord)
  {
    Outranks(RankOf(a), RankOf(b))
  }

  /** `Outranks` is a strict weak order: irreflexive, and whatever sits
      between two ranks is outranked by one or outranks the other. */
  lemma OutranksIsStrictWeakOrder(k1: Rank, k2: Rank, k3: Rank)
    ensures !Outranks(k1, k1)
    ensures Outranks(k1, k2) ==> !Outranks(k2, k1)
    ensures Outranks(k1, k3) ==> Outranks(k1, k2) || Outranks(k2, k3)
  {
  }

  /** No record is placed after one it outranks. */
  predicate Ordered(s: seq<NewsRecord>)
  {
    forall i, j :: 0 <= i < j < |s| ==> !Before(s[j], s[i])
  }

  /** The records of one rank, in their order in `s`. */
  function RankClass(s: seq<NewsRecord>, k: Rank): (c: seq<NewsRecord>)
    ensures |c| <= |s|
  {
    if s == [] then []
    else if RankOf(s[0]) == k then [s[0]] + RankClass(s[1..], k)
    else RankClass(s[1..], k)
  }

  /** Insert `x` before the first record that does not outrank it. */
  function Insert(x: NewsRecord, t: seq<NewsRecord>): (r: seq<NewsRecord>)
    ensures |r| == |t| + 1
  {
    if t == [] || !Before(t[0], x) then [x] + t
    else [t[0]] + Insert(x, t[1..])
  }

  /** Inserting adds exactly `x`. */
  lemma {:induction false} InsertPermutes(x: NewsRecord, t: seq<NewsRecord>)
    ensures multiset(Insert(x, t)) == multiset(t) + multiset{x}
  {
    if t != [] && Before(t[0], x) {
      InsertPermutes(x, t[1..]);
      assert t == [t[0]] + t[1..];
    }
  }

  /** Inserting into an ordered list keeps it ordered. */
  lemma {:induction false} InsertOrdered(x: NewsRecord, t: seq<NewsRecord>)
    requires Ordered(t)
    ensures Ordered(Insert(x, t))
  {
    var r := Insert(x, t);
    if t == [] || !Before(t[0], x) {
      assert r[1..] == t;
      forall j | 1 <= j < |r| ensures !Before(r[j], r[0]) {
        OutranksIsStrictWeakOrder(RankOf(r[j]), RankOf(t[0]), RankOf(x));
      }
    } else {
      var rest := Insert(x, t[1..]);
      InsertOrdered(x, t[1..]);
      InsertPermutes(x, t[1..]);
      assert r[1..] == rest;
      forall j | 1 <= j < |r| ensures !Before(r[j], r[0]) {
        assert r[j] in multiset(rest);
        if r[j] != x {
          assert r[j] in multiset(t[1..]);
          var m :| 0 <= m < |t[1..]| && t[1..][m] == r[j];
          assert t[m + 1] == r[j];
        } else {
          OutranksIsStrictWeakOrder(RankOf(t[0]), RankOf(x), RankOf(x));
        }
      }
    }
  }

  /** Inserting into an ordered list puts `x` ahead of every record of its
      own rank and leaves the other ranks' records in place: the insertion is
      stable for an element that came first in the input. */
  lemma {:induction false} InsertRankClass(x: NewsRecord, t: seq<NewsRecord>, k: Rank)
    requires Ordered(t)
    ensures RankClass(Insert(x, t), k) == if RankOf(x) == k then [x] + RankClass(t, k) else RankClass(t, k)
  {
    var r := Insert(x, t);
    if t == [] || !Before(t[0], x) {
      assert r[1..] == t;
    } else {
      assert r[1..] == Insert(x, t[1..]);
      InsertRankClass(x, t[1..], k);
      OutranksIsStrictWeakOrder(RankOf(t[0]), RankOf(x), RankOf(x));
    }
  }

  /** The comparator sort. JavaScript's `Array.prototype.sort` is stable, so
      records the comparator calls equal keep their input order. */
  function SortNews(s: seq<NewsRecord>): (r: seq<NewsRecord>)
    ensures multiset(r) == multiset(s)
    ensures forall i, j :: 0 <= i < j < |r| && r[j].isPolitical ==> r[i].isPolitical
    ensures forall i, j :: 0 <= i < j < |r| && r[i].isPolitical == r[j].isPolitical ==> !Later(r[j].pubDate, r[i].pubDate)
    ensures Ordered(r)
    ensures forall k :: RankClass(r, k) == RankClass(s, k)
  {
    if s == [] then []
    else
      assert s == [s[0]] + s[1..];
      var t := SortNews(s[1..]);
      InsertPermutes(s[0], t);
      InsertOrdered(s[0], t);
      assert forall k :: RankClass(Insert(s[0], t), k) == RankClass(s, k) by {
        forall k ensures RankClass(Insert(s[0], t), k) == RankClass(s, k) {
          InsertRankClass(s[0], t, k);
        }
      }
      Insert(s[0], t)
  }

  /** Two records of one rank keep their input order. */
  lemma SortKeepsEqualRankOrder(r1: NewsRecord, r2: NewsRecord)
    requires RankOf(r1) == RankOf(r2)
    ensures SortNews([r1, r2]) == [r1, r2]
  {
  }
}
