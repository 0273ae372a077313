/** Ranking by score, as the engine does it with `sorted(..., key=score, reverse=True)`
    followed by a slice: a stable sort into non-increasing score order, then a prefix
    (or, for content-based lookup, the prefix after position 0). */
module Ranking {
  import opened Basics

  /** A candidate: a key (a catalog position or a movie id) and its score. */
  datatype Entry = Entry(key: int, score: real)

  predicate NonIncreasing(s: seq<Entry>) {
    forall i, j :: 0 <= i < j < |s| ==> s[i].score >= s[j].score
  }

  predicate IncreasingKeys(s: seq<Entry>) {
    forall i, j :: 0 <= i < j < |s| ==> s[i].key < s[j].key
  }

  /** The order a stable descending sort gives to candidates listed by increasing key:
      higher score first, equal scores by increasing key. */
  predicate Precedes(a: Entry, b: Entry) {
    a.score > b.score || (a.score == b.score && a.key < b.key)
  }

  predicate Ranked(s: seq<Entry>) {
    forall i, j :: 0 <= i < j < |s| ==> Precedes(s[i], s[j])
  }

  function Keys(s: seq<Entry>): set<int> {
    set e | e in s :: e.key
  }

  /** `list(enumerate(row))`: each score paired with its position. */
  function Enumerate(row: seq<real>): (r: seq<Entry>)
    ensures |r| == |row| && IncreasingKeys(r)
    ensures forall e :: e in r <==> 0 <= e.key < |row| && e.score == row[e.key]
  {
    var r := seq(|row|, k requires 0 <= k < |row| => Entry(k, row[k]));
    assert forall k :: 0 <= k < |row| ==> r[k] == Entry(k, row[k]);
    assert forall e :: e in r ==> r[e.key] == e;
    r
  }

  /** Inserts `e` after every element whose score is at least `e.score`. */
  function Insert(s: seq<Entry>, e: Entry): (r: seq<Entry>)
    ensures multiset(r) == multiset(s) + multiset{e}
  {
    if s == [] then [e]
    else if s[0].score >= e.score then
      assert s == [s[0]] + s[1..];
      [s[0]] + Insert(s[1..], e)
    else
      [e] + s
  }

  lemma InsertFrom(s: seq<Entry>, e: Entry, x: Entry)
    requires x in Insert(s, e)
    ensures x in s || x == e
  {
    assert x in multiset(Insert(s, e));
  }

  lemma {:induction false} InsertNonIncreasing(s: seq<Entry>, e: Entry)
    requires NonIncreasing(s)
    ensures NonIncreasing(Insert(s, e))
  {
    if s != [] && s[0].score >= e.score {
      var t := Insert(s[1..], e);
      InsertNonIncreasing(s[1..], e);
      forall j | 0 <= j < |t| ensures s[0].score >= t[j].score {
        InsertFrom(s[1..], e, t[j]);
      }
    }
  }

  /** Python's `sorted(s, key=lambda x: x.score, reverse=True)`: an insertion sort that keeps
      equal scores in their original order. */
  function SortDesc(s: seq<Entry>): (r: seq<Entry>)
    ensures multiset(r) == multiset(s) && |r| == |s|
    ensures NonIncreasing(r)
  {
    if s == [] then []
    else
      assert s == s[..|s| - 1] + [s[|s| - 1]];
      InsertNonIncreasing(SortDesc(s[..|s| - 1]), s[|s| - 1]);
      Insert(SortDesc(s[..|s| - 1]), s[|s| - 1])
  }

  lemma {:induction false} InsertRanked(s: seq<Entry>, e: Entry)
    requires Ranked(s)
    requires forall x :: x in s ==> x.key < e.key
    ensures Ranked(Insert(s, e))
  {
    if s != [] && s[0].score >= e.score {
      var t := Insert(s[1..], e);
      InsertRanked(s[1..], e);
      forall j | 0 <= j < |t| ensures Precedes(s[0], t[j]) {
        InsertFrom(s[1..], e, t[j]);
      }
    }
  }

  /** The sort is stable: candidates listed by increasing key come out ranked, ties by key. */
  lemma {:induction false} SortDescRanked(s: seq<Entry>)
    requires IncreasingKeys(s)
    ensures Ranked(SortDesc(s))
  {
    if s != [] {
      var init := s[..|s| - 1];
      SortDescRanked(init);
      forall x | x in SortDesc(init) ensures x.key < s[|s| - 1].key {
        assert x in multiset(SortDesc(init));
      }
      InsertRanked(SortDesc(init), s[|s| - 1]);
    }
  }

  /** An element of `s` that is not among the first `n` of its ranking scores no higher
      than any of them. */
  lemma TopDominates(s: seq<Entry>, n: nat, e: Entry, x: Entry)
    requires e in s && e !in Take(SortDesc(s), n)
    requires x in Take(SortDesc(s), n)
    ensures x.score >= e.score
  {
    var sorted := SortDesc(s);
    var top := Take(sorted, n);
    assert e in multiset(sorted);
    var j :| 0 <= j < |sorted| && sorted[j] == e;
    var i :| 0 <= i < |top| && top[i] == x;
    assert forall k :: 0 <= k < |top| ==> sorted[k] == top[k] && top[k] != e;
  }

  /** For candidates listed by increasing key, every kept entry precedes every entry left out:
      higher score, or the same score at an earlier position (`nlargest`'s `keep='first'`). */
  lemma TopPrecedes(s: seq<Entry>, n: nat, e: Entry, x: Entry)
    requires IncreasingKeys(s)
    requires e in s && e !in Take(SortDesc(s), n)
    requires x in Take(SortDesc(s), n)
    ensures Precedes(x, e)
  {
    var sorted := SortDesc(s);
    var top := Take(sorted, n);
    SortDescRanked(s);
    assert e in multiset(sorted);
    var j :| 0 <= j < |sorted| && sorted[j] == e;
    var i :| 0 <= i < |top| && top[i] == x;
    assert forall k :: 0 <= k < |top| ==> sorted[k] == top[k] && top[k] != e;
    assert i < j;
  }

  lemma RankedNonIncreasing(s: seq<Entry>)
    requires Ranked(s)
    ensures NonIncreasing(s)
  {
    forall i, j | 0 <= i < j < |s| ensures s[i].score >= s[j].score {
      assert Precedes(s[i], s[j]);
    }
  }

  /** `sorted(s, key=score, reverse=True)[:n]` for candidates listed by increasing key: the `n`
      best candidates, ties by key, and no candidate left out scores above a kept one. */
  function Top(s: seq<Entry>, n: nat): (top: seq<Entry>)
    requires IncreasingKeys(s)
    ensures top == Take(SortDesc(s), n)
    ensures |top| == Min(n, |s|)
    ensures Ranked(top) && NonIncreasing(top)
    ensures forall x :: x in top ==> x in s
    ensures forall e, x :: e in s && e !in top && x in top ==> Precedes(x, e)
  {
    var sorted := SortDesc(s);
    var top := Take(sorted, n);
    SortDescRanked(s);
    RankedNonIncreasing(top);
    assert forall x :: x in top ==> x in multiset(sorted);
    forall e, x | e in s && e !in top && x in top ensures Precedes(x, e) {
      TopPrecedes(s, n, e, x);
    }
    top
  }

  /** `sorted(...)[1:n+1]`: the ranking with its first entry dropped, at most `n` kept. */
  function AfterFirst(ranked: seq<Entry>, n: nat): (r: seq<Entry>)
    requires |ranked| >= 1
    ensures r == Take(ranked[1..], n)
  {
    ranked[1..Min(n + 1, |ranked|)]
  }

  /** In a non-increasing ranking, a candidate left out of `AfterFirst` (other than the
      dropped first one) scores no higher than any kept entry. */
  lemma AfterFirstDominates(ranked: seq<Entry>, n: nat, e: Entry, x: Entry)
    requires |ranked| >= 1 && Ranked(ranked)
    requires e in ranked && e.key != ranked[0].key && e.key !in Keys(AfterFirst(ranked, n))
    requires x in AfterFirst(ranked, n)
    ensures Precedes(x, e)
  {
    var r := AfterFirst(ranked, n);
    var j :| 0 <= j < |ranked| && ranked[j] == e;
    var i :| 0 <= i < |r| && r[i] == x;
    assert ranked[i + 1] == x;
    assert forall m :: 1 <= m <= |r| ==> ranked[m] == r[m - 1] && r[m - 1] in r;
    assert forall m :: 1 <= m <= |r| ==> ranked[m].key in Keys(r);
    assert i + 1 < j;
  }

  /** The content-based selection from one similarity row: the stable descending ranking of
      the row with its first-ranked entry dropped, `n` kept. It is ranked and made of the
      row's own positions and scores. */
  function RankAfterFirst(row: seq<real>, n: nat): (r: seq<Entry>)
    requires |row| >= 1
    ensures r == AfterFirst(SortDesc(Enumerate(row)), n)
    ensures |r| == Min(n, |row| - 1)
    ensures Ranked(r) && NonIncreasing(r)
    ensures forall x :: x in r ==> 0 <= x.key < |row| && x.score == row[x.key]
  {
    var ranked := SortDesc(Enumerate(row));
    SortedRowEntries(row);
    RankedSlice(ranked, 1, Min(n + 1, |ranked|));
    ranked[1..Min(n + 1, |ranked|)]
  }

  /** The stable descending sort of a row is ranked and holds the row's own positions and
      scores. */
  lemma SortedRowEntries(row: seq<real>)
    ensures Ranked(SortDesc(Enumerate(row)))
    ensures forall x :: x in SortDesc(Enumerate(row)) ==> 0 <= x.key < |row| && x.score == row[x.key]
  {
    var s := Enumerate(row);
    SortDescRanked(s);
    forall x | x in SortDesc(s) ensures 0 <= x.key < |row| && x.score == row[x.key] {
      assert x in multiset(s);
    }
  }

  /** A slice of a ranked sequence is ranked and non-increasing. */
  lemma RankedSlice(s: seq<Entry>, i: nat, j: nat)
    requires Ranked(s) && i <= j <= |s|
    ensures Ranked(s[i..j]) && NonIncreasing(s[i..j])
  {
    RankedNonIncreasing(s[i..j]);
  }

  /** The dropped first-ranked position scores at least as high as any position of the row. */
  lemma FirstRankedIsMax(row: seq<real>)
    requires |row| >= 1
    ensures var ranked := SortDesc(Enumerate(row));
      forall k :: 0 <= k < |row| ==> row[k] <= ranked[0].score
  {
    var ranked := SortDesc(Enumerate(row));
    forall k | 0 <= k < |row| ensures row[k] <= ranked[0].score {
      assert Entry(k, row[k]) in multiset(ranked);
    }
  }

  /** The dropped first-ranked position is not among the kept ones. */
  lemma FirstRankedDropped(row: seq<real>, n: nat)
    requires |row| >= 1
    ensures var ranked := SortDesc(Enumerate(row));
      ranked[0].key !in Keys(AfterFirst(ranked, n))
  {
    var s := Enumerate(row);
    var ranked := SortDesc(s);
    var r := AfterFirst(ranked, n);
    SortDescRanked(s);
    forall x | x in r ensures x.key != ranked[0].key {
      var i :| 0 <= i < |r| && r[i] == x;
      assert Precedes(ranked[0], ranked[i + 1]);
      assert ranked[0] in multiset(s) && x in multiset(s);
    }
  }

  /** Every kept position precedes every position left out other than the dropped one: it
      scores higher, or the same at an earlier position. */
  lemma AfterFirstIsTop(row: seq<real>, n: nat)
    requires |row| >= 1
    ensures var ranked := SortDesc(Enumerate(row));
      var r := AfterFirst(ranked, n);
      forall k: nat, x :: k < |row| && k != ranked[0].key && k !in Keys(r) && x in r ==> Precedes(x, Entry(k, row[k]))
  {
    var ranked := SortDesc(Enumerate(row));
    var r := AfterFirst(ranked, n);
    SortDescRanked(Enumerate(row));
    forall k: nat, x | k < |row| && k != ranked[0].key && k !in Keys(r) && x in r
      ensures Precedes(x, Entry(k, row[k]))
    {
      assert Entry(k, row[k]) in multiset(ranked);
      AfterFirstDominates(ranked, n, Entry(k, row[k]), x);
    }
  }

  /** The position `sorted(...)[0]` names, which the content-based selection drops: a position
      scoring at least as high as every other. */
  function FirstRanked(row: seq<real>): (d: nat)
    requires |row| >= 1
    ensures d < |row| && d == SortDesc(Enumerate(row))[0].key
    ensures forall k :: 0 <= k < |row| ==> row[k] <= row[d]
  {
    var ranked := SortDesc(Enumerate(row));
    FirstRankedIsMax(row);
    assert ranked[0] in multiset(Enumerate(row));
    ranked[0].key
  }

  /** The position dropped is the lowest of the most similar ones: it comes no later than any
      position scoring at least as high as every position. */
  lemma FirstRankedLowest(row: seq<real>, j: nat)
    requires j < |row|
    requires forall k :: 0 <= k < |row| ==> row[k] <= row[j]
    ensures FirstRanked(row) <= j
  {
    var s := Enumerate(row);
    var ranked := SortDesc(s);
    SortDescRanked(s);
    assert ranked[0] in multiset(s);
    assert Entry(j, row[j]) in multiset(ranked);
    var i :| 0 <= i < |ranked| && ranked[i] == Entry(j, row[j]);
    if i > 0 {
      assert Precedes(ranked[0], ranked[i]);
    }
  }

  /** A position tied with a most similar seed at an earlier position is dropped in the seed's
      place, so the seed is not the position dropped. */
  lemma EarlierTieSparesSeed(row: seq<real>, seed: nat, j: nat)
    requires j < seed < |row|
    requires forall k :: 0 <= k < |row| ==> row[k] <= row[seed]
    requires row[j] == row[seed]
    ensures FirstRanked(row) != seed
  {
    FirstRankedLowest(row, j);
  }

  /** Once `n` reaches the number of other positions, every position but the dropped one is
      kept. */
  lemma AllButFirstKept(row: seq<real>, n: nat, k: nat)
    requires k < |row| && n >= |row| - 1
    requires k != FirstRanked(row)
    ensures k in Keys(RankAfterFirst(row, n))
  {
    var ranked := SortDesc(Enumerate(row));
    assert Entry(k, row[k]) in multiset(ranked);
    var i :| 0 <= i < |ranked| && ranked[i] == Entry(k, row[k]);
    var r := RankAfterFirst(row, n);
    assert r == ranked[1..];
    assert r[i - 1] in r;
  }
}
