/** Result tables: rankings of catalog positions turned back into rows of the catalog, and the
    rankings behind the top-rated, trending and content-based queries. */
module Tables {
  import opened Basics
  import opened Ranking
  import opened Movies

  // ---------------------------------------------------------------- result tables

  /** `movies_df.iloc[indices]` with the entries' scores as a new column. */
  function ToScored(movies: seq<Movie>, es: seq<Entry>): (r: seq<Scored>)
    requires forall e :: e in es ==> 0 <= e.key < |movies|
    ensures |r| == |es| && ScoredRowsOf(movies, r)
    ensures forall k :: 0 <= k < |r| ==> r[k].index == es[k].key && r[k].score == es[k].score
  {
    seq(|es|, k requires 0 <= k < |es| => Scored(es[k].key, movies[es[k].key], es[k].score))
  }

  /** `movies_df.iloc[indices]`. */
  function ToRows(movies: seq<Movie>, es: seq<Entry>): (r: seq<Row>)
    requires forall e :: e in es ==> 0 <= e.key < |movies|
    ensures |r| == |es| && RowsOf(movies, r)
    ensures forall k :: 0 <= k < |r| ==> r[k].index == es[k].key
  {
    seq(|es|, k requires 0 <= k < |es| => Row(es[k].key, movies[es[k].key]))
  }

  predicate ScoresNonIncreasing(rows: seq<Scored>) {
    forall i, j :: 0 <= i < j < |rows| ==> rows[i].score >= rows[j].score
  }

  /** Higher score first, equal scores in catalog order. */
  predicate ScoresRanked(rows: seq<Scored>) {
    forall i, j :: 0 <= i < j < |rows| ==>
      rows[i].score > rows[j].score || (rows[i].score == rows[j].score && rows[i].index < rows[j].index)
  }

  function ScoredIndices(rows: seq<Scored>): set<int> {
    set x | x in rows :: x.index
  }

  function RowIndices(rows: seq<Row>): set<int> {
    set x | x in rows :: x.index
  }

  lemma ToScoredKeys(movies: seq<Movie>, es: seq<Entry>)
    requires forall e :: e in es ==> 0 <= e.key < |movies|
    ensures ScoredIndices(ToScored(movies, es)) == Keys(es)
  {
    var r := ToScored(movies, es);
    forall e | e in es ensures e.key in ScoredIndices(r) {
      var k :| 0 <= k < |es| && es[k] == e;
      assert r[k] in r;
    }
  }

  lemma ToRowsKeys(movies: seq<Movie>, es: seq<Entry>)
    requires forall e :: e in es ==> 0 <= e.key < |movies|
    ensures RowIndices(ToRows(movies, es)) == Keys(es)
  {
    var r := ToRows(movies, es);
    forall e | e in es ensures e.key in RowIndices(r) {
      var k :| 0 <= k < |es| && es[k] == e;
      assert r[k] in r;
    }
  }

  /** A row of `ToScored` is the catalog row of one of the entries, with that entry's score. */
  lemma ScoredEntry(movies: seq<Movie>, es: seq<Entry>, x: Scored)
    requires forall e :: e in es ==> 0 <= e.key < |movies|
    requires x in ToScored(movies, es)
    ensures Entry(x.index, x.score) in es && x.index < |movies| && x.movie == movies[x.index]
  {
    var r := ToScored(movies, es);
    var i :| 0 <= i < |r| && r[i] == x;
    assert es[i] in es;
  }

  /** A ranked list of entries becomes a ranked result table. */
  lemma ToScoredRanked(movies: seq<Movie>, es: seq<Entry>)
    requires forall e :: e in es ==> 0 <= e.key < |movies|
    requires Ranked(es)
    ensures ScoresRanked(ToScored(movies, es)) && ScoresNonIncreasing(ToScored(movies, es))
  {
    var r := ToScored(movies, es);
    forall i, j | 0 <= i < j < |r|
      ensures r[i].score > r[j].score || (r[i].score == r[j].score && r[i].index < r[j].index)
    {
      assert Precedes(es[i], es[j]);
    }
  }

  /** The top `n` of candidates listed by increasing catalog position, as a scored table: the
      `n` best candidates, ranked, and no candidate left out scores above a returned row. */
  lemma ScoredTop(movies: seq<Movie>, s: seq<Entry>, n: nat)
    requires forall e :: e in s ==> 0 <= e.key < |movies|
    requires IncreasingKeys(s)
    ensures var r := ToScored(movies, Top(s, n));
      && |r| == Min(n, |s|)
      && ScoresRanked(r) && ScoresNonIncreasing(r)
      && (forall x :: x in r ==> Entry(x.index, x.score) in s)
      && (forall e, x :: e in s && e.key !in ScoredIndices(r) && x in r ==> Precedes(Entry(x.index, x.score), e))
  {
    var top := Top(s, n);
    var r := ToScored(movies, top);
    ToScoredRanked(movies, top);
    ToScoredKeys(movies, top);
    forall x | x in r ensures Entry(x.index, x.score) in s {
      var i :| 0 <= i < |r| && r[i] == x;
      assert top[i] in top;
    }
    forall e, x | e in s && e.key !in ScoredIndices(r) && x in r ensures Precedes(Entry(x.index, x.score), e) {
      var i :| 0 <= i < |r| && r[i] == x;
      assert top[i] in top && top[i] == Entry(x.index, x.score);
      KeptPrecedes(s, n, e, top[i]);
    }
  }

  /** An entry whose key is left out of the top `n` is preceded by every kept entry. */
  lemma KeptPrecedes(s: seq<Entry>, n: nat, e: Entry, t: Entry)
    requires IncreasingKeys(s)
    requires e in s && e.key !in Keys(Top(s, n)) && t in Top(s, n)
    ensures Precedes(t, e)
  {
    var top := Top(s, n);
    assert forall y :: y in top ==> y.key in Keys(top);
  }

  // ---------------------------------------------------------------- rankings of the catalog

  /** The `rating` column, each value with its catalog position. */
  function RatingEntries(movies: seq<Movie>): (r: seq<Entry>)
    ensures |r| == |movies| && IncreasingKeys(r)
    ensures forall e :: e in r <==> 0 <= e.key < |movies| && e.score == movies[e.key].rating
  {
    Enumerate(seq(|movies|, i requires 0 <= i < |movies| => movies[i].rating))
  }

  /** `movies_df['year'] >= 2010`. */
  function RecentMask(movies: seq<Movie>): (r: seq<bool>)
    ensures |r| == |movies| && forall i :: 0 <= i < |movies| ==> (r[i] <==> movies[i].year >= 2010)
  {
    seq(|movies|, i requires 0 <= i < |movies| => movies[i].year >= 2010)
  }

  /** The `trend_score` column of the movies from 2010 on, each value with its catalog position. */
  function TrendEntries(movies: seq<Movie>): (r: seq<Entry>)
    ensures |r| == |Select(movies, RecentMask(movies))| && IncreasingKeys(r)
    ensures forall e :: e in r <==>
      0 <= e.key < |movies| && movies[e.key].year >= 2010 && e.score == TrendScore(movies[e.key])
  {
    var recent := Select(movies, RecentMask(movies));
    TrendColumnKeys(recent);
    TrendColumnMembers(movies);
    TrendColumn(recent)
  }

  /** One trend score per row, with the row's index label. */
  function TrendColumn(rows: seq<Row>): (r: seq<Entry>)
    ensures |r| == |rows|
    ensures forall k :: 0 <= k < |r| ==> r[k] == Entry(rows[k].index, TrendScore(rows[k].movie))
  {
    seq(|rows|, k requires 0 <= k < |rows| => Entry(rows[k].index, TrendScore(rows[k].movie)))
  }

  lemma TrendColumnKeys(rows: seq<Row>)
    requires IncreasingIndices(rows)
    ensures IncreasingKeys(TrendColumn(rows))
  {
  }

  lemma TrendColumnMembers(movies: seq<Movie>)
    ensures forall e :: e in TrendColumn(Select(movies, RecentMask(movies))) <==>
      0 <= e.key < |movies| && movies[e.key].year >= 2010 && e.score == TrendScore(movies[e.key])
  {
    var recent := Select(movies, RecentMask(movies));
    var r := TrendColumn(recent);
    forall e | e in r ensures 0 <= e.key < |movies| && movies[e.key].year >= 2010 && e.score == TrendScore(movies[e.key]) {
      var k :| 0 <= k < |r| && r[k] == e;
      assert recent[k] in recent;
    }
    forall e: Entry | 0 <= e.key < |movies| && movies[e.key].year >= 2010 && e.score == TrendScore(movies[e.key])
      ensures e in r
    {
      var k := PositionOf(recent, Row(e.key, movies[e.key]));
      assert r[k] == e;
    }
  }

  /** `get_trending_movies` on a table: the top `n` of the trend scores of the movies from 2010
      on, ranked, none left out scoring higher. */
  lemma TrendingFacts(movies: seq<Movie>, n: nat)
    ensures var r := ToScored(movies, Top(TrendEntries(movies), n));
      && ScoredRowsOf(movies, r) && ScoresRanked(r) && ScoresNonIncreasing(r)
      && |r| == Min(n, |Select(movies, RecentMask(movies))|)
      && (forall x :: x in r ==> x.movie.year >= 2010 && x.score == TrendScore(x.movie))
      && (forall k, x :: 0 <= k < |movies| && movies[k].year >= 2010 && k !in ScoredIndices(r) && x in r
            ==> TrendScore(movies[k]) < x.score || (TrendScore(movies[k]) == x.score && x.index < k))
  {
    var s := TrendEntries(movies);
    ScoredTop(movies, s, n);
    var r := ToScored(movies, Top(s, n));
    forall x | x in r ensures x.movie.year >= 2010 && x.score == TrendScore(x.movie) {
      assert Entry(x.index, x.score) in s;
    }
    forall k, x | 0 <= k < |movies| && movies[k].year >= 2010 && k !in ScoredIndices(r) && x in r
      ensures TrendScore(movies[k]) < x.score || (TrendScore(movies[k]) == x.score && x.index < k)
    {
      InTrendEntries(movies, k);
      assert Precedes(Entry(x.index, x.score), Entry(k, TrendScore(movies[k])));
    }
  }

  lemma InTrendEntries(movies: seq<Movie>, k: nat)
    requires k < |movies| && movies[k].year >= 2010
    ensures Entry(k, TrendScore(movies[k])) in TrendEntries(movies)
  {
  }

  /** `get_top_rated_movies` on a table: `nlargest(n, 'rating')`, as rows of the table. */
  function TopRatedRows(movies: seq<Movie>, n: nat): (r: seq<Row>)
    ensures |r| == Min(n, |movies|) && RowsOf(movies, r)
    ensures forall k :: 0 <= k < |r| ==> Entry(r[k].index, r[k].movie.rating) == Top(RatingEntries(movies), n)[k]
    ensures RowIndices(r) == Keys(Top(RatingEntries(movies), n))
  {
    var top := Top(RatingEntries(movies), n);
    ToRowsKeys(movies, top);
    assert forall k :: 0 <= k < |top| ==> top[k] in top;
    ToRows(movies, top)
  }

  /** The rows come highest rating first, equal ratings in catalog order. */
  lemma TopRatedOrdered(movies: seq<Movie>, n: nat)
    ensures var r := TopRatedRows(movies, n);
      forall i, j :: 0 <= i < j < |r| ==>
        r[i].movie.rating > r[j].movie.rating || (r[i].movie.rating == r[j].movie.rating && r[i].index < r[j].index)
  {
    var top := Top(RatingEntries(movies), n);
    var r := TopRatedRows(movies, n);
    forall i, j | 0 <= i < j < |r|
      ensures r[i].movie.rating > r[j].movie.rating || (r[i].movie.rating == r[j].movie.rating && r[i].index < r[j].index)
    {
      assert Precedes(top[i], top[j]);
    }
  }

  /** No movie left out is rated above a returned one. */
  lemma TopRatedDominates(movies: seq<Movie>, n: nat)
    ensures var r := TopRatedRows(movies, n);
      forall k, x :: 0 <= k < |movies| && k !in RowIndices(r) && x in r ==>
        movies[k].rating < x.movie.rating || (movies[k].rating == x.movie.rating && x.index < k)
  {
    var s := RatingEntries(movies);
    var top := Top(s, n);
    var r := TopRatedRows(movies, n);
    forall k, x | 0 <= k < |movies| && k !in RowIndices(r) && x in r
      ensures movies[k].rating < x.movie.rating || (movies[k].rating == x.movie.rating && x.index < k)
    {
      var i :| 0 <= i < |r| && r[i] == x;
      var e := Entry(k, movies[k].rating);
      assert e in s;
      assert top[i] in top && top[i] == Entry(x.index, x.movie.rating);
      KeptPrecedes(s, n, e, top[i]);
    }
  }

  /** The content-based selection from one similarity row, as a scored table. */
  lemma ContentFacts(movies: seq<Movie>, row: seq<real>, n: nat)
    requires |row| == |movies| >= 1
    ensures var r := ToScored(movies, RankAfterFirst(row, n));
      && |r| == Min(n, |movies| - 1)
      && ScoresRanked(r) && ScoresNonIncreasing(r)
      && (forall x :: x in r ==> x.score == row[x.index])
  {
    var kept := RankAfterFirst(row, n);
    ToScoredRanked(movies, kept);
    var r := ToScored(movies, kept);
    forall x | x in r ensures x.score == row[x.index] {
      var i :| 0 <= i < |r| && r[i] == x;
      assert kept[i] in kept;
    }
  }

  /** The position dropped by the content-based selection is the first-ranked one, and every
      kept position precedes every other position left out: it scores higher, or the same at an
      earlier position. */
  lemma ContentDropsFirstRanked(movies: seq<Movie>, row: seq<real>, n: nat)
    requires |row| == |movies| >= 1
    ensures var r := ToScored(movies, RankAfterFirst(row, n));
      var dropped := FirstRanked(row);
      && dropped !in ScoredIndices(r)
      && (forall k, x :: 0 <= k < |movies| && k != dropped && k !in ScoredIndices(r) && x in r ==>
            row[k] < x.score || (row[k] == x.score && x.index < k))
  {
    var kept := RankAfterFirst(row, n);
    var r := ToScored(movies, kept);
    FirstRankedDropped(row, n);
    AfterFirstIsTop(row, n);
    ToScoredKeys(movies, kept);
    forall k, x | 0 <= k < |movies| && k != FirstRanked(row) && k !in ScoredIndices(r) && x in r
      ensures row[k] < x.score || (row[k] == x.score && x.index < k)
    {
      var i :| 0 <= i < |r| && r[i] == x;
      assert kept[i] in kept && kept[i] == Entry(x.index, x.score);
      assert Precedes(kept[i], Entry(k, row[k]));
    }
  }

  /** A position strictly more similar than every other one is the one dropped. */
  lemma ContentExcludesStrictMax(movies: seq<Movie>, row: seq<real>, n: nat, seed: nat)
    requires |row| == |movies| && seed < |movies|
    requires forall k :: 0 <= k < |movies| && k != seed ==> row[k] < row[seed]
    ensures seed !in ScoredIndices(ToScored(movies, RankAfterFirst(row, n)))
  {
    assert FirstRanked(row) == seed;
    ContentDropsFirstRanked(movies, row, n);
  }
}
