/** The blend step of `get_hybrid_recommendations`: the two score maps, the 0.5/0.5 blend over
    the union of their ids, and the top `n` of it as rows of the catalog. */
module Blend {
  import opened Basics
  import opened Ranking
  import opened Movies
  import opened Tables
  import opened Profile

  /** What `get_hybrid_recommendations` returns: the head of one source when the other is
      empty, or the blended table with its `hybrid_score` column. */
  datatype HybridRecs =
    | FromProfile(profile: ProfileRecs)
    | FromContent(content: seq<Scored>)
    | Blended(blend: seq<Scored>)

  function ScoredIds(recs: seq<Scored>): set<int> {
    set x | x in recs :: x.movie.movieId
  }

  function RowIds(rows: seq<Row>): set<int> {
    set x | x in rows :: x.movie.movieId
  }

  /** `dict(zip(recs['movie_id'], recs[score_column]))`: every id of the table, with the score
      of its last row. */
  function ScoreMap(recs: seq<Scored>): (m: map<int, real>)
    ensures m.Keys == ScoredIds(recs)
    ensures forall k :: 0 <= k < |recs| && (forall j :: k < j < |recs| ==> recs[j].movie.movieId != recs[k].movie.movieId)
              ==> m[recs[k].movie.movieId] == recs[k].score
    decreases |recs|
  {
    if recs == [] then map[]
    else
      var last := recs[|recs| - 1];
      var init := recs[..|recs| - 1];
      assert recs == init + [last];
      ScoreMap(init)[last.movie.movieId := last.score]
  }

  /** The profile side's score map. The top-rated fallback has no `recommendation_score`
      column, so each of its ids scores 1. */
  function ProfileScoreMap(p: ProfileRecs): (m: map<int, real>)
    ensures p.TopRatedFallback? ==> m.Keys == RowIds(p.rows) && forall id :: id in m ==> m[id] == 1.0
    ensures p.ProfileRanked? ==> m.Keys == ScoredIds(p.recs) && m == ScoreMap(p.recs)
  {
    match p
    case TopRatedFallback(rows) => map id | id in RowIds(rows) :: 1.0
    case ProfileRanked(recs) => ScoreMap(recs)
  }

  /** `DataFrame.empty` for the profile side. */
  predicate IsEmpty(p: ProfileRecs) {
    match p
    case TopRatedFallback(rows) => rows == []
    case ProfileRanked(recs) => recs == []
  }

  /** `DataFrame.head(n)` for the profile side. */
  function Head(p: ProfileRecs, n: nat): (r: ProfileRecs)
    ensures r.TopRatedFallback? == p.TopRatedFallback?
    ensures p.TopRatedFallback? ==> r.rows == Take(p.rows, n)
    ensures p.ProfileRanked? ==> r.recs == Take(p.recs, n)
  {
    match p
    case TopRatedFallback(rows) => TopRatedFallback(Take(rows, n))
    case ProfileRanked(recs) => ProfileRanked(Take(recs, n))
  }

  /** `scores.get(movie_id, 0)`. */
  function Get(m: map<int, real>, id: int): real {
    if id in m then m[id] else 0.0
  }

  /** `content_scores.get(id, 0) * 0.5 + collab_scores.get(id, 0) * 0.5`. */
  function BlendScore(cs: map<int, real>, ps: map<int, real>, id: int): (b: real)
    ensures Get(cs, id) <= b <= Get(ps, id) || Get(ps, id) <= b <= Get(cs, id)
    ensures id !in cs && id !in ps ==> b == 0.0
  {
    Get(cs, id) * 0.5 + Get(ps, id) * 0.5
  }

  /** An id on one side only gets half its score there. */
  lemma OneSidedBlend(cs: map<int, real>, ps: map<int, real>, id: int)
    requires id in cs.Keys + ps.Keys
    ensures id !in ps ==> BlendScore(cs, ps, id) == cs[id] / 2.0
    ensures id !in cs ==> BlendScore(cs, ps, id) == ps[id] / 2.0
  {
  }

  predicate Distinct(s: seq<int>) {
    forall i, j :: 0 <= i < j < |s| ==> s[i] != s[j]
  }

  /** The first occurrence of each element, in order. */
  function Dedup(s: seq<int>): (r: seq<int>)
    ensures Distinct(r)
    ensures forall x :: x in r <==> x in s
    decreases |s|
  {
    if s == [] then []
    else
      var init := Dedup(s[..|s| - 1]);
      var last := s[|s| - 1];
      assert s == s[..|s| - 1] + [last];
      if last in init then init else init + [last]
  }

  /** The `movie_id` column of a scored table. */
  function ScoredIdColumn(recs: seq<Scored>): (r: seq<int>)
    ensures |r| == |recs| && forall k :: 0 <= k < |r| ==> r[k] == recs[k].movie.movieId
    ensures forall id :: id in r <==> id in ScoredIds(recs)
  {
    var r := seq(|recs|, k requires 0 <= k < |recs| => recs[k].movie.movieId);
    assert forall x :: x in recs ==> x.movie.movieId in r by {
      forall x | x in recs ensures x.movie.movieId in r {
        var k :| 0 <= k < |recs| && recs[k] == x;
        assert r[k] == x.movie.movieId;
      }
    }
    r
  }

  /** The `movie_id` column of a table without a score. */
  function RowIdColumn(rows: seq<Row>): (r: seq<int>)
    ensures |r| == |rows| && forall k :: 0 <= k < |r| ==> r[k] == rows[k].movie.movieId
    ensures forall id :: id in r <==> id in RowIds(rows)
  {
    var r := seq(|rows|, k requires 0 <= k < |rows| => rows[k].movie.movieId);
    assert forall x :: x in rows ==> x.movie.movieId in r by {
      forall x | x in rows ensures x.movie.movieId in r {
        var k :| 0 <= k < |rows| && rows[k] == x;
        assert r[k] == x.movie.movieId;
      }
    }
    r
  }

  /** The `movie_id` column of the profile side. */
  function ProfileIdColumn(p: ProfileRecs): (r: seq<int>)
    ensures forall id :: id in r <==> id in ProfileScoreMap(p)
  {
    match p
    case TopRatedFallback(rows) => RowIdColumn(rows)
    case ProfileRanked(recs) => ScoredIdColumn(recs)
  }

  /** One iteration order for `all_movie_ids = set(content ids) | set(profile ids)`: each id of
      the union once. */
  function UnionOrder(contentIds: seq<int>, profileIds: seq<int>): (order: seq<int>)
    ensures Distinct(order) && (forall id :: id in order <==> id in contentIds || id in profileIds)
  {
    Dedup(contentIds + profileIds)
  }

  /** The loop filling `hybrid_scores`, visiting the ids of the union in the order `allMovieIds`
      (Python's set iteration order, which the contract does not depend on). `items` is
      `hybrid_scores.items()`. */
  method FillHybridScores(cs: map<int, real>, ps: map<int, real>, allMovieIds: seq<int>)
      returns (hybridScores: map<int, real>, items: seq<Entry>)
    requires Distinct(allMovieIds) && forall id :: id in allMovieIds <==> id in cs.Keys + ps.Keys
    ensures hybridScores.Keys == cs.Keys + ps.Keys
    ensures forall id :: id in hybridScores ==> hybridScores[id] == BlendScore(cs, ps, id)
    ensures forall e :: e in items <==> e.key in hybridScores && e.score == hybridScores[e.key]
    ensures |items| == |hybridScores.Keys| && Keys(items) == hybridScores.Keys
  {
    hybridScores := map[];
    items := [];
    for i := 0 to |allMovieIds|
      invariant forall id :: id in hybridScores <==> id in allMovieIds[..i]
      invariant forall id :: id in hybridScores ==> hybridScores[id] == BlendScore(cs, ps, id)
      invariant |items| == i
      invariant forall k :: 0 <= k < i ==> items[k] == Entry(allMovieIds[k], BlendScore(cs, ps, allMovieIds[k]))
    {
      var movieId := allMovieIds[i];
      hybridScores := hybridScores[movieId := BlendScore(cs, ps, movieId)];
      items := items + [Entry(movieId, BlendScore(cs, ps, movieId))];
    }
    assert allMovieIds[..|allMovieIds|] == allMovieIds;
    assert forall id :: id in hybridScores <==> id in allMovieIds;
    assert hybridScores.Keys == cs.Keys + ps.Keys;
    ItemsOfOrder(allMovieIds, hybridScores, items);
  }

  /** `hybrid_scores.items()` after the loop: one entry per visited id, with its score. */
  lemma ItemsOfOrder(order: seq<int>, m: map<int, real>, items: seq<Entry>)
    requires Distinct(order)
    requires forall id :: id in m <==> id in order
    requires |items| == |order|
    requires forall k :: 0 <= k < |items| ==> items[k].key == order[k] && items[k].key in m && items[k].score == m[order[k]]
    ensures forall e :: e in items <==> e.key in m && e.score == m[e.key]
    ensures |items| == |m.Keys| && Keys(items) == m.Keys
  {
    forall e: Entry | e.key in m && e.score == m[e.key] ensures e in items {
      var k :| 0 <= k < |order| && order[k] == e.key;
      assert items[k] == e;
    }
    forall id | id in m ensures id in Keys(items) {
      assert Entry(id, m[id]) in items;
    }
    forall id | id in Keys(items) ensures id in m {
      var e :| e in items && e.key == id;
    }
    assert Keys(items) == m.Keys;
    DistinctKeysCount(items);
  }

  lemma KeysAppend(s: seq<Entry>, e: Entry)
    ensures Keys(s + [e]) == Keys(s) + {e.key}
  {
    assert forall x :: x in s + [e] <==> x in s || x == e;
  }

  /** Entries with pairwise distinct keys have as many keys as entries. */
  lemma {:induction false} DistinctKeysCount(s: seq<Entry>)
    requires forall i, j :: 0 <= i < j < |s| ==> s[i].key != s[j].key
    ensures |Keys(s)| == |s|
    decreases |s|
  {
    if s != [] {
      var init := s[..|s| - 1];
      var last := s[|s| - 1];
      assert s == init + [last];
      DistinctKeysCount(init);
      KeysAppend(init, last);
      assert last.key !in Keys(init);
    }
  }

  // ---------------------------------------------------------------- the top n of the blend

  /** `top_movie_ids`: the ids of the first `n` items of the stable descending sort. */
  function TopIds(items: seq<Entry>, n: nat): (ids: set<int>)
    ensures ids <= Keys(items)
  {
    var top := Take(SortDesc(items), n);
    assert forall e :: e in top ==> e in multiset(items);
    Keys(top)
  }

  /** `movies_df['movie_id'].isin(ids)`. */
  function IdMask(movies: seq<Movie>, ids: set<int>): (r: seq<bool>)
    ensures |r| == |movies| && forall i :: 0 <= i < |movies| ==> (r[i] <==> movies[i].movieId in ids)
  {
    seq(|movies|, i requires 0 <= i < |movies| => movies[i].movieId in ids)
  }

  /** The `hybrid_score` column: each picked row's id looked up in the blend (`Series.map` over
      a dict holding every picked id). */
  function HybridColumn(picked: seq<Row>, hybridScores: map<int, real>): (r: seq<Entry>)
    ensures |r| == |picked|
    ensures forall k :: 0 <= k < |r| ==> r[k] == Entry(picked[k].index, Get(hybridScores, picked[k].movie.movieId))
  {
    seq(|picked|, k requires 0 <= k < |picked| => Entry(picked[k].index, Get(hybridScores, picked[k].movie.movieId)))
  }

  /** An entry of the `hybrid_score` column names a picked catalog row and carries the blended
      score of its id. */
  lemma ColumnEntry(movies: seq<Movie>, picked: seq<Row>, hybridScores: map<int, real>, e: Entry)
    requires RowsOf(movies, picked)
    requires e in HybridColumn(picked, hybridScores)
    ensures 0 <= e.key < |movies| && Row(e.key, movies[e.key]) in picked
    ensures e.score == Get(hybridScores, movies[e.key].movieId)
  {
    var column := HybridColumn(picked, hybridScores);
    var k :| 0 <= k < |column| && column[k] == e;
    assert picked[k] in picked;
  }

  /** A picked row's id is one of the ids asked for. */
  lemma PickedId(movies: seq<Movie>, ids: set<int>, i: nat)
    requires i < |movies| && Row(i, movies[i]) in Select(movies, IdMask(movies, ids))
    ensures movies[i].movieId in ids
  {
  }

  /** The sorted column names catalog positions only. */
  lemma SortedColumnKeys(movies: seq<Movie>, ids: set<int>, hybridScores: map<int, real>)
    ensures forall e :: e in SortDesc(HybridColumn(Select(movies, IdMask(movies, ids)), hybridScores)) ==> 0 <= e.key < |movies|
  {
    var column := HybridColumn(Select(movies, IdMask(movies, ids)), hybridScores);
    forall e | e in SortDesc(column) ensures 0 <= e.key < |movies| {
      assert e in multiset(column);
      ColumnEntry(movies, Select(movies, IdMask(movies, ids)), hybridScores, e);
    }
  }

  /** Lines 105-110: the catalog rows of the top `n` blended ids, each with its blended score,
      sorted by that score, highest first. */
  function RankBlend(movies: seq<Movie>, hybridScores: map<int, real>, items: seq<Entry>, n: nat): (r: seq<Scored>)
    ensures ScoredRowsOf(movies, r)
  {
    var ids := TopIds(items, n);
    SortedColumnKeys(movies, ids, hybridScores);
    ToScored(movies, SortDesc(HybridColumn(Select(movies, IdMask(movies, ids)), hybridScores)))
  }

  /** What the blended table promises: catalog rows, no id twice, `min(n, |union|)` of them,
      highest blended score first, each scored `0.5 * content + 0.5 * profile`, and no id of the
      union left out scores above a returned row. */
  predicate IsBlend(movies: seq<Movie>, cs: map<int, real>, ps: map<int, real>, n: nat, rows: seq<Scored>) {
    && ScoredRowsOf(movies, rows)
    && ScoresNonIncreasing(rows)
    && |ScoredIds(rows)| == |rows| == Min(n, |cs.Keys + ps.Keys|)
    && (forall x :: x in rows ==> x.movie.movieId in cs.Keys + ps.Keys && x.score == BlendScore(cs, ps, x.movie.movieId))
    && (forall id, x :: id in cs.Keys + ps.Keys && id !in ScoredIds(rows) && x in rows ==> BlendScore(cs, ps, id) <= x.score)
  }

  /** Every id is the id of some catalog row. */
  predicate InCatalog(movies: seq<Movie>, ids: set<int>) {
    forall id :: id in ids ==> exists i :: 0 <= i < |movies| && movies[i].movieId == id
  }

  /** Both sides' ids are ids of catalog rows. */
  lemma SidesInCatalog(movies: seq<Movie>, content: seq<Scored>, profile: ProfileRecs)
    requires ScoredRowsOf(movies, content)
    requires profile.TopRatedFallback? ==> RowsOf(movies, profile.rows)
    requires profile.ProfileRanked? ==> ScoredRowsOf(movies, profile.recs)
    ensures InCatalog(movies, ScoreMap(content).Keys + ProfileScoreMap(profile).Keys)
  {
    forall id | id in ScoreMap(content).Keys + ProfileScoreMap(profile).Keys
      ensures exists i :: 0 <= i < |movies| && movies[i].movieId == id
    {
      if id in ScoredIds(content) {
        var x :| x in content && x.movie.movieId == id;
        assert movies[x.index].movieId == id;
      } else if profile.TopRatedFallback? {
        var x :| x in profile.rows && x.movie.movieId == id;
        assert movies[x.index].movieId == id;
      } else {
        var x :| x in profile.recs && x.movie.movieId == id;
        assert movies[x.index].movieId == id;
      }
    }
  }

  // ---------------------------------------------------------------- counting

  lemma {:induction false} KeysBound(s: seq<Entry>)
    ensures |Keys(s)| <= |s|
    decreases |s|
  {
    if s != [] {
      var init := s[..|s| - 1];
      KeysBound(init);
      assert s == init + [s[|s| - 1]];
      assert Keys(s) == Keys(init) + {s[|s| - 1].key};
    }
  }

  /** A prefix of a list with distinct keys has distinct keys. */
  lemma DistinctTake(s: seq<Entry>, n: nat)
    requires |Keys(s)| == |s|
    ensures |Keys(Take(s, n))| == |Take(s, n)|
  {
    var t := Take(s, n);
    var d := s[|t|..];
    assert s == t + d;
    assert Keys(s) == Keys(t) + Keys(d);
    KeysBound(t);
    KeysBound(d);
  }

  /** A permutation of a list with distinct keys has distinct keys. */
  lemma DistinctPermutation(s: seq<Entry>, t: seq<Entry>)
    requires multiset(s) == multiset(t) && |Keys(s)| == |s|
    ensures |Keys(t)| == |t|
  {
    assert forall e :: e in s <==> e in multiset(t);
    assert Keys(s) == Keys(t);
  }

  /** A list without repeats has as many elements as its set. */
  lemma {:induction false} DistinctCount(s: seq<int>)
    requires Distinct(s)
    ensures |set x | x in s| == |s|
    decreases |s|
  {
    if s != [] {
      var init := s[..|s| - 1];
      var last := s[|s| - 1];
      assert s == init + [last];
      DistinctCount(init);
      assert (set x | x in s) == (set x | x in init) + {last};
    }
  }

  /** Rows of a catalog with unique ids, in increasing catalog order, have distinct ids. */
  lemma RowIdsCount(movies: seq<Movie>, rows: seq<Row>)
    requires UniqueIds(movies) && RowsOf(movies, rows) && IncreasingIndices(rows)
    ensures |RowIds(rows)| == |rows|
  {
    var column := RowIdColumn(rows);
    assert Distinct(column) by {
      forall i, j | 0 <= i < j < |column| ensures column[i] != column[j] {
        assert rows[i] in rows && rows[j] in rows;
      }
    }
    DistinctCount(column);
    assert RowIds(rows) == set x | x in column;
  }

  // ---------------------------------------------------------------- the blend is what it promises

  /** The rows picked by `isin(top_movie_ids)` carry exactly the top ids, one row per id. */
  lemma PickedRows(movies: seq<Movie>, ids: set<int>)
    requires UniqueIds(movies) && InCatalog(movies, ids)
    ensures var picked := Select(movies, IdMask(movies, ids));
      RowIds(picked) == ids && |picked| == |ids|
  {
    var picked := Select(movies, IdMask(movies, ids));
    forall id | id in ids ensures id in RowIds(picked) {
      var i :| 0 <= i < |movies| && movies[i].movieId == id;
      assert Row(i, movies[i]) in picked;
    }
    RowIdsCount(movies, picked);
  }

  /** `top_movie_ids` has `min(n, |items|)` ids when the items have distinct keys. */
  lemma TopIdsCount(items: seq<Entry>, n: nat)
    requires |Keys(items)| == |items|
    ensures |TopIds(items, n)| == Min(n, |items|)
  {
    DistinctPermutation(items, SortDesc(items));
    DistinctTake(SortDesc(items), n);
  }

  /** An item left out of the top ids scores no higher than any top item. */
  lemma TopIdsDominate(items: seq<Entry>, n: nat, e: Entry, id: int)
    requires e in items && e.key !in TopIds(items, n) && id in TopIds(items, n)
    ensures exists t :: t in items && t.key == id && e.score <= t.score
  {
    var top := Take(SortDesc(items), n);
    var t :| t in top && t.key == id;
    TopDominates(items, n, e, t);
    assert t in multiset(items);
  }

  /** The rows of `RankBlend`, as the column they were sorted from. */
  lemma RankBlendRows(movies: seq<Movie>, hybridScores: map<int, real>, items: seq<Entry>, n: nat, x: Scored)
    requires Keys(items) <= hybridScores.Keys
    requires x in RankBlend(movies, hybridScores, items, n)
    ensures x.movie.movieId in TopIds(items, n) && x.score == hybridScores[x.movie.movieId]
  {
    var ids := TopIds(items, n);
    var column := HybridColumn(Select(movies, IdMask(movies, ids)), hybridScores);
    SortedColumnKeys(movies, ids, hybridScores);
    ScoredEntry(movies, SortDesc(column), x);
    var e := Entry(x.index, x.score);
    assert e in multiset(column);
    ColumnEntry(movies, Select(movies, IdMask(movies, ids)), hybridScores, e);
    PickedId(movies, ids, x.index);
  }

  /** Every row of `RankBlend` is one of the picked catalog rows. */
  lemma RankBlendIdsPicked(movies: seq<Movie>, hybridScores: map<int, real>, items: seq<Entry>, n: nat)
    requires Keys(items) <= hybridScores.Keys
    ensures ScoredIds(RankBlend(movies, hybridScores, items, n)) <= RowIds(Select(movies, IdMask(movies, TopIds(items, n))))
  {
    var picked := Select(movies, IdMask(movies, TopIds(items, n)));
    var r := RankBlend(movies, hybridScores, items, n);
    forall x | x in r ensures x.movie.movieId in RowIds(picked) {
      RankBlendRows(movies, hybridScores, items, n, x);
      assert Row(x.index, movies[x.index]) in picked;
    }
  }

  /** Every picked catalog row is a row of `RankBlend`. */
  lemma PickedInRankBlend(movies: seq<Movie>, hybridScores: map<int, real>, items: seq<Entry>, n: nat)
    requires Keys(items) <= hybridScores.Keys
    ensures RowIds(Select(movies, IdMask(movies, TopIds(items, n)))) <= ScoredIds(RankBlend(movies, hybridScores, items, n))
  {
    var picked := Select(movies, IdMask(movies, TopIds(items, n)));
    var column := HybridColumn(picked, hybridScores);
    var ordered := SortDesc(column);
    var r := RankBlend(movies, hybridScores, items, n);
    forall p | p in picked ensures p.movie.movieId in ScoredIds(r) {
      var k :| 0 <= k < |picked| && picked[k] == p;
      assert column[k] in multiset(ordered);
      var i :| 0 <= i < |ordered| && ordered[i] == column[k];
      assert r[i] in r && r[i].movie == p.movie;
    }
  }

  /** `RankBlend` has exactly the ids of the picked catalog rows. */
  lemma RankBlendIds(movies: seq<Movie>, hybridScores: map<int, real>, items: seq<Entry>, n: nat)
    requires Keys(items) <= hybridScores.Keys
    ensures ScoredIds(RankBlend(movies, hybridScores, items, n)) == RowIds(Select(movies, IdMask(movies, TopIds(items, n))))
  {
    RankBlendIdsPicked(movies, hybridScores, items, n);
    PickedInRankBlend(movies, hybridScores, items, n);
  }

  /** Lines 94-110 deliver what the blended table promises, given the filled `hybrid_scores`. */
  lemma RankBlendIsBlend(movies: seq<Movie>, cs: map<int, real>, ps: map<int, real>,
                         hybridScores: map<int, real>, items: seq<Entry>, n: nat)
    requires UniqueIds(movies) && InCatalog(movies, cs.Keys + ps.Keys)
    requires hybridScores.Keys == cs.Keys + ps.Keys
    requires forall id :: id in hybridScores ==> hybridScores[id] == BlendScore(cs, ps, id)
    requires forall e :: e in items <==> e.key in hybridScores && e.score == hybridScores[e.key]
    requires |items| == |hybridScores.Keys| && Keys(items) == hybridScores.Keys
    ensures IsBlend(movies, cs, ps, n, RankBlend(movies, hybridScores, items, n))
  {
    var ids := TopIds(items, n);
    var picked := Select(movies, IdMask(movies, ids));
    var column := HybridColumn(picked, hybridScores);
    var ordered := SortDesc(column);
    var r := RankBlend(movies, hybridScores, items, n);
    assert ScoresNonIncreasing(r) by {
      forall i, j | 0 <= i < j < |r| ensures r[i].score >= r[j].score {
        assert r[i].score == ordered[i].score && r[j].score == ordered[j].score;
      }
    }
    assert forall x :: x in r ==> x.movie.movieId in ids && x.score == hybridScores[x.movie.movieId] by {
      forall x | x in r ensures x.movie.movieId in ids && x.score == hybridScores[x.movie.movieId] {
        RankBlendRows(movies, hybridScores, items, n, x);
      }
    }
    assert InCatalog(movies, ids);
    PickedRows(movies, ids);
    RankBlendIds(movies, hybridScores, items, n);
    assert ScoredIds(r) == ids;
    assert |r| == |ids| by {
      assert |r| == |ordered| == |column| == |picked|;
    }
    assert |ids| == Min(n, |cs.Keys + ps.Keys|) by {
      TopIdsCount(items, n);
    }
    forall id, x | id in cs.Keys + ps.Keys && id !in ScoredIds(r) && x in r ensures BlendScore(cs, ps, id) <= x.score {
      TopIdsDominate(items, n, Entry(id, hybridScores[id]), x.movie.movieId);
    }
  }
}
