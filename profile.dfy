/** The profile side of `get_collaborative_recommendations`: the weighted sum of the rated
    movies' TF-IDF rows, the candidates it is ranked over, and the whole selection as a
    function of the catalog, the TF-IDF rows and the ratings. */
module Profile {
  import opened Basics
  import opened Ranking
  import opened Movies
  import opened Tables

  /** The items of a `user_ratings` dict in insertion order: `(movie_id, rating)`. */
  type Ratings = seq<(int, real)>

  /** What `get_collaborative_recommendations` returns: with no rating at all, the top-rated
      table (it has no `recommendation_score` column); otherwise the ranked unrated movies. */
  datatype ProfileRecs =
    | TopRatedFallback(rows: seq<Row>)
    | ProfileRanked(recs: seq<Scored>)

  /** A rating counts towards the profile only when its movie is in the catalog. */
  predicate Known(movies: seq<Movie>, id: int) {
    FirstIndexOf(movies, id).Some?
  }

  /** `set(user_ratings.keys())`. */
  function RatedIds(ratings: Ratings): set<int> {
    set p | p in ratings :: p.0
  }

  /** `total_weight` after the given items: the sum of `abs(weight)` over the ratings of catalog
      movies. It is zero exactly when every such rating is the neutral 2.5. */
  function TotalWeight(movies: seq<Movie>, ratings: Ratings): (w: real)
    ensures w >= 0.0
    ensures w == 0.0 <==> forall k :: 0 <= k < |ratings| && Known(movies, ratings[k].0) ==> ratings[k].1 == 2.5
    decreases |ratings|
  {
    if ratings == [] then 0.0
    else
      var init := ratings[..|ratings| - 1];
      var (id, rating) := ratings[|ratings| - 1];
      assert forall k :: 0 <= k < |init| ==> init[k] == ratings[k];
      TotalWeight(movies, init) + (if Known(movies, id) then Abs(ProfileWeight(rating)) else 0.0)
  }

  /** `user_profile` before the division: the sum of `tfidf_matrix[idx] * weight` over the
      ratings of catalog movies, `idx` the first row with the rated id. */
  function ProfileSum(movies: seq<Movie>, tfidf: seq<seq<real>>, ratings: Ratings): (v: seq<real>)
    requires IsMatrix(tfidf, |movies|)
    ensures |v| == Width(tfidf)
    decreases |ratings|
  {
    if ratings == [] then Zeros(Width(tfidf))
    else
      var prev := ProfileSum(movies, tfidf, ratings[..|ratings| - 1]);
      var (id, rating) := ratings[|ratings| - 1];
      match FirstIndexOf(movies, id)
      case None => prev
      case Some(idx) => AddScaled(prev, tfidf[idx], ProfileWeight(rating))
  }

  /** `user_profile` as handed to `cosine_similarity`: divided by the total weight when that is
      positive, left as it is otherwise. */
  function UserProfile(movies: seq<Movie>, tfidf: seq<seq<real>>, ratings: Ratings): (v: seq<real>)
    requires IsMatrix(tfidf, |movies|)
    ensures |v| == Width(tfidf)
  {
    var w := TotalWeight(movies, ratings);
    if w > 0.0 then Divide(ProfileSum(movies, tfidf, ratings), w) else ProfileSum(movies, tfidf, ratings)
  }

  /** One more item of the rating map: the profile sum and the total weight move by that item's
      weighted row and weight when its movie is in the catalog, and stay put otherwise. */
  lemma AccumulateStep(movies: seq<Movie>, tfidf: seq<seq<real>>, ratings: Ratings, i: nat)
    requires IsMatrix(tfidf, |movies|) && i < |ratings|
    ensures var (id, rating) := ratings[i];
      && (FirstIndexOf(movies, id).None? ==>
            ProfileSum(movies, tfidf, ratings[..i + 1]) == ProfileSum(movies, tfidf, ratings[..i])
            && TotalWeight(movies, ratings[..i + 1]) == TotalWeight(movies, ratings[..i]))
      && (FirstIndexOf(movies, id).Some? ==>
            ProfileSum(movies, tfidf, ratings[..i + 1])
              == AddScaled(ProfileSum(movies, tfidf, ratings[..i]), tfidf[FirstIndexOf(movies, id).value], ProfileWeight(rating))
            && TotalWeight(movies, ratings[..i + 1]) == TotalWeight(movies, ratings[..i]) + Abs(ProfileWeight(rating)))
  {
    assert ratings[..i + 1][..i] == ratings[..i];
    assert ratings[..i + 1][i] == ratings[i];
  }

  /** The ratings of catalog movies, in order. */
  function KnownOnly(movies: seq<Movie>, ratings: Ratings): (r: Ratings)
    ensures forall p :: p in r <==> p in ratings && Known(movies, p.0)
    decreases |ratings|
  {
    if ratings == [] then []
    else
      var init := ratings[..|ratings| - 1];
      var last := ratings[|ratings| - 1];
      assert ratings == init + [last];
      KnownOnly(movies, init) + (if Known(movies, last.0) then [last] else [])
  }

  lemma LastOfAppend(ratings: Ratings, p: (int, real))
    ensures (ratings + [p])[..|ratings|] == ratings && (ratings + [p])[|ratings|] == p
  {
  }

  /** Ratings of movies missing from the catalog add nothing to the profile sum. */
  lemma {:induction false} UnknownRatingsSkippedInSum(movies: seq<Movie>, tfidf: seq<seq<real>>, ratings: Ratings)
    requires IsMatrix(tfidf, |movies|)
    ensures ProfileSum(movies, tfidf, KnownOnly(movies, ratings)) == ProfileSum(movies, tfidf, ratings)
    decreases |ratings|
  {
    if ratings != [] {
      var init := ratings[..|ratings| - 1];
      var last := ratings[|ratings| - 1];
      UnknownRatingsSkippedInSum(movies, tfidf, init);
      var k := KnownOnly(movies, init);
      if Known(movies, last.0) {
        LastOfAppend(k, last);
        assert KnownOnly(movies, ratings) == k + [last];
      } else {
        assert KnownOnly(movies, ratings) == k;
      }
    }
  }

  /** Ratings of movies missing from the catalog add nothing to the total weight. */
  lemma {:induction false} UnknownRatingsSkippedInWeight(movies: seq<Movie>, ratings: Ratings)
    ensures TotalWeight(movies, KnownOnly(movies, ratings)) == TotalWeight(movies, ratings)
    decreases |ratings|
  {
    if ratings != [] {
      var init := ratings[..|ratings| - 1];
      var last := ratings[|ratings| - 1];
      UnknownRatingsSkippedInWeight(movies, init);
      var k := KnownOnly(movies, init);
      if Known(movies, last.0) {
        LastOfAppend(k, last);
        assert KnownOnly(movies, ratings) == k + [last];
      } else {
        assert KnownOnly(movies, ratings) == k;
      }
    }
  }

  /** Ratings of movies missing from the catalog are skipped: the profile is that of the
      catalog movies' ratings alone. */
  lemma UnknownRatingsSkipped(movies: seq<Movie>, tfidf: seq<seq<real>>, ratings: Ratings)
    requires IsMatrix(tfidf, |movies|)
    ensures UserProfile(movies, tfidf, KnownOnly(movies, ratings)) == UserProfile(movies, tfidf, ratings)
  {
    UnknownRatingsSkippedInSum(movies, tfidf, ratings);
    UnknownRatingsSkippedInWeight(movies, ratings);
  }

  /** When every rating of a catalog movie is the neutral 2.5 (or there is none), the profile is
      the zero vector, and the code does not fall back to the top-rated list for it. */
  lemma {:induction false} NeutralProfileIsZero(movies: seq<Movie>, tfidf: seq<seq<real>>, ratings: Ratings)
    requires IsMatrix(tfidf, |movies|)
    requires TotalWeight(movies, ratings) == 0.0
    ensures UserProfile(movies, tfidf, ratings) == Zeros(Width(tfidf))
    decreases |ratings|
  {
    if ratings != [] {
      var init := ratings[..|ratings| - 1];
      var (id, rating) := ratings[|ratings| - 1];
      assert forall k :: 0 <= k < |init| ==> init[k] == ratings[k];
      NeutralProfileIsZero(movies, tfidf, init);
      var prev := ProfileSum(movies, tfidf, init);
      match FirstIndexOf(movies, id)
      case None =>
      case Some(idx) =>
        assert rating == 2.5 by {
          assert Known(movies, ratings[|ratings| - 1].0);
        }
        assert AddScaled(prev, tfidf[idx], ProfileWeight(rating)) == prev;
    }
  }

  /** `recommendations_with_scores` after the loop over `enumerate(sim_scores)`: the positions
      of unrated movies with their similarity scores, in catalog order. */
  function Candidates(movies: seq<Movie>, rated: set<int>, scores: seq<real>): (r: seq<Entry>)
    requires |scores| <= |movies|
    ensures IncreasingKeys(r)
    ensures forall e :: e in r <==> 0 <= e.key < |scores| && movies[e.key].movieId !in rated && e.score == scores[e.key]
    decreases |scores|
  {
    if scores == [] then []
    else
      var last := |scores| - 1;
      var init := Candidates(movies, rated, scores[..last]);
      assert forall e :: e in init ==> e.key < last;
      init + (if movies[last].movieId !in rated then [Entry(last, scores[last])] else [])
  }

  /** One more position of `enumerate(sim_scores)`: appended when its movie is unrated. */
  lemma CandidatesStep(movies: seq<Movie>, rated: set<int>, scores: seq<real>, i: nat)
    requires |scores| <= |movies| && i < |scores|
    ensures Candidates(movies, rated, scores[..i + 1])
      == Candidates(movies, rated, scores[..i]) + (if movies[i].movieId !in rated then [Entry(i, scores[i])] else [])
  {
    assert scores[..i + 1][..i] == scores[..i];
  }

  /** `get_collaborative_recommendations` on a table: the top-rated fallback for an empty rating
      map; otherwise the `n` unrated movies most similar to the user profile, by a stable
      descending sort. The fallback is taken only for an empty map, not for a zero profile. */
  function CollaborativeRecommendations(movies: seq<Movie>, tfidf: seq<seq<real>>, ratings: Ratings,
                                        cosineSimilarity: (seq<real>, seq<seq<real>>) -> seq<real>, n: nat): (r: ProfileRecs)
    requires IsMatrix(tfidf, |movies|)
    requires forall v, m :: |cosineSimilarity(v, m)| == |m|
    ensures ratings == [] <==> r.TopRatedFallback?
    ensures ratings == [] ==> r.rows == TopRatedRows(movies, n)
    ensures ratings != [] ==>
      var scores := cosineSimilarity(UserProfile(movies, tfidf, ratings), tfidf);
      var recs := r.recs;
      && ScoredRowsOf(movies, recs) && ScoresRanked(recs) && ScoresNonIncreasing(recs)
      && |recs| == Min(n, |Candidates(movies, RatedIds(ratings), scores)|)
      && (forall x :: x in recs ==> x.movie.movieId !in RatedIds(ratings) && x.score == scores[x.index])
      && (forall k, x :: 0 <= k < |movies| && movies[k].movieId !in RatedIds(ratings) && k !in ScoredIndices(recs) && x in recs
            ==> scores[k] < x.score || (scores[k] == x.score && x.index < k))
  {
    if ratings == [] then TopRatedFallback(TopRatedRows(movies, n))
    else
      var scores := cosineSimilarity(UserProfile(movies, tfidf, ratings), tfidf);
      var cands := Candidates(movies, RatedIds(ratings), scores);
      ScoredTop(movies, cands, n);
      assert forall k :: 0 <= k < |movies| && movies[k].movieId !in RatedIds(ratings) ==> Entry(k, scores[k]) in cands;
      ProfileRanked(ToScored(movies, Top(cands, n)))
  }
}
