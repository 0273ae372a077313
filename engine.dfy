/** `MovieRecommendationEngine`: the catalog table with its derived columns, the content
    model built from it once, and the ranking and selection queries over them. */
module Engine {
  import opened Basics
  import opened Strings
  import opened Ranking
  import opened Movies
  import opened Tables
  import opened Profile
  import opened Blend

  // ---------------------------------------------------------------- the engine

  class RecommendationEngine {
    /** The rows of `movies_df`. */
    var moviesDf: seq<Movie>
    /** The `combined_features` column added by `prepare_data`. */
    var combinedFeatures: seq<string>
    /** The `title_lower` column added by `prepare_data`. */
    var titleLower: seq<Option<string>>
    /** `tfidf_matrix`: one TF-IDF row per movie. */
    var tfidfMatrix: seq<seq<real>>
    /** `cosine_sim`: the linear kernel of `tfidf_matrix`. */
    var cosineSim: seq<seq<real>>

    ghost predicate Valid()
      reads this
    {
      && UniqueIds(moviesDf)
      && |combinedFeatures| == |moviesDf|
      && |titleLower| == |moviesDf|
      && (forall i :: 0 <= i < |moviesDf| ==> combinedFeatures[i] == CombinedFeatures(moviesDf[i]))
      && (forall i :: 0 <= i < |moviesDf| ==> titleLower[i] == LowerCell(moviesDf[i].title))
      && IsMatrix(tfidfMatrix, |moviesDf|)
      && cosineSim == LinearKernel(tfidfMatrix)
    }

    /** `__init__`: copies the table, adds the derived columns, and builds the content model with
        the TF-IDF vectoriser `vectorize` (its fitting is not part of this model). */
    constructor (movies: seq<Movie>, vectorize: seq<string> -> seq<seq<real>>)
      requires UniqueIds(movies)
      requires forall docs :: IsMatrix(vectorize(docs), |docs|)
      ensures Valid()
      ensures moviesDf == movies
      ensures tfidfMatrix == vectorize(combinedFeatures)
    {
      moviesDf := movies;
      combinedFeatures := [];
      titleLower := [];
      tfidfMatrix := [];
      cosineSim := [];
      new;
      PrepareData();
      BuildContentBasedModel(vectorize);
    }

    /** `prepare_data`: adds the `combined_features` and `title_lower` columns. */
    method PrepareData()
      modifies this
      ensures moviesDf == old(moviesDf)
      ensures tfidfMatrix == old(tfidfMatrix) && cosineSim == old(cosineSim)
      ensures |combinedFeatures| == |moviesDf| && |titleLower| == |moviesDf|
      ensures forall i :: 0 <= i < |moviesDf| ==> combinedFeatures[i] == CombinedFeatures(moviesDf[i])
      ensures forall i :: 0 <= i < |moviesDf| ==> titleLower[i] == LowerCell(moviesDf[i].title)
    {
      var movies := moviesDf;
      combinedFeatures := seq(|movies|, i requires 0 <= i < |movies| => CombinedFeatures(movies[i]));
      titleLower := seq(|movies|, i requires 0 <= i < |movies| => LowerCell(movies[i].title));
    }

    /** `build_content_based_model`: vectorises the combined features and takes their linear kernel. */
    method BuildContentBasedModel(vectorize: seq<string> -> seq<seq<real>>)
      requires |combinedFeatures| == |moviesDf|
      requires forall docs :: IsMatrix(vectorize(docs), |docs|)
      modifies this
      ensures moviesDf == old(moviesDf) && combinedFeatures == old(combinedFeatures)
      ensures titleLower == old(titleLower)
      ensures tfidfMatrix == vectorize(combinedFeatures) && IsMatrix(tfidfMatrix, |moviesDf|)
      ensures cosineSim == LinearKernel(tfidfMatrix)
    {
      tfidfMatrix := vectorize(combinedFeatures);
      cosineSim := LinearKernel(tfidfMatrix);
    }

    // -------------------------------------------------------------- content-based

    /** `get_content_based_recommendations`: for a known seed, its similarity row ranked by a
        stable descending sort, the first-ranked entry dropped, `n` kept. */
    function GetContentBasedRecommendations(movieId: int, n: nat): (r: seq<Scored>)
      reads this
      requires Valid()
      ensures FirstIndexOf(moviesDf, movieId).None? ==> r == []
      ensures ScoredRowsOf(moviesDf, r) && ScoresRanked(r) && ScoresNonIncreasing(r)
      ensures FirstIndexOf(moviesDf, movieId).Some? ==>
        var seed := FirstIndexOf(moviesDf, movieId).value;
        && |r| == Min(n, |moviesDf| - 1)
        && (forall x :: x in r ==> x.score == cosineSim[seed][x.index])
    {
      match FirstIndexOf(moviesDf, movieId)
      case None => []
      case Some(idx) =>
        var movies, row := moviesDf, cosineSim[idx];
        ContentFacts(movies, row, n);
        ToScored(movies, RankAfterFirst(row, n))
    }

    /** Line 39 drops the first-ranked position, not the seed: the position dropped is the
        lowest of the most similar movies, and every returned movie precedes every other movie
        left out (more similar, or as similar at an earlier position). */
    lemma ContentBasedDropsFirstRanked(movieId: int, n: nat)
      requires Valid()
      requires FirstIndexOf(moviesDf, movieId).Some?
      ensures var seed := FirstIndexOf(moviesDf, movieId).value;
        var row := cosineSim[seed];
        var r := GetContentBasedRecommendations(movieId, n);
        var dropped := FirstRanked(row);
        && dropped < |moviesDf| && dropped !in ScoredIndices(r)
        && (forall k :: 0 <= k < |moviesDf| ==> row[k] <= row[dropped])
        && (forall j :: 0 <= j < |moviesDf| && row[j] == row[dropped] ==> dropped <= j)
        && (forall k, x :: 0 <= k < |moviesDf| && k != dropped && k !in ScoredIndices(r) && x in r
              ==> row[k] < x.score || (row[k] == x.score && x.index < k))
    {
      var seed := FirstIndexOf(moviesDf, movieId).value;
      var movies, row := moviesDf, cosineSim[seed];
      var r := GetContentBasedRecommendations(movieId, n);
      assert r == ToScored(movies, RankAfterFirst(row, n));
      ContentDropsFirstRanked(movies, row, n);
      var dropped := FirstRanked(row);
      forall j | 0 <= j < |movies| && row[j] == row[dropped] ensures dropped <= j {
        FirstRankedLowest(row, j);
      }
    }

    /** A movie tied with the seed at an earlier position, when the seed is a most similar one,
        is dropped in the seed's place: the seed is not the position dropped, and once `n`
        reaches the number of other movies it is returned. */
    lemma ContentBasedKeepsTiedSeed(movieId: int, n: nat, j: nat)
      requires Valid()
      requires FirstIndexOf(moviesDf, movieId).Some?
      requires var seed := FirstIndexOf(moviesDf, movieId).value;
        && j < seed
        && (forall k :: 0 <= k < |moviesDf| ==> cosineSim[seed][k] <= cosineSim[seed][seed])
        && cosineSim[seed][j] == cosineSim[seed][seed]
      ensures var seed := FirstIndexOf(moviesDf, movieId).value;
        && FirstRanked(cosineSim[seed]) != seed
        && (n >= |moviesDf| - 1 ==> seed in ScoredIndices(GetContentBasedRecommendations(movieId, n)))
    {
      var seed := FirstIndexOf(moviesDf, movieId).value;
      var movies, row := moviesDf, cosineSim[seed];
      EarlierTieSparesSeed(row, seed, j);
      if n >= |movies| - 1 {
        AllButFirstKept(row, n, seed);
        ToScoredKeys(movies, RankAfterFirst(row, n));
        assert GetContentBasedRecommendations(movieId, n) == ToScored(movies, RankAfterFirst(row, n));
      }
    }

    /** When the seed is strictly more similar to itself than to any other movie, it is the
        position dropped and never recommended. */
    lemma ContentBasedExcludesStrictSeed(movieId: int, n: nat)
      requires Valid()
      requires FirstIndexOf(moviesDf, movieId).Some?
      requires var seed := FirstIndexOf(moviesDf, movieId).value;
        forall k :: 0 <= k < |moviesDf| && k != seed ==> cosineSim[seed][k] < cosineSim[seed][seed]
      ensures FirstIndexOf(moviesDf, movieId).value !in ScoredIndices(GetContentBasedRecommendations(movieId, n))
    {
      var seed := FirstIndexOf(moviesDf, movieId).value;
      var row := cosineSim[seed];
      assert GetContentBasedRecommendations(movieId, n) == ToScored(moviesDf, RankAfterFirst(row, n));
      ContentExcludesStrictMax(moviesDf, row, n, seed);
    }

    // -------------------------------------------------------------- profile-based and hybrid

    /** Lines 51-63 of `get_collaborative_recommendations`: the rated movies' TF-IDF rows summed
        with weight `(rating - 2.5) / 2.5`, divided by the total absolute weight when positive. */
    method AccumulateProfile(userRatings: Ratings) returns (userProfile: seq<real>)
      requires Valid()
      ensures userProfile == UserProfile(moviesDf, tfidfMatrix, userRatings)
    {
      var movies, tfidf := moviesDf, tfidfMatrix;
      userProfile := Zeros(Width(tfidf));
      var totalWeight := 0.0;
      for i := 0 to |userRatings|
        invariant userProfile == ProfileSum(movies, tfidf, userRatings[..i])
        invariant totalWeight == TotalWeight(movies, userRatings[..i])
      {
        AccumulateStep(movies, tfidf, userRatings, i);
        var (movieId, rating) := userRatings[i];
        var idx := FirstIndexOf(movies, movieId);
        if idx.Some? {
          var weight := ProfileWeight(rating);
          userProfile := AddScaled(userProfile, tfidf[idx.value], weight);
          totalWeight := totalWeight + Abs(weight);
        }
      }
      assert userRatings[..|userRatings|] == userRatings;
      if totalWeight > 0.0 {
        userProfile := Divide(userProfile, totalWeight);
      }
    }

    /** Lines 68-74 of `get_collaborative_recommendations`: the positions of the unrated movies
        with their similarity scores, in catalog order. */
    method CollectUnrated(ratedMovieIds: set<int>, simScores: seq<real>) returns (recommendationsWithScores: seq<Entry>)
      requires |simScores| == |moviesDf|
      ensures recommendationsWithScores == Candidates(moviesDf, ratedMovieIds, simScores)
    {
      var movies := moviesDf;
      recommendationsWithScores := [];
      for idx := 0 to |simScores|
        invariant recommendationsWithScores == Candidates(movies, ratedMovieIds, simScores[..idx])
      {
        CandidatesStep(movies, ratedMovieIds, simScores, idx);
        if movies[idx].movieId !in ratedMovieIds {
          recommendationsWithScores := recommendationsWithScores + [Entry(idx, simScores[idx])];
        }
      }
      assert simScores[..|simScores|] == simScores;
    }

    /** `get_collaborative_recommendations`, with sklearn's `cosine_similarity(profile, tfidf)[0]`
        as the parameter `cosineSimilarity`: the top-rated table for no ratings; otherwise the
        `n` unrated movies most similar to the profile, by a stable descending sort. */
    method GetCollaborativeRecommendations(userRatings: Ratings,
                                           cosineSimilarity: (seq<real>, seq<seq<real>>) -> seq<real>, n: nat)
      returns (r: ProfileRecs)
      requires Valid()
      requires forall v, m :: |cosineSimilarity(v, m)| == |m|
      ensures r == CollaborativeRecommendations(moviesDf, tfidfMatrix, userRatings, cosineSimilarity, n)
    {
      if userRatings == [] {
        return TopRatedFallback(GetTopRatedMovies(n));
      }
      var userProfile := AccumulateProfile(userRatings);
      var simScores := cosineSimilarity(userProfile, tfidfMatrix);
      var recommendationsWithScores := CollectUnrated(RatedIds(userRatings), simScores);
      r := ProfileRanked(ToScored(moviesDf, Top(recommendationsWithScores, n)));
    }

    /** `get_hybrid_recommendations`: both sources asked for `2n`; when one is empty, the first
        `n` of the other; otherwise the blend of the two over the union of their ids. */
    method GetHybridRecommendations(movieId: int, userRatings: Ratings,
                                    cosineSimilarity: (seq<real>, seq<seq<real>>) -> seq<real>, n: nat)
      returns (r: HybridRecs)
      requires Valid()
      requires forall v, m :: |cosineSimilarity(v, m)| == |m|
      ensures var content := GetContentBasedRecommendations(movieId, n * 2);
        var profile := CollaborativeRecommendations(moviesDf, tfidfMatrix, userRatings, cosineSimilarity, n * 2);
        && (content == [] ==> r == FromProfile(Head(profile, n)))
        && (content != [] && IsEmpty(profile) ==> r == FromContent(Take(content, n)))
        && (content != [] && !IsEmpty(profile) ==>
              r.Blended? && IsBlend(moviesDf, ScoreMap(content), ProfileScoreMap(profile), n, r.blend))
    {
      var contentRecs := GetContentBasedRecommendations(movieId, n * 2);
      var collabRecs := GetCollaborativeRecommendations(userRatings, cosineSimilarity, n * 2);
      if contentRecs == [] {
        return FromProfile(Head(collabRecs, n));
      }
      if IsEmpty(collabRecs) {
        return FromContent(Take(contentRecs, n));
      }
      var contentScores := ScoreMap(contentRecs);
      var collabScores := ProfileScoreMap(collabRecs);
      var allMovieIds := UnionOrder(ScoredIdColumn(contentRecs), ProfileIdColumn(collabRecs));
      var hybridScores, items := FillHybridScores(contentScores, collabScores, allMovieIds);
      SidesInCatalog(moviesDf, contentRecs, collabRecs);
      RankBlendIsBlend(moviesDf, contentScores, collabScores, hybridScores, items, n);
      r := Blended(RankBlend(moviesDf, hybridScores, items, n));
    }

    // -------------------------------------------------------------- auxiliary rankings

    /** `get_top_rated_movies`: `nlargest(n, 'rating')`, ties in catalog order (`keep='first'`, which
        pandas guarantees while `n` is below the number of movies). */
    function GetTopRatedMovies(n: nat): (r: seq<Row>)
      reads this
      ensures |r| == Min(n, |moviesDf|) && RowsOf(moviesDf, r)
      ensures forall i, j :: 0 <= i < j < |r| ==>
        r[i].movie.rating > r[j].movie.rating || (r[i].movie.rating == r[j].movie.rating && r[i].index < r[j].index)
      ensures forall k, x :: 0 <= k < |moviesDf| && k !in RowIndices(r) && x in r ==>
        moviesDf[k].rating < x.movie.rating || (moviesDf[k].rating == x.movie.rating && x.index < k)
    {
      var movies := moviesDf;
      TopRatedOrdered(movies, n);
      TopRatedDominates(movies, n);
      TopRatedRows(movies, n)
    }

    /** `get_trending_movies`: the movies from 2010 on, by `nlargest(n, 'trend_score')`. */
    function GetTrendingMovies(n: nat): (r: seq<Scored>)
      reads this
      ensures ScoredRowsOf(moviesDf, r) && ScoresRanked(r) && ScoresNonIncreasing(r)
      ensures |r| == Min(n, |Select(moviesDf, RecentMask(moviesDf))|)
      ensures forall x :: x in r ==> x.movie.year >= 2010 && x.score == TrendScore(x.movie)
      ensures forall k, x :: 0 <= k < |moviesDf| && moviesDf[k].year >= 2010 && k !in ScoredIndices(r) && x in r
                ==> TrendScore(moviesDf[k]) < x.score || (TrendScore(moviesDf[k]) == x.score && x.index < k)
    {
      var movies := moviesDf;
      TrendingFacts(movies, n);
      ToScored(movies, Top(TrendEntries(movies), n))
    }

    // -------------------------------------------------------------- search and filters

    /** `search_movies`: the rows where the lowered query is a piece of the lowered title, genre,
        director, cast or keywords, in catalog order. */
    function SearchMovies(query: string): (r: seq<Row>)
      reads this
      requires Valid()
      ensures RowsOf(moviesDf, r) && IncreasingIndices(r)
      ensures forall i :: 0 <= i < |moviesDf| ==> (Row(i, moviesDf[i]) in r <==> MatchesQuery(moviesDf[i], query))
    {
      var q := Lower(query);
      var movies, titles := moviesDf, titleLower;
      var mask := seq(|movies|, i requires 0 <= i < |movies| =>
        (titles[i].Some? && Contains(titles[i].value, q))
        || CellContains(movies[i].genre, q) || CellContains(movies[i].director, q)
        || CellContains(movies[i].cast, q) || CellContains(movies[i].keywords, q));
      Select(movies, mask)
    }

    /** `filter_by_genre`: the whole table for `'All'`, otherwise the rows whose genre contains the
        given text, ignoring case. */
    function FilterByGenre(genre: string): (r: seq<Row>)
      reads this
      ensures RowsOf(moviesDf, r) && IncreasingIndices(r)
      ensures genre == "All" ==> r == AllRows(moviesDf)
      ensures genre != "All" ==>
        forall i :: 0 <= i < |moviesDf| ==> (Row(i, moviesDf[i]) in r <==> GenreMatches(moviesDf[i], genre))
    {
      var movies := moviesDf;
      if genre == "All" then AllRows(movies)
      else Select(movies, seq(|movies|, i requires 0 <= i < |movies| => GenreMatches(movies[i], genre)))
    }

    /** `filter_by_year_range`: the rows whose year lies in `[minYear, maxYear]`. */
    function FilterByYearRange(minYear: int, maxYear: int): (r: seq<Row>)
      reads this
      ensures RowsOf(moviesDf, r) && IncreasingIndices(r)
      ensures forall i :: 0 <= i < |moviesDf| ==> (Row(i, moviesDf[i]) in r <==> minYear <= moviesDf[i].year <= maxYear)
    {
      var movies := moviesDf;
      Select(movies, seq(|movies|, i requires 0 <= i < |movies| => InYearRange(movies[i], minYear, maxYear)))
    }

    /** `filter_by_rating_range`: the rows whose rating lies in `[minRating, maxRating]`. */
    function FilterByRatingRange(minRating: real, maxRating: real): (r: seq<Row>)
      reads this
      ensures RowsOf(moviesDf, r) && IncreasingIndices(r)
      ensures forall i :: 0 <= i < |moviesDf| ==> (Row(i, moviesDf[i]) in r <==> minRating <= moviesDf[i].rating <= maxRating)
    {
      var movies := moviesDf;
      Select(movies, seq(|movies|, i requires 0 <= i < |movies| => InRatingRange(movies[i], minRating, maxRating)))
    }

    // -------------------------------------------------------------- lookups

    /** `get_movie_by_id`: the first row with that id, or `None`. */
    function GetMovieById(movieId: int): (r: Option<Movie>)
      reads this
      ensures r.None? <==> forall i :: 0 <= i < |moviesDf| ==> moviesDf[i].movieId != movieId
      ensures r.Some? ==> r.value.movieId == movieId
                          && exists i :: 0 <= i < |moviesDf| && moviesDf[i] == r.value
                                         && forall j :: 0 <= j < i ==> moviesDf[j].movieId != movieId
    {
      match FirstIndexOf(moviesDf, movieId)
      case None => None
      case Some(i) => Some(moviesDf[i])
    }

    /** `get_all_genres`: every whitespace-stripped, comma-separated genre token of the non-missing
        genre cells, once each, in ascending order. */
    method GetAllGenres() returns (r: seq<string>)
      ensures StrictlySorted(r)
      ensures forall t :: t in r <==> t in GenreTokens(moviesDf)
    {
      var allGenres: set<string> := {};
      var i := 0;
      while i < |moviesDf|
        invariant 0 <= i <= |moviesDf|
        invariant allGenres == GenreTokens(moviesDf[..i])
      {
        assert moviesDf[..i + 1][..i] == moviesDf[..i];
        match moviesDf[i].genre {
          case Some(genres) =>
            allGenres := allGenres + GenreTokensOf(genres);
          case None =>
        }
        i := i + 1;
      }
      assert moviesDf[..i] == moviesDf;
      r := SortedList(allGenres);
    }
  }
}
