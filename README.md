# Movie recommendation engine and user registry, modelled in Dafny

This project models the ranking and selection logic of a small movie recommender written in
Python with pandas and scikit-learn, and the rules of its user registry.

**The engine.** `MovieRecommendationEngine` (`recom_engine.py`) is the class
`Engine.RecommendationEngine`. It holds:

- the catalog rows (`moviesDf`);
- the two derived columns made by `prepare_data`;
- the TF-IDF rows;
- their linear kernel (`cosineSim`).

Its queries are the following:

- **Content-based:** a stable descending sort of the seed's similarity row, with the first
  entry dropped and `n` kept.
- **Collaborative:** a weighted profile of the rated movies, then a ranking of the unrated
  ones by their similarity to that profile.
- **Hybrid:** a 0.5/0.5 blend of both sources over the union of their ids.
- **Top-rated and trending:** `nlargest`. The model keeps ties in catalog order, which pandas
  promises only while `n` is below the number of candidates.
- **Search and filters:** boolean masks over the catalog.
- **Lookups:** the first row with an id, and the sorted set of genre tokens.

The pure parts are functions on values, split across modules:

- `Ranking`: stable sorting and slicing.
- `Movies`: rows, masks, feature text and vectors.
- `Tables`: result tables.
- `Profile`: the collaborative selection.
- `Blend`: the hybrid blend.

The loops in the source (profile accumulation, candidate collection, filling the hybrid
scores, collecting genres) are methods with loop invariants. Each is proved equal to the
function that specifies it.

**The registry.** `AuthManager` (`auth.py`) is the class `Auth.AuthManager`. Its users table
is a sequence field that `CreateUser` appends to. The pure lookups (`user_exists`,
`email_exists`, `authenticate`, `get_user_info`) are functions that read it. The proofs show
the following:

- A failed creation leaves the table unchanged.
- A successful one appends exactly one row, holding the hash rather than the password.
- Uniqueness of usernames and emails is preserved.
- A newly created user can log in.

**What the proofs show about the content-based query.** Line 39 drops the first-ranked
position, not the seed. The dropped position is always a most similar one, and the seed is
excluded whenever it is strictly more similar than every other movie
(`ContentBasedExcludesStrictSeed`). Among several most similar movies, the stable sort puts
the one at the lowest position first, so that is the one dropped
(`ContentBasedDropsFirstRanked`). When the seed is a most similar movie and another movie ties
with it at an earlier position, the seed is not the dropped position. It is then returned once
`n` reaches the number of other movies (`ContentBasedKeepsTiedSeed`). For a smaller `n` it can
be left out only in favour of movies that precede it: more similar, or as similar at an earlier
position.

**Parameters standing in for code outside the model:**

- The TF-IDF vectoriser's `fit_transform` is a function parameter `vectorize` of the
  constructor.
- scikit-learn's `cosine_similarity` for the profile is a function parameter
  `cosineSimilarity`; only its output length is assumed.
- The password hash is an uninterpreted function fixed at construction.
- The creation timestamp is a parameter.

## Model

| member | source | states |
|---|---|---|
| Engine.RecommendationEngine.constructor | recom_engine.py:9-12 | the engine holds the given catalog, its derived columns and the vectoriser's matrix of the combined features, and satisfies its invariant |
| Engine.RecommendationEngine.PrepareData | recom_engine.py:14-23 | every row's combined feature text and lowered title are set; the catalog and the model are unchanged |
| Engine.RecommendationEngine.BuildContentBasedModel | recom_engine.py:25-28 | the TF-IDF rows are the vectoriser's output on the combined features, and the similarity matrix is their linear kernel |
| Movies.CombinedFeatures | recom_engine.py:15-22 | the feature text is the lowered genre, keywords, director and cast, each missing cell empty, joined by single spaces |
| Movies.FeatureTextHasFields | recom_engine.py:15-22 | every present feature cell, lowered, occurs in the combined feature text |
| Movies.LinearKernelSymmetric | recom_engine.py:28 | the similarity matrix is symmetric |
| Movies.SelfSimilarityIsMaximal | recom_engine.py:28 | with rows of equal norm, no movie is more similar to the seed than the seed itself |
| Movies.FirstIndexOf | recom_engine.py:31-36 | the position of the first row with the id, or none exactly when no row has it |
| Engine.RecommendationEngine.GetContentBasedRecommendations | recom_engine.py:30-45 | an unknown seed gives an empty table; otherwise min(n, N-1) catalog rows, each scored by its similarity to the seed, ranked by score with ties in catalog order |
| Ranking.SortDesc | recom_engine.py:38 | the sort is a permutation of its input and non-increasing in score |
| Ranking.SortDescRanked | recom_engine.py:38 | the sort is stable: candidates listed by position come out with equal scores in position order |
| Ranking.RankAfterFirst | recom_engine.py:37-39 | the slice [1:n+1] of the ranked row has min(n, N-1) entries, ranked, each with its position's score |
| Ranking.FirstRankedIsMax | recom_engine.py:38-39 | the dropped first-ranked entry scores at least as high as every position |
| Ranking.FirstRanked | recom_engine.py:38-39 | the position `sim_scores[0]` names after the sort: a position of the row scoring at least as high as every position |
| Ranking.FirstRankedDropped | recom_engine.py:39 | the dropped position is not among the kept ones |
| Ranking.AfterFirstIsTop | recom_engine.py:38-39 | every kept position precedes every position left out other than the dropped one: a higher score, or the same score at an earlier position |
| Ranking.FirstRankedLowest | recom_engine.py:38-39 | the dropped position comes no later than any position holding the row's maximum, so it is the lowest such position |
| Ranking.EarlierTieSparesSeed | recom_engine.py:38-39 | when a maximal seed is tied by an earlier position, the seed is not the dropped position |
| Ranking.AllButFirstKept | recom_engine.py:38-39 | once n reaches the number of other positions, every position but the dropped one is kept |
| Engine.RecommendationEngine.ContentBasedDropsFirstRanked | recom_engine.py:36-43 | the dropped position is FirstRanked of the seed's row: a most similar movie, the lowest such position, and every returned movie precedes every other movie left out |
| Engine.RecommendationEngine.ContentBasedKeepsTiedSeed | recom_engine.py:36-43 | a maximal seed tied by an earlier movie is not dropped, and it is returned once n reaches N-1 |
| Engine.RecommendationEngine.ContentBasedExcludesStrictSeed | recom_engine.py:36-43 | a seed strictly more similar to itself than every other movie is not returned |
| Ranking.Top | recom_engine.py:76-77 | the first n of the stable descending sort: min(n, length of s) entries of s, ranked, and every kept entry precedes every entry left out (higher score, or the same score at an earlier position) |
| Ranking.TopPrecedes | recom_engine.py:76-77 | every entry of the top n precedes every candidate left out, which is the keep-first rule for ties at the cut |
| Profile.ProfileSum | recom_engine.py:51-59 | the weighted sum of the rated catalog movies' TF-IDF rows, as long as a TF-IDF row; its steps are `AccumulateStep` |
| Profile.UserProfile | recom_engine.py:51-63 | the profile, as long as a TF-IDF row: the weighted sum, divided by the total weight only when that is positive |
| Profile.TotalWeight | recom_engine.py:52-60 | the total weight is non-negative, and zero exactly when every rating of a catalog movie is 2.5 |
| Movies.ProfileWeight | recom_engine.py:58 | the weight is zero exactly for a rating of 2.5 and positive exactly above it |
| Profile.UnknownRatingsSkipped | recom_engine.py:54-63 | ratings of movies missing from the catalog do not change the profile |
| Profile.UnknownRatingsSkippedInSum | recom_engine.py:54-59 | ratings of movies missing from the catalog add nothing to the profile sum |
| Profile.UnknownRatingsSkippedInWeight | recom_engine.py:54-60 | ratings of movies missing from the catalog add nothing to the total weight |
| Profile.NeutralProfileIsZero | recom_engine.py:51-63 | when the total weight is zero the profile stays the zero vector, and no fallback is taken for it |
| Profile.AccumulateStep | recom_engine.py:54-60 | one rating item moves the profile sum and the total weight by its weighted row and weight when its movie is in the catalog, and leaves them otherwise |
| Engine.RecommendationEngine.AccumulateProfile | recom_engine.py:51-63 | the loop's profile equals the weighted sum of the rated catalog movies' rows, divided by the total weight when that is positive |
| Profile.Candidates | recom_engine.py:68-74 | the candidates are exactly the unrated positions with their similarity scores, in catalog order |
| Profile.CandidatesStep | recom_engine.py:71-74 | one more position is appended exactly when its movie is unrated |
| Engine.RecommendationEngine.CollectUnrated | recom_engine.py:68-74 | the loop collects exactly the candidates of the unrated movies |
| Profile.CollaborativeRecommendations | recom_engine.py:47-83 | the top-rated fallback exactly for an empty rating map; otherwise min(n, unrated) catalog rows, none rated, each scored by profile similarity, ranked, and every returned row precedes every unrated movie left out (higher score, or the same score at an earlier position) |
| Engine.RecommendationEngine.GetCollaborativeRecommendations | recom_engine.py:47-83 | the method computes the collaborative selection of the current catalog and model |
| Blend.ScoreMap | recom_engine.py:94 | the map's keys are the table's ids, and each id maps to the score of its last row |
| Blend.ProfileScoreMap | recom_engine.py:95 | the profile side's ids, each scored 1 when the side is the top-rated fallback that has no score column, and the ranked side's own score map otherwise |
| Blend.BlendScore | recom_engine.py:101-103 | the blend lies between the two sides' scores, an absent side counting 0, and is 0 for an id on neither side |
| Blend.OneSidedBlend | recom_engine.py:101-103 | an id on one side only gets half its score on that side |
| Blend.UnionOrder | recom_engine.py:97 | each id of either side exactly once |
| Blend.FillHybridScores | recom_engine.py:99-103 | the hybrid scores cover exactly the union of ids, each with the 0.5/0.5 blend, and the items list them once each |
| Blend.TopIds | recom_engine.py:105-106 | the ids of the first n blended items after a descending sort, all of them blended ids |
| Blend.TopIdsCount | recom_engine.py:105-106 | the top ids number min(n, number of blended ids) |
| Blend.TopIdsDominate | recom_engine.py:105-106 | an id left out of the top ids scores no higher than a chosen one |
| Blend.PickedRows | recom_engine.py:108 | the isin selection holds one catalog row per chosen id |
| Blend.RankBlend | recom_engine.py:105-110 | the catalog rows of the top ids with their blended scores, sorted by score; each is a row of the catalog |
| Blend.RankBlendIsBlend | recom_engine.py:94-110 | the blended table has min(n, size of the union) distinct catalog rows, highest blend first, each scored by the blend, and no id of the union left out scores higher |
| Engine.RecommendationEngine.GetHybridRecommendations | recom_engine.py:85-112 | with no content rows, the head of the profile side; with no profile rows, the head of the content side; otherwise a table satisfying the blend's promises |
| Blend.Head | recom_engine.py:90 | the head keeps the side's kind and its first n rows |
| Tables.TopRatedRows | recom_engine.py:114-115 | min(n, N) catalog rows whose order is the stable descending ranking by rating |
| Tables.TopRatedOrdered | recom_engine.py:114-115 | rows come highest rating first, equal ratings in catalog order |
| Tables.TopRatedDominates | recom_engine.py:114-115 | every returned movie precedes every movie left out: rated higher, or rated the same at an earlier position (`keep='first'`) |
| Engine.RecommendationEngine.GetTopRatedMovies | recom_engine.py:114-115 | min(n, N) catalog rows, by rating with ties in catalog order, each preceding every movie left out (rated higher, or the same at an earlier position) |
| Movies.TrendScore | recom_engine.py:119 | rating*(year-2000)/25: non-negative for a non-negative rating from 2000 on, and the rating itself in 2025 |
| Movies.TrendScoreRewardsRecency | recom_engine.py:119 | for one non-negative rating a later year never scores lower; each year adds a twenty-fifth of the rating |
| Tables.TrendEntries | recom_engine.py:118-119 | exactly the movies from 2010 on, each with its trend score |
| Engine.RecommendationEngine.GetTrendingMovies | recom_engine.py:117-120 | min(n, recent) catalog rows from 2010 on, scored rating*(year-2000)/25, ranked, each preceding every recent movie left out (higher trend score, or the same at an earlier position) |
| Movies.Select | recom_engine.py:131 | the rows where the mask holds, exactly, in catalog order with their labels |
| Movies.MatchesQuery | recom_engine.py:123-130 | the OR of the five lowered-field containments; a movie with all five fields missing never matches |
| Movies.MatchesQueryFindsRawText | recom_engine.py:123-130 | a case-sensitive occurrence of the query in any of the five fields is found |
| Engine.RecommendationEngine.SearchMovies | recom_engine.py:122-131 | a row is returned exactly when the lowered query occurs in its lowered title, genre, director, cast or keywords |
| Strings.ContainsLower | recom_engine.py:123-129 | a piece of a text lowered is a piece of the lowered text |
| Engine.RecommendationEngine.FilterByGenre | recom_engine.py:133-136 | the whole table for "All"; otherwise exactly the rows whose genre contains the text, ignoring case |
| Engine.RecommendationEngine.FilterByYearRange | recom_engine.py:138-142 | exactly the rows with year in the closed range, in catalog order |
| Engine.RecommendationEngine.FilterByRatingRange | recom_engine.py:144-148 | exactly the rows with rating in the closed range, in catalog order |
| Engine.RecommendationEngine.GetMovieById | recom_engine.py:150-154 | the first row with the id, or none exactly when no row has it |
| Movies.GenreTokens | recom_engine.py:157-159 | a token is collected exactly when it is a stripped comma-separated piece of some present genre cell |
| Movies.GenreTokenShape | recom_engine.py:159 | a genre token has no comma and no white space at either end |
| Strings.JoinSplit | recom_engine.py:159 | joining the pieces of a split gives back the text |
| Strings.SplitJoin | recom_engine.py:159 | splitting joined pieces without separators gives back the pieces |
| Strings.Strip | recom_engine.py:159 | the result is a piece of the text with only white space around it, and it neither starts nor ends with white space |
| Strings.Split | recom_engine.py:159 | at least one piece, none holding the separator; with `JoinSplit` and `SplitJoin` this fixes the pieces |
| Strings.SortedList | recom_engine.py:160 | the set's elements, each once, strictly increasing |
| Strings.StrictlySortedUnique | recom_engine.py:160 | a strictly sorted list is determined by its elements |
| Engine.RecommendationEngine.GetAllGenres | recom_engine.py:156-160 | every genre token of the catalog exactly once, in strictly increasing order |
| Auth.AuthManager.constructor | auth.py:7-14 | a new registry on a fresh users file has an empty table |
| Auth.FirstMatch | auth.py:57-62 | the first row holding the value in the column, or none exactly when no row does |
| Auth.AuthManager.UserExists | auth.py:25-27 | true exactly when some row has the username |
| Auth.AuthManager.EmailExists | auth.py:29-31 | true exactly when some row has the email |
| Auth.AuthManager.CreateUser | auth.py:33-52 | a taken username is refused first, then a taken email, both leaving the table unchanged; otherwise exactly one row is appended with the password's hash; uniqueness is kept; the new user can then log in |
| Auth.AuthManager.Authenticate | auth.py:54-67 | "Username not found" exactly when no row has the username; otherwise success exactly when the password's hash is the first matching row's hash |
| Auth.AuthManager.AuthenticateUnique | auth.py:54-67 | with unique usernames, a login succeeds exactly when some row pairs the username with the password's hash |
| Auth.AuthManager.GetUserInfo | auth.py:69-75 | the first row with the username, or none exactly when no row has it |
| Auth.AuthManager.GetUserInfoUnique | auth.py:69-75 | with unique usernames, the row returned is the only row with that username |

## Left out

- The Streamlit front end (`app.py`) is not part of this model. It holds UI code, poster fetching over HTTP, session navigation and the loading of the movie CSV.
- `database.py` is not part of this model. It declares the SQLAlchemy `users` and `user_ratings` tables, a session factory and a `DATABASE_URL` read, none of which the engine uses.
- Engine.RecommendationEngine.constructor: TF-IDF fitting (stop words, the 5000-term vocabulary) is the parameter `vectorize`; only the shape of its output is assumed. The model's `vectorize` never fails, whereas `fit_transform` raises `ValueError` on an empty vocabulary (an empty catalog, or feature texts made only of stop words). So the model also builds engines that the source never constructs.
- Engine.RecommendationEngine.GetCollaborativeRecommendations: scikit-learn's `cosine_similarity` is the parameter `cosineSimilarity`; only its output length is assumed. Its normalisation, and its behaviour on a zero profile, are not modelled.
- Scores are exact reals. Floating-point rounding, NaN and the sparse-matrix representation are not modelled.
- Strings are ASCII: `str.lower()` and `str.strip()` are modelled for ASCII characters only.
- Engine.RecommendationEngine.FilterByGenre: `str.contains` there is regex-based by default; the model matches the genre as literal text.
- Negative counts `n` and Python's negative slicing are not modelled (`n` is a natural number).
- Tables.TopRatedRows: equal scores are ordered by catalog position. For `nlargest(n, 'rating')`, pandas promises this only while n is below the number of candidates. From there on it sorts with the default, unstable quicksort, and equal scores may come in any order.
- Tables.TopRatedOrdered: equal scores are ordered by catalog position. For `nlargest(n, 'rating')`, pandas promises this only while n is below the number of candidates. From there on it sorts with the default, unstable quicksort, and equal scores may come in any order.
- Engine.RecommendationEngine.GetTopRatedMovies: equal scores are ordered by catalog position. For `nlargest(n, 'rating')`, pandas promises this only while n is below the number of candidates. From there on it sorts with the default, unstable quicksort, and equal scores may come in any order.
- Engine.RecommendationEngine.GetTrendingMovies: equal scores are ordered by catalog position. For `nlargest(n, 'trend_score')`, pandas promises this only while n is below the number of candidates. From there on it sorts with the default, unstable quicksort, and equal scores may come in any order.
- Profile.CollaborativeRecommendations: equal scores are ordered by catalog position. For the top-rated fallback's `nlargest(n, 'rating')`, pandas promises this only while n is below the number of candidates. From there on it sorts with the default, unstable quicksort, and equal scores may come in any order.
- Engine.RecommendationEngine.GetHybridRecommendations: equal scores are ordered by catalog position. For the top-rated fallback behind the profile side (`nlargest(2n, 'rating')`), pandas promises this only while 2n is below the number of candidates. From there on it sorts with the default, unstable quicksort, and equal scores may come in any order.
- Blend.FillHybridScores: Python's iteration order over the id set is the parameter `allMovieIds`. The hybrid method passes one such order: the content ids, then the profile ids, each once. The blended result's contract does not depend on this order.
- Blend.RankBlendIsBlend: pandas' `sort_values` is not a stable sort by default. The model sorts stably, and the contract promises only a non-increasing order, not the order of ties.
- The catalog uses the default 0..N-1 index. The description and poster columns are carried by no operation and are omitted from the row type.
- Engine.RecommendationEngine.Valid: unique movie ids are part of the engine's invariant. The hybrid blend's one-row-per-id count relies on it.
- Auth.AuthManager.CreateUser: CSV persistence (`init_users_file`, `load_users`, `save_users`) is an in-memory sequence. pandas' type inference on reading the file back is not modelled.
- Auth.AuthManager.constructor: `hash_password` (SHA-256 hex digest) is an uninterpreted function, and `datetime.now()` is the `now` parameter of `CreateUser`.
