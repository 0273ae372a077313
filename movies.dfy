/** The movie catalog (the rows of `movies_df`) and the per-row logic the engine
    applies to it: the combined feature text, id lookup, the row filters behind
    search and the three range/genre filters, genre tokens, the trend score, the
    profile weight of a rating, and the vector arithmetic of the content model. */
module Movies {
  import opened Basics
  import opened Strings

  /** One catalog row. A text cell may be missing (NaN in the table). */
  datatype Movie = Movie(
    movieId: int,
    title: Option<string>,
    year: int,
    rating: real,
    genre: Option<string>,
    keywords: Option<string>,
    director: Option<string>,
    cast: Option<string>)

  /** A row of a result table: the movie and the index label it had in `movies_df`. */
  datatype Row = Row(index: nat, movie: Movie)

  /** A row of a result table that carries a score column. */
  datatype Scored = Scored(index: nat, movie: Movie, score: real)

  predicate UniqueIds(movies: seq<Movie>) {
    forall i, j :: 0 <= i < j < |movies| ==> movies[i].movieId != movies[j].movieId
  }

  /** Each row of a result is the catalog row its index label names. */
  predicate RowsOf(movies: seq<Movie>, rows: seq<Row>) {
    forall r :: r in rows ==> r.index < |movies| && r.movie == movies[r.index]
  }

  predicate ScoredRowsOf(movies: seq<Movie>, rows: seq<Scored>) {
    forall r :: r in rows ==> r.index < |movies| && r.movie == movies[r.index]
  }

  predicate IncreasingIndices(rows: seq<Row>) {
    forall i, j :: 0 <= i < j < |rows| ==> rows[i].index < rows[j].index
  }

  // ---------------------------------------------------------------- prepare_data

  /** `fillna('')` on one cell. */
  function FillNa(cell: Option<string>): string {
    match cell
    case None => ""
    case Some(s) => s
  }

  /** `.str.lower()` on one cell; a missing cell stays missing. */
  function LowerCell(cell: Option<string>): Option<string> {
    match cell
    case None => None
    case Some(s) => Some(Lower(s))
  }

  /** The `combined_features` cell: genre, keywords, director and cast, missing cells as empty
      text, joined by single spaces and lowered. */
  function CombinedFeatures(m: Movie): (r: string)
    ensures r == Lower(FillNa(m.genre)) + " " + Lower(FillNa(m.keywords)) + " "
               + Lower(FillNa(m.director)) + " " + Lower(FillNa(m.cast))
  {
    var g, k, d, c := FillNa(m.genre), FillNa(m.keywords), FillNa(m.director), FillNa(m.cast);
    LowerAppend(g + " " + k + " " + d + " ", c);
    LowerAppend(g + " " + k + " " + d, " ");
    LowerAppend(g + " " + k + " ", d);
    LowerAppend(g + " " + k, " ");
    LowerAppend(g + " ", k);
    LowerAppend(g, " ");
    Lower(g + " " + k + " " + d + " " + c)
  }

  /** Every present feature cell, lowered, is a piece of the combined feature text. */
  lemma FeatureTextHasFields(m: Movie)
    ensures m.genre.Some? ==> Contains(CombinedFeatures(m), Lower(m.genre.value))
    ensures m.keywords.Some? ==> Contains(CombinedFeatures(m), Lower(m.keywords.value))
    ensures m.director.Some? ==> Contains(CombinedFeatures(m), Lower(m.director.value))
    ensures m.cast.Some? ==> Contains(CombinedFeatures(m), Lower(m.cast.value))
  {
    var g, k, d, c := Lower(FillNa(m.genre)), Lower(FillNa(m.keywords)), Lower(FillNa(m.director)), Lower(FillNa(m.cast));
    var sp := " ";
    ContainsSelf(g);
    ContainsSelf(k);
    ContainsSelf(d);
    ContainsSelf(c);
    ContainsAppend(g, sp, g);
    ContainsAppend(g + sp, k, g);
    ContainsAppend(g + sp, k, k);
    ContainsAppend(g + sp + k, sp, g);
    ContainsAppend(g + sp + k, sp, k);
    ContainsAppend(g + sp + k + sp, d, g);
    ContainsAppend(g + sp + k + sp, d, k);
    ContainsAppend(g + sp + k + sp, d, d);
    ContainsAppend(g + sp + k + sp + d, sp, g);
    ContainsAppend(g + sp + k + sp + d, sp, k);
    ContainsAppend(g + sp + k + sp + d, sp, d);
    ContainsAppend(g + sp + k + sp + d + sp, c, g);
    ContainsAppend(g + sp + k + sp + d + sp, c, k);
    ContainsAppend(g + sp + k + sp + d + sp, c, d);
    ContainsAppend(g + sp + k + sp + d + sp, c, c);
  }

  // ---------------------------------------------------------------- lookup

  /** The position of the first row whose `movie_id` is `id`: `df[df['movie_id'] == id].index[0]`
      under the default 0..N-1 index. */
  function FirstIndexOf(movies: seq<Movie>, id: int): (r: Option<nat>)
    ensures r.None? <==> forall j :: 0 <= j < |movies| ==> movies[j].movieId != id
    ensures r.Some? ==> r.value < |movies| && movies[r.value].movieId == id
                        && forall j :: 0 <= j < r.value ==> movies[j].movieId != id
  {
    if movies == [] then None
    else if movies[0].movieId == id then Some(0)
    else
      match FirstIndexOf(movies[1..], id)
      case None => None
      case Some(i) => Some(i + 1)
  }

  // ---------------------------------------------------------------- boolean-mask selection

  /** `df[mask]` for a boolean mask aligned with the rows: the rows where the mask is true, in
      catalog order, with their index labels. */
  function Select(movies: seq<Movie>, mask: seq<bool>): (r: seq<Row>)
    requires |mask| == |movies|
    ensures RowsOf(movies, r) && IncreasingIndices(r)
    ensures forall i :: 0 <= i < |movies| ==> (Row(i, movies[i]) in r <==> mask[i])
    ensures forall x :: x in r ==> mask[x.index]
    ensures |r| <= |movies|
  {
    if movies == [] then []
    else
      var last := |movies| - 1;
      var init := Select(movies[..last], mask[..last]);
      SelectStep(movies, mask, movies[..last], mask[..last], init);
      init + (if mask[last] then [Row(last, movies[last])] else [])
  }

  /** One more row of `df[mask]`: the selection of all rows but the last, then the last row
      when the mask keeps it. */
  lemma SelectStep(movies: seq<Movie>, mask: seq<bool>, front: seq<Movie>, frontMask: seq<bool>, init: seq<Row>)
    requires |mask| == |movies| >= 1
    requires front == movies[..|movies| - 1] && frontMask == mask[..|movies| - 1]
    requires RowsOf(front, init) && IncreasingIndices(init) && |init| <= |front|
    requires forall i :: 0 <= i < |front| ==> (Row(i, front[i]) in init <==> frontMask[i])
    requires forall x :: x in init ==> frontMask[x.index]
    ensures var r := init + (if mask[|movies| - 1] then [Row(|movies| - 1, movies[|movies| - 1])] else []);
      && RowsOf(movies, r) && IncreasingIndices(r)
      && (forall i :: 0 <= i < |movies| ==> (Row(i, movies[i]) in r <==> mask[i]))
      && (forall x :: x in r ==> mask[x.index])
      && |r| <= |movies|
  {
    var last := |movies| - 1;
    var tail := if mask[last] then [Row(last, movies[last])] else [];
    assert forall i :: 0 <= i < last ==> front[i] == movies[i] && frontMask[i] == mask[i];
    assert forall x :: x in init ==> x.index < last;
    assert forall x :: x in init + tail <==> x in init || x in tail;
  }

  /** The first position of a row in a table that holds it. */
  function PositionOf(rows: seq<Row>, x: Row): (k: nat)
    requires x in rows
    ensures k < |rows| && rows[k] == x
  {
    if rows[0] == x then 0 else 1 + PositionOf(rows[1..], x)
  }

  /** The whole table, every row with its index label. */
  function AllRows(movies: seq<Movie>): (r: seq<Row>)
    ensures |r| == |movies| && RowsOf(movies, r) && IncreasingIndices(r)
    ensures forall i :: 0 <= i < |movies| ==> r[i] == Row(i, movies[i])
  {
    seq(|movies|, i requires 0 <= i < |movies| => Row(i, movies[i]))
  }

  // ---------------------------------------------------------------- search and filters

  /** `cell.str.lower().str.contains(q, na=False, regex=False)` for an already lowered query:
      a missing cell never matches. */
  predicate CellContains(cell: Option<string>, q: string) {
    cell.Some? && Contains(Lower(cell.value), q)
  }

  /** The mask of `search_movies`: the lowered query is a piece of the lowered title, genre,
      director, cast or keywords. */
  predicate MatchesQuery(m: Movie, query: string): (b: bool)
    ensures b ==> m.title.Some? || m.genre.Some? || m.director.Some? || m.cast.Some? || m.keywords.Some?
  {
    var q := Lower(query);
    CellContains(m.title, q) || CellContains(m.genre, q) || CellContains(m.director, q)
    || CellContains(m.cast, q) || CellContains(m.keywords, q)
  }

  /** A case-sensitive occurrence of the query in any of the five fields is found by the
      case-insensitive search. */
  lemma MatchesQueryFindsRawText(m: Movie, query: string)
    requires || (m.title.Some? && Contains(m.title.value, query))
             || (m.genre.Some? && Contains(m.genre.value, query))
             || (m.director.Some? && Contains(m.director.value, query))
             || (m.cast.Some? && Contains(m.cast.value, query))
             || (m.keywords.Some? && Contains(m.keywords.value, query))
    ensures MatchesQuery(m, query)
  {
    if m.title.Some? && Contains(m.title.value, query) {
      ContainsLower(m.title.value, query);
    } else if m.genre.Some? && Contains(m.genre.value, query) {
      ContainsLower(m.genre.value, query);
    } else if m.director.Some? && Contains(m.director.value, query) {
      ContainsLower(m.director.value, query);
    } else if m.cast.Some? && Contains(m.cast.value, query) {
      ContainsLower(m.cast.value, query);
    } else {
      ContainsLower(m.keywords.value, query);
    }
  }

  /** The mask of `filter_by_genre` for a genre other than `'All'`: case-insensitive containment
      of the literal genre text. */
  predicate GenreMatches(m: Movie, genre: string) {
    CellContains(m.genre, Lower(genre))
  }

  predicate InYearRange(m: Movie, minYear: int, maxYear: int) {
    minYear <= m.year <= maxYear
  }

  predicate InRatingRange(m: Movie, minRating: real, maxRating: real) {
    minRating <= m.rating <= maxRating
  }

  // ---------------------------------------------------------------- genres

  /** The tokens of one genre cell: `[g.strip() for g in genres.split(',')]`. */
  function GenreTokensOf(genres: string): set<string> {
    set p | p in Split(genres, ',') :: Strip(p)
  }

  /** Every token of every non-missing genre cell. */
  function GenreTokens(movies: seq<Movie>): (r: set<string>)
    ensures forall t :: t in r <==> exists i :: 0 <= i < |movies| && movies[i].genre.Some?
                                                && t in GenreTokensOf(movies[i].genre.value)
  {
    if movies == [] then {}
    else
      var last := |movies| - 1;
      var init := GenreTokens(movies[..last]);
      assert forall i :: 0 <= i < last ==> movies[..last][i] == movies[i];
      init + (if movies[last].genre.Some? then GenreTokensOf(movies[last].genre.value) else {})
  }

  /** A genre token has no white space at either end and no comma. */
  lemma GenreTokenShape(genres: string, t: string)
    requires t in GenreTokensOf(genres)
    ensures t == [] || (!IsSpace(t[0]) && !IsSpace(t[|t| - 1]))
    ensures ',' !in t
  {
    var p :| p in Split(genres, ',') && Strip(p) == t;
    if ',' in t {
      StripChars(p, ',');
    }
  }

  // ---------------------------------------------------------------- scores

  /** `trend_score = rating * (year - 2000) / 25`. */
  function TrendScore(m: Movie): (s: real)
    ensures m.rating >= 0.0 && m.year >= 2000 ==> s >= 0.0
    ensures m.year == 2025 ==> s == m.rating
  {
    m.rating * (m.year - 2000) as real / 25.0
  }

  /** The trend score rewards recency linearly: for the same non-negative rating, a later year
      never scores lower, and each year adds a twenty-fifth of the rating. */
  lemma TrendScoreRewardsRecency(m: Movie, later: Movie)
    requires m.rating == later.rating >= 0.0 && m.year <= later.year
    ensures TrendScore(m) <= TrendScore(later)
    ensures TrendScore(later) - TrendScore(m) == m.rating * (later.year - m.year) as real / 25.0
  {
  }

  /** `weight = (rating - 2.5) / 2.5`: a rating of 2.5 weighs nothing, higher pulls, lower pushes. */
  function ProfileWeight(rating: real): (w: real)
    ensures w == 0.0 <==> rating == 2.5
    ensures w > 0.0 <==> rating > 2.5
  {
    (rating - 2.5) / 2.5
  }

  function Abs(x: real): real {
    if x < 0.0 then -x else x
  }

  // ---------------------------------------------------------------- vectors

  /** A table with `rows` rows, all of one width. */
  predicate IsMatrix(m: seq<seq<real>>, rows: nat) {
    |m| == rows && forall i :: 0 <= i < |m| ==> |m[i]| == Width(m)
  }

  function Width(m: seq<seq<real>>): nat {
    if |m| == 0 then 0 else |m[0]|
  }

  function Zeros(d: nat): (v: seq<real>)
    ensures |v| == d && forall k :: 0 <= k < d ==> v[k] == 0.0
  {
    seq(d, k => 0.0)
  }

  /** `v + w * c`, elementwise. */
  function AddScaled(v: seq<real>, w: seq<real>, c: real): (r: seq<real>)
    requires |v| == |w|
    ensures |r| == |v|
  {
    seq(|v|, k requires 0 <= k < |v| => v[k] + w[k] * c)
  }

  /** `v / c`, elementwise. */
  function Divide(v: seq<real>, c: real): (r: seq<real>)
    requires c != 0.0
    ensures |r| == |v|
  {
    seq(|v|, k requires 0 <= k < |v| => v[k] / c)
  }

  /** The dot product of two rows of the TF-IDF matrix. */
  function Dot(u: seq<real>, v: seq<real>): real
    requires |u| == |v|
  {
    if u == [] then 0.0 else u[0] * v[0] + Dot(u[1..], v[1..])
  }

  lemma {:induction false} DotSymmetric(u: seq<real>, v: seq<real>)
    requires |u| == |v|
    ensures Dot(u, v) == Dot(v, u)
  {
    if u != [] {
      DotSymmetric(u[1..], v[1..]);
    }
  }

  /** `linear_kernel(X, X)`: the matrix of pairwise dot products. */
  function LinearKernel(x: seq<seq<real>>): (k: seq<seq<real>>)
    requires IsMatrix(x, |x|)
    ensures IsMatrix(k, |x|) && (|x| > 0 ==> Width(k) == |x|)
  {
    seq(|x|, i requires 0 <= i < |x| => seq(|x|, j requires 0 <= j < |x| => Dot(x[i], x[j])))
  }

  /** The similarity matrix is symmetric. */
  lemma LinearKernelSymmetric(x: seq<seq<real>>, i: nat, j: nat)
    requires IsMatrix(x, |x|) && i < |x| && j < |x|
    ensures LinearKernel(x)[i][j] == LinearKernel(x)[j][i]
  {
    DotSymmetric(x[i], x[j]);
  }

  /** `2 u.v <= u.u + v.v`, the sum over the coordinates of `(u_k - v_k)^2 >= 0`. */
  lemma {:induction false} DotBound(u: seq<real>, v: seq<real>)
    requires |u| == |v|
    ensures 2.0 * Dot(u, v) <= Dot(u, u) + Dot(v, v)
  {
    if u != [] {
      DotBound(u[1..], v[1..]);
      var a, b := u[0], v[0];
      assert (a - b) * (a - b) >= 0.0;
      assert (a - b) * (a - b) == a * a - 2.0 * a * b + b * b;
    }
  }

  /** When every TF-IDF row has the same length (as L2-normalised rows do), no movie is more
      similar to the seed than the seed itself. */
  lemma SelfSimilarityIsMaximal(x: seq<seq<real>>, s: nat, j: nat)
    requires IsMatrix(x, |x|) && s < |x| && j < |x|
    requires Dot(x[s], x[s]) == Dot(x[j], x[j])
    ensures LinearKernel(x)[s][j] <= LinearKernel(x)[s][s]
  {
    DotBound(x[s], x[j]);
  }
}
