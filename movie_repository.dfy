/**
 * The movie repository (MovieLibrary.Data/Repositories/MovieRepository.cs): point
 * lookup and the filter query, as functions over the enumerated movie table. Every
 * movie arrives with its category memberships attached, as the eager loading of
 * the join table and its categories provides.
 *
 * The filter query composes up to four optional predicates, each applied only when
 * its argument is present, and then orders by rating, highest first.
 */
module MovieRepository {
  import opened Wrappers
  import opened Entities
  import Repositories

  // ----- Lookup -----

  /** The first movie with key `id`, or absent when there is none. */
  function GetById(movies: seq<Movie>, id: int): (r: Option<Movie>)
    ensures r.Some? ==> r.value in movies && r.value.id == id
    ensures r.None? <==> forall m :: m in movies ==> m.id != id
  {
    if movies == [] then None
    else if movies[0].id == id then Some(movies[0])
    else GetById(movies[1..], id)
  }

  /** On an enumeration of the movie table, the first-match lookup finds exactly the
      row stored under `id`. */
  lemma GetByIdOnListing(movies: seq<Movie>, rows: map<int, Movie>, id: int)
    requires Repositories.IsListing(movies, rows, MovieId)
    ensures GetById(movies, id) == if id in rows then Some(rows[id]) else None
  {
    var r := GetById(movies, id);
    if id in rows {
      assert rows[id] in movies;
      var i :| 0 <= i < |movies| && movies[i] == r.value;
      assert rows[MovieId(movies[i])] == movies[i];
    } else {
      forall m | m in movies ensures m.id != id {
        var i :| 0 <= i < |movies| && movies[i] == m;
        assert MovieId(movies[i]) in rows;
      }
    }
  }

  // ----- Case-insensitive title match -----

  /** Lower-casing of one character; the model folds the ASCII letters only. */
  function LowerChar(c: char): (r: char)
    ensures 'A' <= c <= 'Z' ==> 'a' <= r <= 'z'
    ensures !('A' <= c <= 'Z') ==> r == c
  {
    if 'A' <= c <= 'Z' then (c as int + ('a' as int - 'A' as int)) as char else c
  }

  function ToLower(s: string): (r: string)
    ensures |r| == |s|
    ensures forall i :: 0 <= i < |s| ==> r[i] == LowerChar(s[i])
  {
    if s == [] then [] else [LowerChar(s[0])] + ToLower(s[1..])
  }

  /** Lower-casing twice is lower-casing once. */
  lemma ToLowerIdempotent(s: string)
    ensures ToLower(ToLower(s)) == ToLower(s)
  {
  }

  ghost predicate OccursAt(hay: string, needle: string, i: int) {
    0 <= i && i + |needle| <= |hay| && hay[i..i + |needle|] == needle
  }

  /** An occurrence one position further into `hay` is an occurrence in its tail. */
  lemma OccursShift(hay: string, needle: string, i: int)
    requires |hay| > 0 && i >= 0
    ensures OccursAt(hay, needle, i + 1) <==> OccursAt(hay[1..], needle, i)
  {
    if i + 1 + |needle| <= |hay| {
      var here, there := hay[i + 1..i + 1 + |needle|], hay[1..][i..i + |needle|];
      assert forall k :: 0 <= k < |needle| ==> here[k] == hay[i + 1 + k] == there[k];
      assert here == there;
    }
  }

  /** Without an occurrence at the front, `needle` occurs in `hay` iff it occurs in its tail. */
  lemma OccursInTail(hay: string, needle: string)
    requires |needle| <= |hay| && !OccursAt(hay, needle, 0)
    ensures |hay| > 0
    ensures (exists i :: OccursAt(hay, needle, i)) <==> (exists j :: OccursAt(hay[1..], needle, j))
  {
    assert hay[..|needle|] == hay[0..|needle|];
    if exists i :: OccursAt(hay, needle, i) {
      var i :| OccursAt(hay, needle, i);
      OccursShift(hay, needle, i - 1);
    }
    if exists j :: OccursAt(hay[1..], needle, j) {
      var j :| OccursAt(hay[1..], needle, j);
      OccursShift(hay, needle, j);
    }
  }

  /** Ordinal substring test: `needle` occurs somewhere in `hay`. */
  function Contains(hay: string, needle: string): (r: bool)
    ensures r <==> exists i :: OccursAt(hay, needle, i)
    decreases |hay|
  {
    if |needle| > |hay| then
      false
    else if hay[..|needle|] == needle then
      assert OccursAt(hay, needle, 0);
      true
    else
      OccursInTail(hay, needle);
      Contains(hay[1..], needle)
  }

  // ----- The four criteria -----

  /** A text filter applies unless the text is null or empty. */
  predicate TextFilterActive(text: Option<string>) {
    text.Some? && |text.value| > 0
  }

  /** A category filter applies unless the id list is null or empty. */
  predicate CategoryFilterActive(categoryIds: Option<seq<int>>) {
    categoryIds.Some? && |categoryIds.value| > 0
  }

  /** The lower-cased title contains the lower-cased text. */
  predicate TitleMatches(m: Movie, text: string) {
    Contains(ToLower(m.title), ToLower(text))
  }

  /** Some membership of `m` names a category in `categoryIds`. */
  predicate InAnyCategory(m: Movie, categoryIds: seq<int>) {
    exists mc :: mc in m.memberships && mc.categoryId in categoryIds
  }

  /** The reference definition of a match: every criterion that applies holds. */
  predicate Matches(m: Movie, text: Option<string>, categoryIds: Option<seq<int>>,
                    minImdb: Option<Rating>, maxImdb: Option<Rating>)
  {
    && (TextFilterActive(text) ==> TitleMatches(m, text.value))
    && (CategoryFilterActive(categoryIds) ==> InAnyCategory(m, categoryIds.value))
    && (minImdb.Some? ==> m.imdbRating >= minImdb.value)
    && (maxImdb.Some? ==> m.imdbRating <= maxImdb.value)
  }

  // ----- Query building blocks -----

  /** The elements of `s` satisfying `p`, in their order: each element that satisfies
      `p` keeps its multiplicity, each other element disappears. */
  function Where(s: seq<Movie>, p: Movie -> bool): (r: seq<Movie>)
    ensures forall x :: multiset(r)[x] == if p(x) then multiset(s)[x] else 0
    ensures forall i :: 0 <= i < |r| ==> p(r[i])
  {
    if s == [] then []
    else
      assert s == [s[0]] + s[1..];
      if p(s[0]) then [s[0]] + Where(s[1..], p) else Where(s[1..], p)
  }

  ghost predicate SortedByRatingDesc(s: seq<Movie>) {
    forall i, j :: 0 <= i < j < |s| ==> s[i].imdbRating >= s[j].imdbRating
  }

  /** What is inserted behind the head of a sorted list is rated no higher than the head. */
  lemma InsertedBehindHead(m: Movie, s: seq<Movie>, tail: seq<Movie>)
    requires SortedByRatingDesc(s) && |s| > 0 && m.imdbRating < s[0].imdbRating
    requires multiset(tail) == multiset(s[1..]) + multiset{m}
    ensures forall i :: 0 <= i < |tail| ==> tail[i].imdbRating <= s[0].imdbRating
  {
    forall i | 0 <= i < |tail| ensures tail[i].imdbRating <= s[0].imdbRating {
      var x := tail[i];
      assert x in multiset(tail);
      if x != m {
        assert x in multiset(s[1..]);
        var j :| 0 <= j < |s| - 1 && s[1..][j] == x;
        assert s[j + 1] == x;
      }
    }
  }

  /** Inserts `m` into a list ordered by rating, ahead of the first movie rated no
      higher, so movies of equal rating keep their relative order. */
  function InsertByRating(m: Movie, s: seq<Movie>): (r: seq<Movie>)
    requires SortedByRatingDesc(s)
    ensures SortedByRatingDesc(r)
    ensures multiset(r) == multiset(s) + multiset{m}
  {
    if s == [] then [m]
    else if s[0].imdbRating <= m.imdbRating then [m] + s
    else
      assert s == [s[0]] + s[1..];
      var tail := InsertByRating(m, s[1..]);
      InsertedBehindHead(m, s, tail);
      [s[0]] + tail
  }

  /** A stable sort by rating, highest first. */
  function OrderByRatingDescending(s: seq<Movie>): (r: seq<Movie>)
    ensures SortedByRatingDesc(r)
    ensures multiset(r) == multiset(s)
  {
    if s == [] then []
    else
      assert s == [s[0]] + s[1..];
      InsertByRating(s[0], OrderByRatingDescending(s[1..]))
  }

  // ----- The filter query -----

  /** The title criterion: kept are the movies whose lower-cased title contains the
      lower-cased text; a null or empty text keeps everything. */
  function WhereTitle(movies: seq<Movie>, text: Option<string>): (r: seq<Movie>)
    ensures forall x :: multiset(r)[x] ==
                         if TextFilterActive(text) ==> TitleMatches(x, text.value) then multiset(movies)[x] else 0
  {
    if TextFilterActive(text) then
      var lowerText := ToLower(text.value);
      Where(movies, (m: Movie) => Contains(ToLower(m.title), lowerText))
    else movies
  }

  /** The category criterion: kept are the movies with a membership in one of the
      listed categories; a null or empty list keeps everything. */
  function WhereCategory(movies: seq<Movie>, categoryIds: Option<seq<int>>): (r: seq<Movie>)
    ensures forall x :: multiset(r)[x] ==
                         if CategoryFilterActive(categoryIds) ==> InAnyCategory(x, categoryIds.value) then multiset(movies)[x] else 0
  {
    if CategoryFilterActive(categoryIds) then
      var ids := categoryIds.value;
      Where(movies, (m: Movie) => exists mc :: mc in m.memberships && mc.categoryId in ids)
    else movies
  }

  /** The inclusive lower rating bound, when given. */
  function WhereMinRating(movies: seq<Movie>, minImdb: Option<Rating>): (r: seq<Movie>)
    ensures forall x :: multiset(r)[x] ==
                         if minImdb.Some? ==> x.imdbRating >= minImdb.value then multiset(movies)[x] else 0
  {
    if minImdb.Some? then
      var low := minImdb.value;
      Where(movies, (m: Movie) => m.imdbRating >= low)
    else movies
  }

  /** The inclusive upper rating bound, when given. */
  function WhereMaxRating(movies: seq<Movie>, maxImdb: Option<Rating>): (r: seq<Movie>)
    ensures forall x :: multiset(r)[x] ==
                         if maxImdb.Some? ==> x.imdbRating <= maxImdb.value then multiset(movies)[x] else 0
  {
    if maxImdb.Some? then
      var high := maxImdb.value;
      Where(movies, (m: Movie) => m.imdbRating <= high)
    else movies
  }

  /** Applies each criterion that is present, in the source's order, then sorts by
      rating, highest first. The result holds exactly the matching movies, each as
      often as it is stored, and ratings never increase along it. */
  function FilterMovies(movies: seq<Movie>, text: Option<string>, categoryIds: Option<seq<int>>,
                        minImdb: Option<Rating>, maxImdb: Option<Rating>): (r: seq<Movie>)
    ensures SortedByRatingDesc(r)
    ensures forall x :: multiset(r)[x] == if Matches(x, text, categoryIds, minImdb, maxImdb) then multiset(movies)[x] else 0
  {
    var byText := WhereTitle(movies, text);
    var byCategory := WhereCategory(byText, categoryIds);
    var byMin := WhereMinRating(byCategory, minImdb);
    var byMax := WhereMaxRating(byMin, maxImdb);
    OrderByRatingDescending(byMax)
  }

  /** Nothing that matches is dropped and nothing that does not match is kept. */
  lemma FilterMoviesExactlyMatching(movies: seq<Movie>, text: Option<string>, categoryIds: Option<seq<int>>,
                                    minImdb: Option<Rating>, maxImdb: Option<Rating>, m: Movie)
    ensures m in FilterMovies(movies, text, categoryIds, minImdb, maxImdb)
        <==> m in movies && Matches(m, text, categoryIds, minImdb, maxImdb)
  {
    var r := FilterMovies(movies, text, categoryIds, minImdb, maxImdb);
    assert m in r <==> m in multiset(r);
    assert m in movies <==> m in multiset(movies);
  }

  /** An element found at two positions is counted at least twice. */
  lemma TwiceCountsTwice(s: seq<Movie>, i: int, j: int)
    requires 0 <= i < j < |s| && s[i] == s[j]
    ensures multiset(s)[s[i]] >= 2
  {
    assert s == s[..j] + s[j..];
    assert s[..j][i] == s[i] && s[j..][0] == s[i];
    assert s[i] in multiset(s[..j]) && s[i] in multiset(s[j..]);
  }

  /** A list that holds each element at most as often as a list without repeated
      keys has no repeated keys either. */
  lemma SubMultisetKeepsKeysDistinct(movies: seq<Movie>, r: seq<Movie>)
    requires Repositories.DistinctKeys(movies, MovieId)
    requires forall x :: multiset(r)[x] <= multiset(movies)[x]
    ensures Repositories.DistinctKeys(r, MovieId)
  {
    forall i, j | 0 <= i < j < |r| ensures MovieId(r[i]) != MovieId(r[j]) {
      assert r[i] in multiset(r) && r[j] in multiset(r);
      assert r[i] in multiset(movies) && r[j] in multiset(movies);
      var a :| 0 <= a < |movies| && movies[a] == r[i];
      var b :| 0 <= b < |movies| && movies[b] == r[j];
      if r[i] == r[j] {
        TwiceCountsTwice(r, i, j);
        Repositories.DistinctKeysOccurOnce(movies, MovieId, r[i]);
      } else if a < b {
        assert MovieId(movies[a]) != MovieId(movies[b]);
      } else {
        assert MovieId(movies[b]) != MovieId(movies[a]);
      }
    }
  }

  /** The query never repeats a movie: on a table whose keys are unique, no id occurs
      twice in the result. */
  lemma FilterMoviesKeepsKeysDistinct(movies: seq<Movie>, text: Option<string>, categoryIds: Option<seq<int>>,
                                      minImdb: Option<Rating>, maxImdb: Option<Rating>)
    requires Repositories.DistinctKeys(movies, MovieId)
    ensures Repositories.DistinctKeys(FilterMovies(movies, text, categoryIds, minImdb, maxImdb), MovieId)
  {
    var r := FilterMovies(movies, text, categoryIds, minImdb, maxImdb);
    forall x ensures multiset(r)[x] <= multiset(movies)[x] {
    }
    SubMultisetKeepsKeysDistinct(movies, r);
  }

  /** Two enumerations of the same table give the same result up to order. */
  lemma FilterMoviesIgnoresEnumerationOrder(movies1: seq<Movie>, movies2: seq<Movie>, rows: map<int, Movie>,
                                            text: Option<string>, categoryIds: Option<seq<int>>,
                                            minImdb: Option<Rating>, maxImdb: Option<Rating>)
    requires Repositories.IsListing(movies1, rows, MovieId) && Repositories.IsListing(movies2, rows, MovieId)
    ensures multiset(FilterMovies(movies1, text, categoryIds, minImdb, maxImdb))
         == multiset(FilterMovies(movies2, text, categoryIds, minImdb, maxImdb))
  {
    Repositories.ListingsArePermutations(movies1, movies2, rows, MovieId);
    var p := (x: Movie) => Matches(x, text, categoryIds, minImdb, maxImdb);
    SameSelectionOfSameElements(FilterMovies(movies1, text, categoryIds, minImdb, maxImdb),
                                FilterMovies(movies2, text, categoryIds, minImdb, maxImdb), movies1, movies2, p);
  }

  /** Selecting by the same predicate from lists with the same elements selects the
      same elements. */
  lemma SameSelectionOfSameElements(r1: seq<Movie>, r2: seq<Movie>, s1: seq<Movie>, s2: seq<Movie>, p: Movie -> bool)
    requires multiset(s1) == multiset(s2)
    requires forall x :: multiset(r1)[x] == if p(x) then multiset(s1)[x] else 0
    requires forall x :: multiset(r2)[x] == if p(x) then multiset(s2)[x] else 0
    ensures multiset(r1) == multiset(r2)
  {
    forall x ensures multiset(r1)[x] == multiset(r2)[x] {
    }
  }

  /** Without criteria, and with an empty text and an empty id list, which count as
      absent, the query is the whole table ordered by rating. */
  lemma FilterMoviesWithoutCriteria(movies: seq<Movie>)
    ensures FilterMovies(movies, None, None, None, None) == OrderByRatingDescending(movies)
    ensures FilterMovies(movies, Some(""), Some([]), None, None) == OrderByRatingDescending(movies)
  {
  }

  /** The title text is matched regardless of the case of its ASCII letters. */
  lemma FilterMoviesIgnoresTextCase(movies: seq<Movie>, text: string, categoryIds: Option<seq<int>>,
                                    minImdb: Option<Rating>, maxImdb: Option<Rating>)
    ensures FilterMovies(movies, Some(text), categoryIds, minImdb, maxImdb)
         == FilterMovies(movies, Some(ToLower(text)), categoryIds, minImdb, maxImdb)
  {
    ToLowerIdempotent(text);
  }
}
