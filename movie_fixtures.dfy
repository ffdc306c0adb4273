/**
 * The expectations of the repository and service tests
 * (MovieLibrary.Test.Unit/Repositories/MovieRepositoryTest.cs and
 * MovieLibrary.Test.Unit/Services/MovieServiceTest.cs), derived from the model's
 * contracts. The seeded table holds "Movie 1" rated 8.0 in categories 1 and 2, and
 * "Movie 2" rated 6.5 in category 1; ratings are in hundredths.
 */
module MovieFixtures {
  import opened Wrappers
  import opened Entities
  import Repositories
  import MovieRepository
  import MovieServices

  const Action: Category := Category(1, "Action")
  const Drama: Category := Category(2, "Drama")
  const Movie1: Movie := Movie(1, "Movie 1", "", 0, 800, [MovieCategory(1, 1, Action), MovieCategory(1, 2, Drama)])
  const Movie2: Movie := Movie(2, "Movie 2", "", 0, 650, [MovieCategory(2, 1, Action)])

  /** A list whose elements are exactly one movie is that movie alone. */
  lemma OnlyElement(r: seq<Movie>, m: Movie)
    requires multiset(r) == multiset{m}
    ensures r == [m]
  {
    assert |r| == |multiset(r)| == 1;
    assert r[0] in multiset(r);
  }

  /** A list ordered by rating whose elements are two differently rated movies lists
      the higher rated one first. */
  lemma HigherRatedFirst(r: seq<Movie>, high: Movie, low: Movie)
    requires MovieRepository.SortedByRatingDesc(r)
    requires multiset(r) == multiset{high, low} && high.imdbRating > low.imdbRating
    ensures r == [high, low]
  {
    assert |r| == |multiset(r)| == 2;
    assert r[0] in multiset(r) && r[1] in multiset(r);
  }

  /** "Movie 1" contains its own text, whatever the case. */
  lemma Movie1TitleMatches()
    ensures MovieRepository.TitleMatches(Movie1, "Movie 1")
  {
    var t1 := MovieRepository.ToLower("Movie 1");
    SameLengthContains(t1, t1);
  }

  /** "Movie 2" does not contain "Movie 1". */
  lemma Movie2TitleDoesNotMatch()
    ensures !MovieRepository.TitleMatches(Movie2, "Movie 1")
  {
    var t1, t2 := MovieRepository.ToLower("Movie 1"), MovieRepository.ToLower("Movie 2");
    assert t1[6] != t2[6];
    SameLengthContains(t2, t1);
  }

  /** Of two strings of one length, one contains the other only when they are equal. */
  lemma SameLengthContains(hay: string, needle: string)
    requires |hay| == |needle|
    ensures MovieRepository.Contains(hay, needle) <==> hay == needle
  {
    if MovieRepository.Contains(hay, needle) {
      var i :| MovieRepository.OccursAt(hay, needle, i);
      assert hay[..] == hay[0..|needle|];
    } else {
      assert hay == needle ==> MovieRepository.OccursAt(hay, needle, 0);
    }
  }

  /** Each title contains its own text, and neither seeded title contains the other's. */
  lemma SeededTitles()
    ensures MovieRepository.TitleMatches(Movie1, "Movie 1")
    ensures !MovieRepository.TitleMatches(Movie2, "Movie 1")
  {
    Movie1TitleMatches();
    Movie2TitleDoesNotMatch();
  }

  /** What keeps exactly `kept` out of `[kept, dropped]` returns `[kept]`. */
  lemma SelectsFirstOfTwo(r: seq<Movie>, kept: Movie, dropped: Movie, p: Movie -> bool)
    requires kept != dropped && p(kept) && !p(dropped)
    requires forall x :: multiset(r)[x] == if p(x) then multiset([kept, dropped])[x] else 0
    ensures r == [kept]
  {
    forall x ensures multiset(r)[x] == multiset{kept}[x] {
    }
    OnlyElement(r, kept);
  }

  /** What keeps both of `[high, low]`, ordered by rating, returns `[high, low]`. */
  lemma SelectsBothOfTwo(r: seq<Movie>, high: Movie, low: Movie, p: Movie -> bool)
    requires high.imdbRating > low.imdbRating && p(high) && p(low)
    requires MovieRepository.SortedByRatingDesc(r)
    requires forall x :: multiset(r)[x] == if p(x) then multiset([high, low])[x] else 0
    ensures r == [high, low]
  {
    forall x ensures multiset(r)[x] == multiset{high, low}[x] {
    }
    HigherRatedFirst(r, high, low);
  }

  /** Filtering the seeded table by the text "Movie 1" with a minimum rating of 0
      returns "Movie 1" alone. */
  lemma FilterByTextReturnsMovie1(seed: seq<Movie>)
    requires seed == [Movie1, Movie2]
    ensures MovieRepository.FilterMovies(seed, Some("Movie 1"), None, Some(0), None) == [Movie1]
  {
    SeededTitles();
    var p := (x: Movie) => MovieRepository.Matches(x, Some("Movie 1"), None, Some(0), None);
    SelectsFirstOfTwo(MovieRepository.FilterMovies(seed, Some("Movie 1"), None, Some(0), None), Movie1, Movie2, p);
  }

  /** Filtering the seeded table by category 1 returns both movies, "Movie 1" first. */
  lemma FilterByCategoryReturnsBoth(seed: seq<Movie>)
    requires seed == [Movie1, Movie2]
    ensures MovieRepository.FilterMovies(seed, None, Some([1]), None, None) == [Movie1, Movie2]
  {
    assert Movie1.memberships[0] in Movie1.memberships && Movie2.memberships[0] in Movie2.memberships;
    var p := (x: Movie) => MovieRepository.Matches(x, None, Some([1]), None, None);
    SelectsBothOfTwo(MovieRepository.FilterMovies(seed, None, Some([1]), None, None), Movie1, Movie2, p);
  }

  /** Filtering the seeded table by ratings from 7.0 to 10.0 returns "Movie 1" alone. */
  lemma FilterByRatingReturnsMovie1(seed: seq<Movie>)
    requires seed == [Movie1, Movie2]
    ensures MovieRepository.FilterMovies(seed, None, None, Some(700), Some(1000)) == [Movie1]
  {
    var p := (x: Movie) => MovieRepository.Matches(x, None, None, Some(700), Some(1000));
    SelectsFirstOfTwo(MovieRepository.FilterMovies(seed, None, None, Some(700), Some(1000)), Movie1, Movie2, p);
  }

  /** Filtering the seeded table by the text "Movie 1" and category 1 returns "Movie 1"
      alone. */
  lemma FilterByTextAndCategoryReturnsMovie1(seed: seq<Movie>)
    requires seed == [Movie1, Movie2]
    ensures MovieRepository.FilterMovies(seed, Some("Movie 1"), Some([1]), None, None) == [Movie1]
  {
    SeededTitles();
    assert Movie1.memberships[0] in Movie1.memberships;
    var p := (x: Movie) => MovieRepository.Matches(x, Some("Movie 1"), Some([1]), None, None);
    SelectsFirstOfTwo(MovieRepository.FilterMovies(seed, Some("Movie 1"), Some([1]), None, None), Movie1, Movie2, p);
  }

  /** The service test's paging: of fifteen movies with distinct keys, pages one and two
      of size five both hold five movies, and their first movies differ. */
  lemma FirstTwoPagesOfFifteen(filtered: seq<Movie>)
    requires |filtered| == 15 && Repositories.DistinctKeys(filtered, MovieId)
    ensures var page1 := MovieServices.Paginate(filtered, Some(1), Some(5));
            var page2 := MovieServices.Paginate(filtered, Some(2), Some(5));
            |page1| == 5 && |page2| == 5 && page1[0].id != page2[0].id
  {
    MovieServices.PageBounds(15, 1, 5);
    MovieServices.PageBounds(15, 2, 5);
    MovieServices.PagesShareNoMovie(filtered, 1, 2, 5);
  }
}
