/**
 * The movie service (MovieLibrary.Core/Services/MovieService.cs): maps movie entities
 * to transfer objects, gives not-found results as absent values or `false` without
 * writing, and pages the filter query's result.
 */
module MovieServices {
  import opened Wrappers
  import opened Entities
  import Repositories
  import MovieRepository

  // ----- Entity to DTO mapping -----

  function CategoryDtoOf(c: Category): CategoryDto {
    CategoryDto(c.id, c.name)
  }

  /** One category DTO per membership, in membership order, carrying the id and name
      of the membership's category. */
  function CategoryDtos(memberships: seq<MovieCategory>): (r: seq<CategoryDto>)
    ensures |r| == |memberships|
    ensures forall i :: 0 <= i < |r| ==>
                          r[i].id == memberships[i].category.id && r[i].name == memberships[i].category.name
  {
    if memberships == [] then []
    else [CategoryDtoOf(memberships[0].category)] + CategoryDtos(memberships[1..])
  }

  /** The DTO of a movie: its scalar fields and the categories of its memberships. */
  function ToDto(m: Movie): MovieDto {
    MovieDto(m.id, m.title, m.description, m.year, m.imdbRating, CategoryDtos(m.memberships))
  }

  /** One DTO per movie, in the same order. */
  function ToDtos(movies: seq<Movie>): (r: seq<MovieDto>)
    ensures |r| == |movies|
    ensures forall i :: 0 <= i < |r| ==> r[i] == ToDto(movies[i])
  {
    if movies == [] then [] else [ToDto(movies[0])] + ToDtos(movies[1..])
  }

  /** The entity `Create` builds: the DTO's scalar fields only; the key is left at its
      default and no memberships are made. */
  function NewMovie(dto: MovieDto): Movie {
    Movie(0, dto.title, dto.description, dto.year, dto.imdbRating, [])
  }

  /** The entity `Update` writes back: the stored movie with its scalar fields taken
      from the DTO. */
  function WithScalarsOf(m: Movie, dto: MovieDto): Movie {
    m.(title := dto.title, description := dto.description, year := dto.year, imdbRating := dto.imdbRating)
  }

  /** Reading back a created movie gives the DTO it came from, under its new key and
      with no categories. */
  lemma NewMovieReadsBack(dto: MovieDto, id: int)
    ensures ToDto(MovieWithId(NewMovie(dto), id)) == dto.(id := id, categories := [])
  {
  }

  /** Reading back an updated movie gives the DTO's scalar fields and the categories the
      movie already had: an update never changes memberships. */
  lemma UpdatedMovieReadsBack(m: Movie, dto: MovieDto)
    requires dto.id == m.id
    ensures WithScalarsOf(m, dto).memberships == m.memberships
    ensures ToDto(WithScalarsOf(m, dto)) == dto.(categories := ToDto(m).categories)
  {
  }

  // ----- Pagination -----

  const DefaultPage: Int32 := 1
  const DefaultPageSize: Int32 := 10

  /** `(page - 1) * pageSize` in C#'s unchecked 32-bit arithmetic. */
  function SkipCount(page: Int32, pageSize: Int32): Int32 {
    Wrap32(Wrap32(page - 1) * pageSize)
  }

  /** LINQ's `Skip`: a count of zero or less skips nothing. */
  function Skip(s: seq<Movie>, count: int): seq<Movie> {
    if count <= 0 then s else if count >= |s| then [] else s[count..]
  }

  /** LINQ's `Take`: a count of zero or less takes nothing. */
  function Take(s: seq<Movie>, count: int): seq<Movie> {
    if count <= 0 then [] else if count >= |s| then s else s[..count]
  }

  /** Where a page starts in a list of length `n`. */
  function PageStart(n: nat, page: Int32, pageSize: Int32): (lo: nat)
    ensures lo <= n
  {
    var skip := SkipCount(page, pageSize);
    if skip <= 0 then 0 else if skip >= n then n else skip
  }

  /** Where a page ends in a list of length `n`. */
  function PageEnd(n: nat, page: Int32, pageSize: Int32): (hi: nat)
    ensures PageStart(n, page, pageSize) <= hi <= n
    ensures pageSize <= 0 ==> hi == PageStart(n, page, pageSize)
    ensures pageSize > 0 ==> hi - PageStart(n, page, pageSize) <= pageSize
  {
    var lo := PageStart(n, page, pageSize);
    if pageSize <= 0 then lo else if lo + pageSize >= n then n else lo + pageSize
  }

  /** `Skip((page - 1) * pageSize).Take(pageSize)` is one contiguous slice of `s`. */
  function Page(s: seq<Movie>, page: Int32, pageSize: Int32): (r: seq<Movie>)
    ensures r == s[PageStart(|s|, page, pageSize)..PageEnd(|s|, page, pageSize)]
  {
    var skipped := Skip(s, SkipCount(page, pageSize));
    assert skipped == s[PageStart(|s|, page, pageSize)..];
    Take(skipped, pageSize)
  }

  /** The service's paging: absent `page` and `pageSize` become 1 and 10, then the
      page is cut from the filtered list and mapped to DTOs. */
  function Paginate(filtered: seq<Movie>, page: Option<Int32>, pageSize: Option<Int32>): seq<MovieDto> {
    ToDtos(Page(filtered, page.GetOr(DefaultPage), pageSize.GetOr(DefaultPageSize)))
  }

  /** For a page number and size of at least one whose skip count fits in 32 bits,
      the page starts at `(page - 1) * pageSize`, clamped to the list, and holds the
      next `pageSize` movies or as many as remain. */
  lemma PageBounds(n: nat, page: Int32, pageSize: Int32)
    requires page >= 1 && pageSize >= 1 && (page - 1) * pageSize <= MaxInt32
    ensures PageStart(n, page, pageSize) == if (page - 1) * pageSize < n then (page - 1) * pageSize else n
    ensures PageEnd(n, page, pageSize) ==
              var lo := PageStart(n, page, pageSize);
              if lo + pageSize < n then lo + pageSize else n
  {
    var skip := (page - 1) * pageSize;
    NonNegativeProduct(page - 1, pageSize);
    assert Wrap32(page - 1) == page - 1;
    assert SkipCount(page, pageSize) == Wrap32(skip) == skip;
  }

  lemma NonNegativeProduct(a: int, b: int)
    requires a >= 0 && b >= 0
    ensures a * b >= 0
  {
  }

  /** With no page and no page size the result is the first ten filtered movies. */
  lemma DefaultPaginationIsFirstTen(filtered: seq<Movie>)
    ensures Paginate(filtered, None, None) == ToDtos(filtered[..if |filtered| < 10 then |filtered| else 10])
  {
    PageBounds(|filtered|, 1, 10);
  }

  /** A page never holds more than `pageSize` movies, and none when `pageSize` is zero
      or less. */
  lemma PageSizeBound(filtered: seq<Movie>, page: Option<Int32>, pageSize: Option<Int32>)
    ensures var size := pageSize.GetOr(DefaultPageSize);
            |Paginate(filtered, page, pageSize)| <= if size > 0 then size else 0
  {
  }

  /** Page `a`'s skip count plus one page is at most a later page `b`'s skip count. */
  lemma SkipCountsGrow(a: int, b: int, size: int)
    requires 0 <= a < b && size >= 1
    ensures a * size + size <= b * size
  {
    var d := b - a;
    assert b * size == a * size + d * size;
    assert (d - 1) * size >= 0;
    assert d * size == (d - 1) * size + size;
  }

  /** For page numbers of at least one whose skip counts fit in 32 bits, an earlier
      page ends where or before a later one starts. */
  lemma PagesInOrder(n: nat, page1: Int32, page2: Int32, pageSize: Int32)
    requires 1 <= page1 < page2 && pageSize >= 1 && (page2 - 1) * pageSize <= MaxInt32
    ensures PageEnd(n, page1, pageSize) <= PageStart(n, page2, pageSize)
  {
    SkipCountsGrow(page1 - 1, page2 - 1, pageSize);
    PageBounds(n, page1, pageSize);
    PageBounds(n, page2, pageSize);
  }

  /** Two non-overlapping slices of a list without repeated keys share no id. */
  lemma SlicesShareNoKey(s: seq<Movie>, lo1: nat, hi1: nat, lo2: nat, hi2: nat)
    requires Repositories.DistinctKeys(s, MovieId)
    requires lo1 <= hi1 <= lo2 <= hi2 <= |s|
    ensures forall i, j :: 0 <= i < hi1 - lo1 && 0 <= j < hi2 - lo2 ==>
                             ToDtos(s[lo1..hi1])[i].id != ToDtos(s[lo2..hi2])[j].id
  {
    forall i, j | 0 <= i < hi1 - lo1 && 0 <= j < hi2 - lo2
      ensures ToDtos(s[lo1..hi1])[i].id != ToDtos(s[lo2..hi2])[j].id
    {
      assert s[lo1..hi1][i] == s[lo1 + i] && s[lo2..hi2][j] == s[lo2 + j];
      assert MovieId(s[lo1 + i]) != MovieId(s[lo2 + j]);
    }
  }

  /** In a list ordered by rating, nothing in a slice is rated below anything in a
      later slice. */
  lemma SlicesRateInOrder(s: seq<Movie>, lo1: nat, hi1: nat, lo2: nat, hi2: nat)
    requires MovieRepository.SortedByRatingDesc(s)
    requires lo1 <= hi1 <= lo2 <= hi2 <= |s|
    ensures forall i, j :: 0 <= i < hi1 - lo1 && 0 <= j < hi2 - lo2 ==>
                             ToDtos(s[lo1..hi1])[i].imdbRating >= ToDtos(s[lo2..hi2])[j].imdbRating
  {
    forall i, j | 0 <= i < hi1 - lo1 && 0 <= j < hi2 - lo2
      ensures ToDtos(s[lo1..hi1])[i].imdbRating >= ToDtos(s[lo2..hi2])[j].imdbRating
    {
      assert s[lo1..hi1][i] == s[lo1 + i] && s[lo2..hi2][j] == s[lo2 + j];
    }
  }

  /** Distinct pages of a list without repeated keys share no movie id. */
  lemma PagesShareNoMovie(filtered: seq<Movie>, page1: Int32, page2: Int32, pageSize: Int32)
    requires Repositories.DistinctKeys(filtered, MovieId)
    requires 1 <= page1 < page2 && pageSize >= 1 && (page2 - 1) * pageSize <= MaxInt32
    ensures var p1, p2 := Paginate(filtered, Some(page1), Some(pageSize)), Paginate(filtered, Some(page2), Some(pageSize));
            forall i, j :: 0 <= i < |p1| && 0 <= j < |p2| ==> p1[i].id != p2[j].id
  {
    var n := |filtered|;
    PagesInOrder(n, page1, page2, pageSize);
    SlicesShareNoKey(filtered, PageStart(n, page1, pageSize), PageEnd(n, page1, pageSize),
                     PageStart(n, page2, pageSize), PageEnd(n, page2, pageSize));
  }

  /** On a list ordered by rating, highest first, every movie on an earlier page is
      rated at least as high as every movie on a later one. */
  lemma EarlierPagesRateHigher(filtered: seq<Movie>, page1: Int32, page2: Int32, pageSize: Int32)
    requires MovieRepository.SortedByRatingDesc(filtered)
    requires 1 <= page1 < page2 && pageSize >= 1 && (page2 - 1) * pageSize <= MaxInt32
    ensures var p1, p2 := Paginate(filtered, Some(page1), Some(pageSize)), Paginate(filtered, Some(page2), Some(pageSize));
            forall i, j :: 0 <= i < |p1| && 0 <= j < |p2| ==> p1[i].imdbRating >= p2[j].imdbRating
  {
    var n := |filtered|;
    PagesInOrder(n, page1, page2, pageSize);
    SlicesRateInOrder(filtered, PageStart(n, page1, pageSize), PageEnd(n, page1, pageSize),
                      PageStart(n, page2, pageSize), PageEnd(n, page2, pageSize));
  }

  /** As written, a page number whose skip count overflows 32 bits wraps to a negative
      skip, which skips nothing: page 214748366 of size 10 is the first page. */
  lemma OverflowingPageIsFirstPage(filtered: seq<Movie>)
    ensures Paginate(filtered, Some(214748366), Some(10)) == Paginate(filtered, Some(1), Some(10))
  {
    assert SkipCount(214748366, 10) < 0;
    PageBounds(|filtered|, 1, 10);
  }

  /** The DTOs of a slice of a list of stored movies that all satisfy `ok` are DTOs
      of stored movies that satisfy `ok`. */
  lemma SliceOfStored(s: seq<Movie>, lo: nat, hi: nat, rows: map<int, Movie>, ok: Movie -> bool)
    requires lo <= hi <= |s|
    requires forall m :: m in s ==> m.id in rows && rows[m.id] == m && ok(m)
    ensures var dtos := ToDtos(s[lo..hi]);
            forall i :: 0 <= i < |dtos| ==> dtos[i].id in rows && dtos[i] == ToDto(rows[dtos[i].id]) && ok(rows[dtos[i].id])
  {
    var dtos := ToDtos(s[lo..hi]);
    forall i | 0 <= i < |dtos|
      ensures dtos[i].id in rows && dtos[i] == ToDto(rows[dtos[i].id]) && ok(rows[dtos[i].id])
    {
      assert s[lo..hi][i] == s[lo + i];
      assert s[lo + i] in s;
    }
  }

  /** A slice of a list ordered by rating and without a repeated key maps to DTOs
      ordered by rating and without a repeated id. */
  lemma SliceInOrder(s: seq<Movie>, lo: nat, hi: nat)
    requires lo <= hi <= |s|
    requires MovieRepository.SortedByRatingDesc(s) && Repositories.DistinctKeys(s, MovieId)
    ensures var dtos := ToDtos(s[lo..hi]);
            forall i, j :: 0 <= i < j < |dtos| ==> dtos[i].imdbRating >= dtos[j].imdbRating && dtos[i].id != dtos[j].id
  {
    var dtos := ToDtos(s[lo..hi]);
    forall i, j | 0 <= i < j < |dtos|
      ensures dtos[i].imdbRating >= dtos[j].imdbRating && dtos[i].id != dtos[j].id
    {
      assert s[lo..hi][i] == s[lo + i] && s[lo..hi][j] == s[lo + j];
      assert MovieId(s[lo + i]) != MovieId(s[lo + j]);
    }
  }

  /** A page of a list of stored movies that all satisfy `ok`, ordered by rating and
      without a repeated key, is made of DTOs of stored movies that satisfy `ok`,
      ordered by rating and without a repeated id. */
  lemma PageOfStored(filtered: seq<Movie>, rows: map<int, Movie>, ok: Movie -> bool,
                     page: Option<Int32>, pageSize: Option<Int32>)
    requires forall m :: m in filtered ==> m.id in rows && rows[m.id] == m && ok(m)
    requires MovieRepository.SortedByRatingDesc(filtered) && Repositories.DistinctKeys(filtered, MovieId)
    ensures var dtos := Paginate(filtered, page, pageSize);
            && (forall i :: 0 <= i < |dtos| ==> dtos[i].id in rows && dtos[i] == ToDto(rows[dtos[i].id]) && ok(rows[dtos[i].id]))
            && (forall i, j :: 0 <= i < j < |dtos| ==> dtos[i].imdbRating >= dtos[j].imdbRating && dtos[i].id != dtos[j].id)
  {
    var p, z := page.GetOr(DefaultPage), pageSize.GetOr(DefaultPageSize);
    var lo, hi := PageStart(|filtered|, p, z), PageEnd(|filtered|, p, z);
    assert Paginate(filtered, page, pageSize) == ToDtos(filtered[lo..hi]);
    SliceOfStored(filtered, lo, hi, rows, ok);
    SliceInOrder(filtered, lo, hi);
  }

  /** Every movie the query returns on an enumeration of the table is a stored movie
      that matches. */
  lemma FilteredAreStoredMatches(movies: seq<Movie>, rows: map<int, Movie>,
                                 text: Option<string>, categoryIds: Option<seq<int>>,
                                 minImdb: Option<Rating>, maxImdb: Option<Rating>)
    requires Repositories.IsListing(movies, rows, MovieId)
    ensures forall m :: m in MovieRepository.FilterMovies(movies, text, categoryIds, minImdb, maxImdb) ==>
              m.id in rows && rows[m.id] == m && MovieRepository.Matches(m, text, categoryIds, minImdb, maxImdb)
  {
    forall m | m in MovieRepository.FilterMovies(movies, text, categoryIds, minImdb, maxImdb)
      ensures m.id in rows && rows[m.id] == m && MovieRepository.Matches(m, text, categoryIds, minImdb, maxImdb)
    {
      MovieRepository.FilterMoviesExactlyMatching(movies, text, categoryIds, minImdb, maxImdb, m);
      var k :| 0 <= k < |movies| && movies[k] == m;
      assert rows[MovieId(movies[k])] == m;
    }
  }

  /** What the service's filter returns, on any enumeration `movies` of the table:
      at most `pageSize` DTOs, each the DTO of a stored movie that matches every given
      criterion, with ratings that never increase and no id twice. */
  lemma FilteredPageFacts(movies: seq<Movie>, rows: map<int, Movie>,
                          text: Option<string>, categoryIds: Option<seq<int>>,
                          minImdb: Option<Rating>, maxImdb: Option<Rating>,
                          page: Option<Int32>, pageSize: Option<Int32>)
    requires Repositories.IsListing(movies, rows, MovieId)
    ensures var dtos := Paginate(MovieRepository.FilterMovies(movies, text, categoryIds, minImdb, maxImdb), page, pageSize);
            && |dtos| <= (if pageSize.GetOr(DefaultPageSize) > 0 then pageSize.GetOr(DefaultPageSize) else 0)
            && (forall i :: 0 <= i < |dtos| ==>
                  dtos[i].id in rows && dtos[i] == ToDto(rows[dtos[i].id])
                  && MovieRepository.Matches(rows[dtos[i].id], text, categoryIds, minImdb, maxImdb))
            && (forall i, j :: 0 <= i < j < |dtos| ==> dtos[i].imdbRating >= dtos[j].imdbRating && dtos[i].id != dtos[j].id)
  {
    var filtered := MovieRepository.FilterMovies(movies, text, categoryIds, minImdb, maxImdb);
    MovieRepository.FilterMoviesKeepsKeysDistinct(movies, text, categoryIds, minImdb, maxImdb);
    FilteredAreStoredMatches(movies, rows, text, categoryIds, minImdb, maxImdb);
    var ok := (m: Movie) => MovieRepository.Matches(m, text, categoryIds, minImdb, maxImdb);
    PageOfStored(filtered, rows, ok, page, pageSize);
    PageSizeBound(filtered, page, pageSize);
  }

  /** The DTOs of an enumeration of the table are the DTOs of the stored movies, each
      once. */
  lemma DtosOfListing(movies: seq<Movie>, rows: map<int, Movie>)
    requires Repositories.IsListing(movies, rows, MovieId)
    ensures var dtos := ToDtos(movies);
            && |dtos| == |rows|
            && (forall i :: 0 <= i < |dtos| ==> dtos[i].id in rows && dtos[i] == ToDto(rows[dtos[i].id]))
            && (forall id :: id in rows ==> ToDto(rows[id]) in dtos)
  {
    var dtos := ToDtos(movies);
    forall id | id in rows ensures ToDto(rows[id]) in dtos {
      var i :| 0 <= i < |movies| && movies[i] == rows[id];
      assert dtos[i] == ToDto(rows[id]);
    }
  }

  // ----- The service -----

  class MovieService {
    const repo: Repositories.Repository<Movie>

    ghost predicate Valid()
      reads this, repo
    {
      repo.Valid() && repo.idOf == MovieId && repo.withId == MovieWithId
    }

    constructor (repo: Repositories.Repository<Movie>)
      requires repo.Valid() && repo.idOf == MovieId && repo.withId == MovieWithId
      ensures this.repo == repo && Valid()
    {
      this.repo := repo;
    }

    /** Every stored movie as a DTO, none left out and none added. */
    method GetAll() returns (dtos: seq<MovieDto>)
      requires Valid()
      ensures |dtos| == |repo.rows|
      ensures forall i :: 0 <= i < |dtos| ==> dtos[i].id in repo.rows && dtos[i] == ToDto(repo.rows[dtos[i].id])
      ensures forall id :: id in repo.rows ==> ToDto(repo.rows[id]) in dtos
    {
      var movies := repo.GetAll();
      dtos := ToDtos(movies);
      DtosOfListing(movies, repo.rows);
    }

    /** The DTO of the movie stored under `id`, or absent when there is none. */
    method GetById(id: int) returns (r: Option<MovieDto>)
      requires Valid()
      ensures r.None? <==> id !in repo.rows
      ensures r.Some? ==> r.value == ToDto(repo.rows[id]) && r.value.id == id
    {
      var movies := repo.GetAll();
      var movie := MovieRepository.GetById(movies, id);
      MovieRepository.GetByIdOnListing(movies, repo.rows, id);
      if movie.None? {
        return None;
      }
      return Some(ToDto(movie.value));
    }

    /** Stores a new movie built from the DTO's scalar fields under a fresh key, and
        returns the same DTO with that key written into it. */
    method Create(dto: MovieDto) returns (r: MovieDto)
      requires Valid()
      modifies repo
      ensures Valid()
      ensures r == dto.(id := r.id)
      ensures r.id > 0 && r.id !in old(repo.rows)
      ensures repo.rows == old(repo.rows)[r.id := MovieWithId(NewMovie(dto), r.id)]
      ensures ToDto(repo.rows[r.id]) == r.(categories := [])
    {
      var movie := NewMovie(dto);
      var stored := repo.Add(movie);
      r := dto.(id := stored.id);
      NewMovieReadsBack(dto, stored.id);
    }

    /** Absent, with nothing written, when no movie has the DTO's key; otherwise
        overwrites that movie's scalar fields, keeps its memberships, and returns the
        DTO. */
    method Update(dto: MovieDto) returns (r: Option<MovieDto>)
      requires Valid()
      modifies repo
      ensures Valid()
      ensures dto.id !in old(repo.rows) ==> r == None && repo.rows == old(repo.rows)
      ensures dto.id in old(repo.rows) ==>
                r == Some(dto)
                && repo.rows == old(repo.rows)[dto.id := WithScalarsOf(old(repo.rows)[dto.id], dto)]
                && repo.rows[dto.id].memberships == old(repo.rows)[dto.id].memberships
    {
      var movies := repo.GetAll();
      var found := MovieRepository.GetById(movies, dto.id);
      MovieRepository.GetByIdOnListing(movies, repo.rows, dto.id);
      if found.None? {
        return None;
      }
      var movie := WithScalarsOf(found.value, dto);
      repo.Update(movie);
      return Some(dto);
    }

    /** `false`, with nothing written, when no movie has key `id`; otherwise removes
        that movie and returns `true`. */
    method Delete(id: int) returns (ok: bool)
      requires Valid()
      modifies repo
      ensures Valid()
      ensures ok <==> id in old(repo.rows)
      ensures repo.rows == old(repo.rows) - {id}
    {
      var movies := repo.GetAll();
      var found := MovieRepository.GetById(movies, id);
      MovieRepository.GetByIdOnListing(movies, repo.rows, id);
      if found.None? {
        return false;
      }
      repo.Delete(found.value.id);
      return true;
    }

    /** One page of the filter query's result as DTOs. `movies` is the enumeration of
        the table the query reads. */
    method FilterMovies(text: Option<string>, categoryIds: Option<seq<int>>,
                        minImdb: Option<Rating>, maxImdb: Option<Rating>,
                        page: Option<Int32>, pageSize: Option<Int32>)
      returns (dtos: seq<MovieDto>, ghost movies: seq<Movie>)
      requires Valid()
      ensures repo.Lists(movies)
      ensures dtos == Paginate(MovieRepository.FilterMovies(movies, text, categoryIds, minImdb, maxImdb), page, pageSize)
      ensures |dtos| <= (if pageSize.GetOr(DefaultPageSize) > 0 then pageSize.GetOr(DefaultPageSize) else 0)
      ensures forall i :: 0 <= i < |dtos| ==>
                dtos[i].id in repo.rows && dtos[i] == ToDto(repo.rows[dtos[i].id])
                && MovieRepository.Matches(repo.rows[dtos[i].id], text, categoryIds, minImdb, maxImdb)
      ensures forall i, j :: 0 <= i < j < |dtos| ==> dtos[i].imdbRating >= dtos[j].imdbRating
    {
      var currentPage := if page.None? then DefaultPage else page.value;
      var currentPageSize := if pageSize.None? then DefaultPageSize else pageSize.value;
      var all := repo.GetAll();
      var filtered := MovieRepository.FilterMovies(all, text, categoryIds, minImdb, maxImdb);
      dtos := ToDtos(Page(filtered, currentPage, currentPageSize));
      movies := all;
      FilteredPageFacts(movies, repo.rows, text, categoryIds, minImdb, maxImdb, page, pageSize);
    }
  }
}
