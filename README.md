# MovieLibrary core in Dafny

This project models the data and service layers of MovieLibrary, a small C# library of movies and categories.

- **Repository.** The generic repository keeps one entity table. It supports get-all, lookup by key, insert with a generated key, replace and delete.
- **Movie filter query.** The movie repository's query keeps the movies that match up to four optional criteria and orders them by rating, highest first.
- **Movie service.** It maps movies to transfer objects (DTOs) and pages the filter result. A missing key gives `null` or `false` and writes nothing.
- **Category service.** It is modelled as written, next to the behaviour its interface declares.

The store (Entity Framework over SQLite) is replaced by an abstract table. The table is a map from primary key to row. The identity generator is a counter of keys never handed out.

## Files

- `wrappers.dfy`: module `Wrappers`. `Option` stands in for C#'s `null` results and nullable parameters.
- `entities.dfy`: module `Entities`. The entities `Movie`, `Category` and `MovieCategory`, the DTOs, C#'s 32-bit `int` with wrap-around, and the key accessors.
- `repository.dfy`: module `Repositories`. The class `Repository<T>` holds `rows: map<int, T>` and `nextId`. `GetAll` is a loop over the keys. `Add`, `Update` and `Delete` change `rows` in place.
- `movie_repository.dfy`: module `MovieRepository`. Movie lookup and the filter query, as functions over an enumeration of the movie table. Each movie carries its category memberships, which is what eager loading provides. The repository's `GetAll` override (MovieRepository.cs:16-20) is `Repositories.Repository.GetAll` over this movie table.
- `movie_service.dfy`: module `MovieServices`. DTO mapping, paging, and the class `MovieService` over a `Repository<Movie>`.
- `category_service.dfy`: module `CategoryServices`. The class `CategoryService` over a `Repository<Category>`, as written and as declared.
- `movie_fixtures.dfy`: module `MovieFixtures`. The unit tests' seeded tables and expected results, derived from the contracts.

## What is proved

- **Repository state.** A valid table keeps every row under its own positive key, below the next identity.
  - `Add` stores exactly one new row under a fresh key and returns the entity with that key written in.
  - `Update` replaces one row and leaves every other row unchanged.
  - `Delete` removes exactly one row.
  - `GetAll` enumerates the table: every row exactly once, and nothing else. Two enumerations are permutations of each other.
- **Filter query.**
  - The result holds exactly the stored movies that match every applicable criterion, each as often as it is stored.
  - Ratings never increase along the result.
  - No key is repeated.
  - The result does not depend on the order in which the table is enumerated, up to ties.
  - With no criteria, or with an empty text and an empty id list, the result is the whole table sorted.
  - The text criterion ignores the case of ASCII letters.
- **Paging.**
  - Missing `page` and `pageSize` mean 1 and 10.
  - A page is one contiguous slice of the filtered list, never longer than `pageSize`.
  - For sizes whose skip count fits in 32 bits, the slice starts at `(page - 1) * pageSize`.
  - Different pages share no movie id, and earlier pages are rated no lower than later ones.
  - As written, the skip count is computed in unchecked 32-bit arithmetic. Page 214748366 of size 10 therefore wraps to a negative skip and returns the first page.
- **Service contracts.**
  - Every DTO is the mapping of a stored row.
  - `Create` reads back as the given DTO under the new key, with no categories.
  - `Update` overwrites only the scalar fields and keeps the memberships.
  - `Delete` answers whether the row existed.
- **Test expectations.** The repository tests' four filter cases and the service test's paging case hold in the model.

## Model

| member | source | states |
|---|---|---|
| Repositories.Repository.GetAll | MovieLibrary.Data/Repositories/Repository.cs:17-19 | the result lists the table: every stored row exactly once, each under its own key, and nothing else |
| Repositories.ListingsArePermutations | MovieLibrary.Data/Repositories/Repository.cs:17-19 | any two enumerations of one table hold the same rows; only the order can differ |
| Repositories.Repository.GetById | MovieLibrary.Data/Repositories/Repository.cs:21-24 | present exactly when the key is stored, and then the row stored under that key |
| Repositories.Repository.Add | MovieLibrary.Data/Repositories/Repository.cs:26-30 | one new row under a fresh positive key, written back into the returned entity; other rows unchanged; count grows by one; lookup of the new key finds the entity |
| Repositories.Repository.Update | MovieLibrary.Data/Repositories/Repository.cs:32-36 | the row under the entity's key is replaced by the entity; every other row and the count are unchanged; the key must exist |
| Repositories.Repository.Delete | MovieLibrary.Data/Repositories/Repository.cs:38-43 | exactly the row with that key is removed, the count drops by one and lookup of it becomes absent; the key must exist, since the lookup result goes to the store's remove unchecked |
| MovieRepository.GetById | MovieLibrary.Data/Repositories/MovieRepository.cs:22-27 | first-match lookup: absent exactly when no movie has the key; otherwise a listed movie with that key |
| MovieRepository.GetByIdOnListing | MovieLibrary.Data/Repositories/MovieRepository.cs:22-27 | on an enumeration of the table, the lookup returns the row stored under the key, with its memberships, or absent |
| MovieRepository.ToLower | MovieLibrary.Data/Repositories/MovieRepository.cs:40-41 | lower-casing keeps the length and maps each character through the ASCII case fold |
| MovieRepository.Contains | MovieLibrary.Data/Repositories/MovieRepository.cs:41 | true exactly when the needle occurs at some position of the haystack |
| MovieRepository.Where | MovieLibrary.Data/Repositories/MovieRepository.cs:34-56 | each element satisfying the predicate keeps its multiplicity, every other element disappears, and every kept element satisfies it |
| MovieRepository.WhereTitle | MovieLibrary.Data/Repositories/MovieRepository.cs:38-42 | with a non-empty text, exactly the movies whose lower-cased title contains the lower-cased text; null or empty text keeps everything |
| MovieRepository.WhereCategory | MovieLibrary.Data/Repositories/MovieRepository.cs:44-47 | with a non-empty id list, exactly the movies with a membership in a listed category; a null or empty list keeps everything |
| MovieRepository.WhereMinRating | MovieLibrary.Data/Repositories/MovieRepository.cs:49-52 | with a bound, exactly the movies rated at least the bound (inclusive) |
| MovieRepository.WhereMaxRating | MovieLibrary.Data/Repositories/MovieRepository.cs:53-56 | with a bound, exactly the movies rated at most the bound (inclusive) |
| MovieRepository.InsertByRating | MovieLibrary.Data/Repositories/MovieRepository.cs:58 | inserting into a list ordered by rating, highest first, keeps it ordered and adds exactly the one movie |
| MovieRepository.OrderByRatingDescending | MovieLibrary.Data/Repositories/MovieRepository.cs:58 | the result is ordered by rating, highest first, and is a permutation of the input |
| MovieRepository.FilterMovies | MovieLibrary.Data/Repositories/MovieRepository.cs:30-61 | ratings never increase along the result, and it holds each movie as often as it is stored if the movie matches every applicable criterion, and otherwise not at all |
| MovieRepository.FilterMoviesExactlyMatching | MovieLibrary.Data/Repositories/MovieRepository.cs:34-60 | a movie is in the result if and only if it is stored and matches every applicable criterion |
| MovieRepository.FilterMoviesKeepsKeysDistinct | MovieLibrary.Data/Repositories/MovieRepository.cs:34-60 | on a table with unique keys, no id occurs twice in the result |
| MovieRepository.FilterMoviesIgnoresEnumerationOrder | MovieLibrary.Data/Repositories/MovieRepository.cs:34-60 | two enumerations of the same table give results that are permutations of each other |
| MovieRepository.FilterMoviesWithoutCriteria | MovieLibrary.Data/Repositories/MovieRepository.cs:34-60 | with no criteria, or an empty text and an empty id list, the result is the whole table sorted by rating |
| MovieRepository.FilterMoviesIgnoresTextCase | MovieLibrary.Data/Repositories/MovieRepository.cs:38-42 | filtering by a text and by its lower-cased form gives the same result |
| MovieServices.CategoryDtos | MovieLibrary.Core/Services/MovieService.cs:35-39 | one category DTO per membership, in order, with the membership's category id and name |
| MovieServices.ToDtos | MovieLibrary.Core/Services/MovieService.cs:118-130 | one DTO per movie, in the same order |
| MovieServices.DtosOfListing | MovieLibrary.Core/Services/MovieService.cs:25-41 | the DTOs of an enumeration of the table are the DTOs of the stored movies, each once, none added |
| MovieServices.NewMovieReadsBack | MovieLibrary.Core/Services/MovieService.cs:64-78 | the created entity reads back as the given DTO under the new key, with no categories |
| MovieServices.UpdatedMovieReadsBack | MovieLibrary.Core/Services/MovieService.cs:86-91 | an updated movie keeps its memberships and reads back as the DTO's scalar fields with the categories it already had |
| MovieServices.Page | MovieLibrary.Core/Services/MovieService.cs:115-117 | Skip then Take is one contiguous slice of the filtered list, with LINQ's clamping of counts of zero or less |
| MovieServices.PageBounds | MovieLibrary.Core/Services/MovieService.cs:115-117 | for page and size of at least one without overflow, the slice starts at `(page - 1) * pageSize`, clamped, and holds `min(pageSize, remaining)` movies |
| MovieServices.DefaultPaginationIsFirstTen | MovieLibrary.Core/Services/MovieService.cs:110-111 | with no page and no page size the result is the first ten filtered movies |
| MovieServices.PageSizeBound | MovieLibrary.Core/Services/MovieService.cs:115-117 | a page never holds more than `pageSize` DTOs, and none for a size of zero or less |
| MovieServices.PagesShareNoMovie | MovieLibrary.Core/Services/MovieService.cs:115-117 | two different pages of a list with unique keys share no movie id |
| MovieServices.EarlierPagesRateHigher | MovieLibrary.Core/Services/MovieService.cs:115-117 | on a sorted list, every movie on an earlier page is rated at least as high as every movie on a later page |
| MovieServices.OverflowingPageIsFirstPage | MovieLibrary.Core/Services/MovieService.cs:116 | as written, page 214748366 of size 10 overflows the 32-bit skip count and returns the first page |
| MovieServices.FilteredPageFacts | MovieLibrary.Core/Services/MovieService.cs:106-133 | a filter page holds at most `pageSize` DTOs, each of a stored movie matching every criterion, ordered by rating, with no id twice |
| MovieServices.MovieService.GetAll | MovieLibrary.Core/Services/MovieService.cs:25-41 | as many DTOs as stored movies; each is the mapping of the stored movie with its id; every stored movie appears |
| MovieServices.MovieService.GetById | MovieLibrary.Core/Services/MovieService.cs:43-62 | null exactly when the key is absent, otherwise the mapping of the stored movie |
| MovieServices.MovieService.Create | MovieLibrary.Core/Services/MovieService.cs:64-78 | stores the DTO's scalar fields under a fresh positive key with no memberships; returns the same DTO with that key |
| MovieServices.MovieService.Update | MovieLibrary.Core/Services/MovieService.cs:80-94 | absent key: null and no write; otherwise only title, description, year and rating are overwritten, memberships kept, the DTO returned |
| MovieServices.MovieService.Delete | MovieLibrary.Core/Services/MovieService.cs:96-104 | true exactly when the key was stored; that row, and only it, is removed |
| MovieServices.MovieService.FilterMovies | MovieLibrary.Core/Services/MovieService.cs:106-133 | the page of the filter query's result under the defaulted page and size, as DTOs of stored matching movies, at most `pageSize`, ordered by rating |
| CategoryServices.ToDtos | MovieLibrary.Core/Services/CategoryService.cs:25-28 | one DTO per category, in order, with its id and name |
| CategoryServices.CategoryService.GetAll | MovieLibrary.Core/Services/CategoryService.cs:21-29 | as many DTOs as stored categories; each carries a stored category's id and name; every stored category appears |
| CategoryServices.CategoryService.GetById | MovieLibrary.Core/Services/CategoryService.cs:30-38 | null exactly when the key is absent, otherwise the stored id and name |
| CategoryServices.CategoryService.Create | MovieLibrary.Core/Services/CategoryService.cs:40-47 | stores a category with the DTO's name under a fresh positive key and writes that key into the caller's DTO |
| CategoryServices.UpdateAsWrittenChangesNothing | MovieLibrary.Core/Services/CategoryService.cs:48-54 | as written, updating an existing category stores the row unchanged, so a different name in the DTO is lost |
| CategoryServices.CategoryService.Update | MovieLibrary.Core/Services/CategoryService.cs:48-54 | as written: the key must exist, and the table is left exactly as it was |
| CategoryServices.CategoryService.Delete | MovieLibrary.Core/Services/CategoryService.cs:55-59 | as written: the key must exist, and exactly that row is removed |
| CategoryServices.RenameIsLostAsWritten | MovieLibrary.Test.Unit/Services/CategoryServiceTest.cs:83-100 | renaming "Action" to "Updated Action" leaves "Action" in the table as written, where the declared update stores the new name |
| CategoryServices.MissingKeyFaultsAsWritten | MovieLibrary.Core/Services/CategoryService.cs:48-59 | for a key that is not stored, update and delete as written dereference a null lookup result, where the declared update answers null |
| CategoryServices.UpdateAsDeclaredOf | MovieLibrary.Core/Interfaces/IService.cs:13 | absent exactly when the key is not stored; otherwise the same keys, the category under the DTO's key reads back as the DTO, and every other row is unchanged |
| CategoryServices.CategoryService.UpdateAsDeclared | MovieLibrary.Core/Interfaces/IService.cs:13 | absent key: null and no write; otherwise the name is overwritten and the DTO returned |
| CategoryServices.CategoryService.DeleteAsDeclared | MovieLibrary.Core/Interfaces/IService.cs:14 | true exactly when the key was stored; that row, and only it, is removed |
| MovieFixtures.FilterByTextReturnsMovie1 | MovieLibrary.Test.Unit/Repositories/MovieRepositoryTest.cs:61-68 | on the seeded table, text "Movie 1" with minimum rating 0 returns "Movie 1" alone |
| MovieFixtures.FilterByCategoryReturnsBoth | MovieLibrary.Test.Unit/Repositories/MovieRepositoryTest.cs:70-76 | on the seeded table, category 1 returns both movies, the higher rated first |
| MovieFixtures.FilterByRatingReturnsMovie1 | MovieLibrary.Test.Unit/Repositories/MovieRepositoryTest.cs:78-85 | on the seeded table, ratings from 7.0 to 10.0 return "Movie 1" alone |
| MovieFixtures.FilterByTextAndCategoryReturnsMovie1 | MovieLibrary.Test.Unit/Repositories/MovieRepositoryTest.cs:87-94 | on the seeded table, text "Movie 1" and category 1 return "Movie 1" alone |
| MovieFixtures.FirstTwoPagesOfFifteen | MovieLibrary.Test.Unit/Services/MovieServiceTest.cs:228-250 | of fifteen movies with unique keys, pages one and two of size five hold five each and start with different ids |

## Left out

- Controllers (MovieLibrary.Api/Controllers): HTTP status mapping only. `UpdateMovie` tests `movieDto == null && id != movieDto.Id` (MovieManagementController.cs:47) where `UpdateCategory` uses `||` (CategoryManagementController.cs:46). As a result, a mismatched movie id is never rejected, and a null body is dereferenced.
- MovieLibrary.Data/MovieLibraryContext.cs: the store configuration is replaced by the abstract table. Transactions, `SaveChanges` failures and concurrency exceptions are not modelled.
- Interfaces and CategoryRepository.cs: they hold signatures only. The category repository is `Repositories.Repository` over `Category`.
- Compile inconsistencies: MovieRepository overrides `GetAll` and `GetById`, which Repository.cs:17 and :21 do not declare virtual. CategoryService's `void Create`, `void Update` and `void Delete` do not match the `T`, `T` and `bool` results that IService.cs:12-14 declares. The model uses MovieRepository's versions for movies and CategoryService's as written.
- Eager loading (`Include`/`ThenInclude`): memberships and their categories are carried on each movie value.
- Deleting a category does not touch the memberships attached to movies. The store's cascade over the join table is not modelled, because the movie and category tables are separate repositories.
- Repositories.Repository.Add: always generates the key. A non-zero key set by the caller, as in the tests' seed data, is not modelled. Keys are unbounded integers, so the store's 32-bit identity limit is not modelled.
- Repositories.Repository.GetAll: enumerates in ascending key order. The contract promises only an enumeration of the table, because the store's order is unspecified.
- MovieRepository.OrderByRatingDescending: the sort is stable, so equal ratings keep their enumeration order. The store leaves that order unspecified, so the contracts state only order by rating and permutation.
- MovieRepository.ToLower: folds the ASCII letters only. Culture-sensitive lower-casing of other characters is not modelled.
- Ratings: the `decimal` ratings and bounds are integers on one common scale (hundredths in the fixtures). The `(double)` cast in the sort key (MovieRepository.cs:58) is not modelled. The model sorts on the exact values.
- Null strings and null DTO arguments: titles, names and DTOs are never null in the model. A null `Categories` list is not modelled either; it defaults to empty (MovieDto.cs:15).
- Write-back into the caller's objects is modelled as a returned value. This covers the generated key in `Add` and the key in the DTO of each `Create`. Aliasing between the caller's object and the stored row is not modelled.
- MovieServices.MovieService.FilterMovies: the table enumeration the query reads is returned as a ghost value. Other contracts connect it to the table.
- Test fixtures: the in-memory database setup and mocks. Only the seeded data and expected results are stated, in `MovieFixtures`.

## Findings

| source | as written | input that shows it | evidently intended | confidence | as-written member | corrected member |
|---|---|---|---|---|---|---|
| MovieLibrary.Core/Services/CategoryService.cs:48-54 | `Update` assigns the looked-up category's own key back to it and stores it, so the DTO's `Name` is never copied | stored category (1, "Action"), DTO (1, "Updated Action"): the stored name stays "Action" | the name is overwritten, as IService.cs:13 declares and CategoryServiceTest.cs:83-100 expects | high; not executed | CategoryServices.RenameIsLostAsWritten | CategoryServices.CategoryService.UpdateAsDeclared |
| MovieLibrary.Core/Services/CategoryService.cs:50-52 | `Update` dereferences the lookup result without a null check | DTO with key 999 on a table without it: null dereference | return null and write nothing, as CategoryServiceTest.cs:102-109 expects and MovieService.cs:82-84 does | high; not executed | CategoryServices.MissingKeyFaultsAsWritten | CategoryServices.CategoryService.UpdateAsDeclared |
| MovieLibrary.Core/Services/CategoryService.cs:55-59 | `Delete` dereferences the lookup result without a null check and returns nothing | key 999 on a table without it: null dereference | return `false` and write nothing, as IService.cs:14 declares and CategoryServiceTest.cs:124-129 expects | high; not executed | CategoryServices.MissingKeyFaultsAsWritten | CategoryServices.CategoryService.DeleteAsDeclared |
