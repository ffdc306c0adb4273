/**
 * Persistence entities and transfer objects of the movie library.
 *
 * Entities are the rows of the store. A movie's category memberships are the
 * rows of the Movie<->Category join table that belong to it, each with its
 * category attached (what eager loading produces); they are carried on the
 * movie value itself. Transfer objects (DTOs) are plain copies used at the
 * service boundary.
 */
module Entities {

  /** IMDb ratings are exact decimals; the model keeps them as integers on a fixed
      scale (hundredths), which preserves every comparison the source makes. */
  type Rating = int

  const MinInt32: int := -0x8000_0000
  const MaxInt32: int := 0x7FFF_FFFF

  /** C#'s `int`. */
  type Int32 = x: int | MinInt32 <= x <= MaxInt32

  /** Unchecked 32-bit two's-complement wrap-around, as C# arithmetic on `int` does by default. */
  function Wrap32(x: int): (r: Int32)
    ensures MinInt32 <= x <= MaxInt32 ==> r == x
    ensures (r - x) % 0x1_0000_0000 == 0
  {
    (x - MinInt32) % 0x1_0000_0000 + MinInt32
  }

  datatype Category = Category(id: int, name: string)

  /** One row of the join table, with the referenced category loaded. */
  datatype MovieCategory = MovieCategory(movieId: int, categoryId: int, category: Category)

  datatype Movie = Movie(
    id: int,
    title: string,
    description: string,
    year: int,
    imdbRating: Rating,
    memberships: seq<MovieCategory>)

  /** Key accessors and key writers, the way the store identifies rows of each entity. */
  function MovieId(m: Movie): int { m.id }
  function MovieWithId(m: Movie, id: int): Movie { m.(id := id) }
  function CategoryId(c: Category): int { c.id }
  function CategoryWithId(c: Category, id: int): Category { c.(id := id) }

  datatype CategoryDto = CategoryDto(id: int, name: string)

  /** `Categories` starts out empty when the caller does not supply it. */
  datatype MovieDto = MovieDto(
    id: int,
    title: string,
    description: string,
    year: int,
    imdbRating: Rating,
    categories: seq<CategoryDto> := [])
}
