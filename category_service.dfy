/**
 * The category service (MovieLibrary.Core/Services/CategoryService.cs) as it is
 * written: `Create` writes the generated key into the caller's DTO, `Update` looks
 * the category up and stores it back with only its key assigned, and `Update` and
 * `Delete` dereference the lookup result without a null check.
 *
 * The service interface it implements (MovieLibrary.Core/Interfaces/IService.cs)
 * declares `Update` to return the updated DTO or null and `Delete` to return whether
 * a row was removed. `UpdateAsDeclared` and `DeleteAsDeclared` give that behaviour
 * next to the code as written.
 */
module CategoryServices {
  import opened Wrappers
  import opened Entities
  import Repositories

  function ToDto(c: Category): CategoryDto {
    CategoryDto(c.id, c.name)
  }

  /** One DTO per category, in the same order. */
  function ToDtos(categories: seq<Category>): (r: seq<CategoryDto>)
    ensures |r| == |categories|
    ensures forall i :: 0 <= i < |r| ==> r[i] == ToDto(categories[i])
  {
    if categories == [] then [] else [ToDto(categories[0])] + ToDtos(categories[1..])
  }

  /** What an update step of the service does to the category table: either it
      dereferences an absent lookup result, or it leaves the table as given. */
  datatype Outcome = NullReference | Stored(rows: map<int, Category>)

  /** `Update` as written: the stored category, with its key assigned from the DTO,
      is written back; the DTO's name is never read. */
  function UpdateAsWritten(rows: map<int, Category>, dto: CategoryDto): Outcome {
    if dto.id !in rows then NullReference
    else
      var category := rows[dto.id].(id := dto.id);
      Stored(rows[category.id := category])
  }

  /** `Delete` as written: the looked-up row is removed. */
  function DeleteAsWritten(rows: map<int, Category>, id: int): Outcome {
    if id !in rows then NullReference else Stored(rows - {id})
  }

  /** `Update` as declared: absent when there is no such category; otherwise the
      category's name is overwritten by the DTO's. */
  function UpdateAsDeclaredOf(rows: map<int, Category>, dto: CategoryDto): (r: Option<map<int, Category>>)
    ensures r.None? <==> dto.id !in rows
    ensures r.Some? ==> r.value.Keys == rows.Keys && ToDto(r.value[dto.id]) == dto
    ensures r.Some? ==> forall k :: k in rows && k != dto.id ==> r.value[k] == rows[k]
  {
    if dto.id !in rows then None else Some(rows[dto.id := Category(dto.id, dto.name)])
  }

  /** As written, `Update` never changes the table: on a table whose rows sit under
      their own keys, an update of an existing category stores the row unchanged,
      whatever name the DTO carries. */
  lemma UpdateAsWrittenChangesNothing(rows: map<int, Category>, dto: CategoryDto)
    requires forall k :: k in rows ==> rows[k].id == k
    requires dto.id in rows
    ensures UpdateAsWritten(rows, dto) == Stored(rows)
    ensures dto.name != rows[dto.id].name ==> ToDto(UpdateAsWritten(rows, dto).rows[dto.id]) != dto
  {
    assert rows[dto.id := rows[dto.id].(id := dto.id)] == rows;
  }

  /** The category test's update, as written: renaming "Action" to "Updated Action"
      leaves "Action" in the table, where the declared update stores the new name. */
  lemma RenameIsLostAsWritten()
    ensures var rows := map[1 := Category(1, "Action")];
            var dto := CategoryDto(1, "Updated Action");
            && UpdateAsWritten(rows, dto) == Stored(rows)
            && UpdateAsDeclaredOf(rows, dto) == Some(map[1 := Category(1, "Updated Action")])
  {
    var rows := map[1 := Category(1, "Action")];
    UpdateAsWrittenChangesNothing(rows, CategoryDto(1, "Updated Action"));
    assert rows[1 := Category(1, "Updated Action")] == map[1 := Category(1, "Updated Action")];
  }

  /** As written, `Update` and `Delete` of a key that is not stored dereference an
      absent lookup result, where the declared operations answer null and `false`. */
  lemma MissingKeyFaultsAsWritten(rows: map<int, Category>, dto: CategoryDto)
    requires dto.id !in rows
    ensures UpdateAsWritten(rows, dto) == NullReference && UpdateAsDeclaredOf(rows, dto) == None
    ensures DeleteAsWritten(rows, dto.id) == NullReference
  {
  }

  class CategoryService {
    const repo: Repositories.Repository<Category>

    ghost predicate Valid()
      reads this, repo
    {
      repo.Valid() && repo.idOf == CategoryId && repo.withId == CategoryWithId
    }

    constructor (repo: Repositories.Repository<Category>)
      requires repo.Valid() && repo.idOf == CategoryId && repo.withId == CategoryWithId
      ensures this.repo == repo && Valid()
    {
      this.repo := repo;
    }

    /** Every stored category as a DTO, none left out and none added. */
    method GetAll() returns (dtos: seq<CategoryDto>)
      requires Valid()
      ensures |dtos| == |repo.rows|
      ensures forall i :: 0 <= i < |dtos| ==> dtos[i].id in repo.rows && dtos[i] == ToDto(repo.rows[dtos[i].id])
      ensures forall id :: id in repo.rows ==> ToDto(repo.rows[id]) in dtos
    {
      var categories := repo.GetAll();
      dtos := ToDtos(categories);
      forall id | id in repo.rows ensures ToDto(repo.rows[id]) in dtos {
        var i :| 0 <= i < |categories| && categories[i] == repo.rows[id];
        assert dtos[i] == ToDto(repo.rows[id]);
      }
    }

    /** The DTO of the category stored under `id`, or absent when there is none. */
    method GetById(id: int) returns (r: Option<CategoryDto>)
      requires Valid()
      ensures r.None? <==> id !in repo.rows
      ensures r.Some? ==> r.value == ToDto(repo.rows[id]) && r.value.id == id
    {
      var category := repo.GetById(id);
      if category.None? {
        return None;
      }
      return Some(ToDto(category.value));
    }

    /** Stores a new category with the DTO's name under a fresh key. The method returns
        nothing; `written` is the caller's DTO after the key is written into it. */
    method Create(dto: CategoryDto) returns (written: CategoryDto)
      requires Valid()
      modifies repo
      ensures Valid()
      ensures written == dto.(id := written.id)
      ensures written.id > 0 && written.id !in old(repo.rows)
      ensures repo.rows == old(repo.rows)[written.id := Category(written.id, dto.name)]
      ensures ToDto(repo.rows[written.id]) == written
    {
      var category := Category(0, dto.name);
      var stored := repo.Add(category);
      written := dto.(id := stored.id);
    }

    /** `Update` as written. The lookup result is dereferenced without a check, so the
        category must exist; the table is left as it was. */
    method Update(dto: CategoryDto)
      requires Valid()
      requires dto.id in repo.rows
      modifies repo
      ensures Valid()
      ensures UpdateAsWritten(old(repo.rows), dto) == Stored(repo.rows)
      ensures repo.rows == old(repo.rows)
    {
      var category := repo.GetById(dto.id).value;
      category := category.(id := dto.id);
      repo.Update(category);
      UpdateAsWrittenChangesNothing(old(repo.rows), dto);
    }

    /** `Delete` as written. The lookup result is dereferenced without a check, so the
        category must exist; it is removed. */
    method Delete(id: int)
      requires Valid()
      requires id in repo.rows
      modifies repo
      ensures Valid()
      ensures DeleteAsWritten(old(repo.rows), id) == Stored(repo.rows)
      ensures repo.rows == old(repo.rows) - {id}
    {
      var category := repo.GetById(id).value;
      repo.Delete(category.id);
    }

    /** `Update` as the service interface declares it: absent, with nothing written,
        when no category has the DTO's key; otherwise the category takes the DTO's
        name and the DTO is returned. */
    method UpdateAsDeclared(dto: CategoryDto) returns (r: Option<CategoryDto>)
      requires Valid()
      modifies repo
      ensures Valid()
      ensures UpdateAsDeclaredOf(old(repo.rows), dto) == if r.None? then None else Some(repo.rows)
      ensures r.None? ==> repo.rows == old(repo.rows)
      ensures r.Some? ==> r.value == dto && ToDto(repo.rows[dto.id]) == dto
    {
      var found := repo.GetById(dto.id);
      if found.None? {
        return None;
      }
      var category := found.value.(name := dto.name);
      repo.Update(category);
      return Some(dto);
    }

    /** `Delete` as the service interface declares it: `false`, with nothing written,
        when no category has key `id`; otherwise the category is removed. */
    method DeleteAsDeclared(id: int) returns (ok: bool)
      requires Valid()
      modifies repo
      ensures Valid()
      ensures ok <==> id in old(repo.rows)
      ensures repo.rows == old(repo.rows) - {id}
    {
      var found := repo.GetById(id);
      if found.None? {
        return false;
      }
      repo.Delete(found.value.id);
      return true;
    }
  }
}
