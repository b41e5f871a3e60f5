/**
 * CategoryServiceImpl over the category table: names are unique, and a
 * category that events still use cannot be deleted.  The table is a map
 * from id to row; ids are handed out from a counter and never reused.
 */
module Categories {
  import opened Common
  import opened Events

  datatype Category = Category(id: int, name: string)

  /** existsByName. */
  predicate NameTaken(rows: map<int, Category>, name: string)
  {
    exists id :: id in rows && rows[id].name == name
  }

  /** No two categories share a name. */
  ghost predicate NamesDistinct(rows: map<int, Category>)
  {
    forall a, b :: a in rows && b in rows && a != b ==> rows[a].name != rows[b].name
  }

  /** Every row is stored under its own id, below the next id. */
  ghost predicate IdsConsistent(rows: map<int, Category>, nextId: int)
  {
    forall id :: id in rows ==> rows[id].id == id && 1 <= id < nextId
  }

  /** Every event refers to a category of the table. */
  ghost predicate CategoriesExist(rows: map<int, Category>, events: seq<Event>)
  {
    forall i :: 0 <= i < |events| ==> events[i].category in rows
  }

  // ---------------------------------------------------------------------
  // The operations as functions of the table
  // ---------------------------------------------------------------------

  /** create: the table after adding a category named `name` under `nextId`,
      or the exception. */
  function Creation(rows: map<int, Category>, nextId: int, name: string): (r: Result<map<int, Category>>)
    ensures r.Err? <==> NameTaken(rows, name)
    ensures r.Err? ==> r.error == Conflict
    ensures r.Ok? ==> r.value.Keys == rows.Keys + {nextId} && r.value[nextId] == Category(nextId, name)
    ensures r.Ok? ==> forall k :: k in rows && k != nextId ==> r.value[k] == rows[k]
  {
    if NameTaken(rows, name) then Err(Conflict)
    else Ok(rows[nextId := Category(nextId, name)])
  }

  /** update: the table after renaming category `catId`; a null name renames
      nothing. */
  function Renaming(rows: map<int, Category>, catId: int, name: Option<string>): (r: Result<map<int, Category>>)
    ensures r.Err? <==> catId !in rows || (name.Some? && name.value != rows[catId].name && NameTaken(rows, name.value))
    ensures r.Err? ==> (r.error == NotFound <==> catId !in rows) && (r.error == NotFound || r.error == Conflict)
    ensures r.Ok? ==> r.value.Keys == rows.Keys && r.value[catId].id == rows[catId].id
    ensures r.Ok? ==> forall k :: k in rows && k != catId ==> r.value[k] == rows[k]
    ensures r.Ok? && name.Some? ==> r.value[catId].name == name.value
    ensures r.Ok? && name.None? ==> r.value == rows
  {
    if catId !in rows then Err(NotFound)
    else if name.None? then Ok(rows)
    else if name.value != rows[catId].name && NameTaken(rows, name.value) then Err(Conflict)
    else Ok(rows[catId := rows[catId].(name := name.value)])
  }

  /** delete: the table without category `catId`, unless it is missing or in use. */
  function Deletion(rows: map<int, Category>, events: seq<Event>, catId: int): (r: Result<map<int, Category>>)
    ensures r.Err? ==> r.error == NotFound || r.error == Conflict
    ensures r.Err? ==> (r.error == NotFound <==> catId !in rows)
    ensures r.Ok? <==> catId in rows && CountByCategory(events, catId) == 0
    ensures r.Ok? ==> r.value.Keys == rows.Keys - {catId}
    ensures r.Ok? ==> forall k :: k in r.value ==> r.value[k] == rows[k]
  {
    if catId !in rows then Err(NotFound)
    else if CountByCategory(events, catId) > 0 then Err(Conflict)
    else Ok(rows - {catId})
  }

  /** A new category keeps the names distinct, and a taken name is refused. */
  lemma CreationKeepsNamesDistinct(rows: map<int, Category>, nextId: int, name: string)
    requires NamesDistinct(rows) && IdsConsistent(rows, nextId) && nextId >= 1
    ensures Creation(rows, nextId, name).Err? <==> NameTaken(rows, name)
    ensures Creation(rows, nextId, name).Ok? ==>
      NamesDistinct(Creation(rows, nextId, name).value)
      && IdsConsistent(Creation(rows, nextId, name).value, nextId + 1)
      && nextId !in rows
      && forall k :: k in rows ==> Creation(rows, nextId, name).value[k] == rows[k]
  {
    if !NameTaken(rows, name) {
      var r := Creation(rows, nextId, name).value;
      forall a, b | a in r && b in r && a != b
        ensures r[a].name != r[b].name
      {
        if a == nextId {
          assert rows[b].name != name;
        } else if b == nextId {
          assert rows[a].name != name;
        }
      }
    }
  }

  /** Renaming keeps the names distinct; a category may be renamed to its
      own name, not to the name of another. */
  lemma RenamingKeepsNamesDistinct(rows: map<int, Category>, catId: int, name: Option<string>)
    requires NamesDistinct(rows)
    ensures Renaming(rows, catId, name).Ok? ==> NamesDistinct(Renaming(rows, catId, name).value)
    ensures catId in rows && name.Some? ==>
      (Renaming(rows, catId, name).Err? <==> exists other :: other in rows && other != catId && rows[other].name == name.value)
  {
    if catId in rows && name.Some? {
      var r := Renaming(rows, catId, name);
      if r.Ok? {
        forall a, b | a in r.value && b in r.value && a != b
          ensures r.value[a].name != r.value[b].name
        {
          if a == catId && name.value != rows[catId].name {
            assert rows[b].name != name.value;
          } else if b == catId && name.value != rows[catId].name {
            assert rows[a].name != name.value;
          }
        }
      }
      if exists other :: other in rows && other != catId && rows[other].name == name.value {
        var other :| other in rows && other != catId && rows[other].name == name.value;
        assert rows[catId].name != name.value;
      }
    }
  }

  /** A category some event uses is never deleted, so every event keeps a
      category of the table. */
  lemma DeletionKeepsEventCategories(rows: map<int, Category>, events: seq<Event>, catId: int)
    requires CategoriesExist(rows, events)
    ensures Deletion(rows, events, catId).Ok? ==> CategoriesExist(Deletion(rows, events, catId).value, events)
    ensures catId in rows ==>
      (Deletion(rows, events, catId).Err? <==> exists i :: 0 <= i < |events| && events[i].category == catId)
  {
  }

  // ---------------------------------------------------------------------
  // The table and the service
  // ---------------------------------------------------------------------

  class CategoryRepository {
    var rows: map<int, Category>
    var nextId: int

    ghost predicate Valid()
      reads this
    {
      IdsConsistent(rows, nextId) && NamesDistinct(rows) && nextId >= 1
    }

    constructor ()
      ensures Valid() && rows == map[] && nextId == 1
    {
      rows := map[];
      nextId := 1;
    }
  }

  class CategoryServiceImpl {
    const categoryRepository: CategoryRepository
    const eventRepository: EventRepository

    constructor (categories: CategoryRepository, events: EventRepository)
      ensures categoryRepository == categories && eventRepository == events
    {
      categoryRepository := categories;
      eventRepository := events;
    }

    /** create. */
    method Create(name: string) returns (result: Result<Category>)
      requires categoryRepository.Valid()
      modifies categoryRepository
      ensures categoryRepository.Valid()
      ensures var spec := Creation(old(categoryRepository.rows), old(categoryRepository.nextId), name);
        (spec.Err? ==> result == Err(spec.error) && unchanged(categoryRepository))
        && (spec.Ok? ==> result == Ok(Category(old(categoryRepository.nextId), name))
                         && categoryRepository.rows == spec.value
                         && categoryRepository.nextId == old(categoryRepository.nextId) + 1)
    {
      var taken := NameTaken(categoryRepository.rows, name);
      if taken {
        return Err(Conflict);
      }
      CreationKeepsNamesDistinct(categoryRepository.rows, categoryRepository.nextId, name);
      var cat := Category(categoryRepository.nextId, name);
      categoryRepository.rows := categoryRepository.rows[cat.id := cat];
      categoryRepository.nextId := categoryRepository.nextId + 1;
      result := Ok(cat);
    }

    /** delete. */
    method Delete(catId: int) returns (outcome: Outcome)
      requires categoryRepository.Valid()
      modifies categoryRepository
      ensures categoryRepository.Valid()
      ensures var spec := Deletion(old(categoryRepository.rows), eventRepository.rows, catId);
        (spec.Err? ==> outcome == Fail(spec.error) && unchanged(categoryRepository))
        && (spec.Ok? ==> outcome == Pass && categoryRepository.rows == spec.value
                         && categoryRepository.nextId == old(categoryRepository.nextId))
    {
      if catId !in categoryRepository.rows {
        return Fail(NotFound);
      }
      var count := CountByCategory(eventRepository.rows, catId);
      if count > 0 {
        return Fail(Conflict);
      }
      categoryRepository.rows := categoryRepository.rows - {catId};
      outcome := Pass;
    }

    /** update. */
    method Update(catId: int, name: Option<string>) returns (result: Result<Category>)
      requires categoryRepository.Valid()
      modifies categoryRepository
      ensures categoryRepository.Valid()
      ensures var spec := Renaming(old(categoryRepository.rows), catId, name);
        (spec.Err? ==> result == Err(spec.error) && unchanged(categoryRepository))
        && (spec.Ok? ==> result == Ok(spec.value[catId]) && categoryRepository.rows == spec.value
                         && categoryRepository.nextId == old(categoryRepository.nextId))
    {
      if catId !in categoryRepository.rows {
        return Err(NotFound);
      }
      var cat := categoryRepository.rows[catId];
      if name.Some? {
        if name.value != cat.name && NameTaken(categoryRepository.rows, name.value) {
          return Err(Conflict);
        }
        cat := cat.(name := name.value);
      }
      RenamingKeepsNamesDistinct(categoryRepository.rows, catId, name);
      categoryRepository.rows := categoryRepository.rows[catId := cat];
      result := Ok(cat);
    }

    /** getById. */
    method GetById(catId: int) returns (result: Result<Category>)
      ensures catId !in categoryRepository.rows <==> result == Err(NotFound)
      ensures result.Ok? ==> result.value == categoryRepository.rows[catId]
    {
      if catId !in categoryRepository.rows {
        return Err(NotFound);
      }
      result := Ok(categoryRepository.rows[catId]);
    }
  }
}
