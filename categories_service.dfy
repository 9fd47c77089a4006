/** The category operations. Every one takes the caller's id and checks, in
    this order, that the category exists (NotFound), that the caller authored
    it (AccessDenied) and that a referenced parent passes the same two checks;
    only then does it change the database. */
module CategoriesService {
  import opened Common
  import opened Models
  import opened Dto
  import opened Configurations
  import opened Ownership
  import opened DataBase

  const GetNotFoundMessage: string := "Category with such id not found."
  const GetDeniedMessage: string := "You cannot fetch this category, it's not yours."
  const MissingMessage: string := "Category witch such id cannot be found."
  const RemoveDeniedMessage: string := "You cannot remove this category, it's not yours."
  const UpdateDeniedMessage: string := "You cannot update this category, it's not yours."

  /** The view of category row `id`. */
  function ToCategoryDTO(id: Guid, c: Category): CategoryDTO {
    CategoryDTO(id, c.name, c.parentId)
  }

  /** Looks a category up for `fromUserId`: existence first, then ownership,
      so an absent id never yields AccessDenied. */
  function GetCategory(t: Tables, fromUserId: Guid, categoryId: Guid): (r: Result<CategoryDTO>)
    ensures categoryId !in t.categories ==> r == Err(NotFound(GetNotFoundMessage))
    ensures categoryId in t.categories && t.categories[categoryId].authorId != fromUserId ==>
      r == Err(AccessDenied(GetDeniedMessage))
    ensures r.Ok? <==> OwnsCategory(t, fromUserId, categoryId)
    ensures r.Ok? ==>
      && r.value.id == categoryId
      && r.value.name == t.categories[categoryId].name
      && r.value.parentId == t.categories[categoryId].parentId
  {
    if categoryId !in t.categories then Err(NotFound(GetNotFoundMessage))
    else if t.categories[categoryId].authorId != fromUserId then Err(AccessDenied(GetDeniedMessage))
    else Ok(ToCategoryDTO(categoryId, t.categories[categoryId]))
  }

  /** `categoryId` is one of the caller's categories. */
  predicate OwnsCategory(t: Tables, fromUserId: Guid, categoryId: Guid) {
    categoryId in t.categories && t.categories[categoryId].authorId == fromUserId
  }

  /** The parent check of create and update: no parent, or one the caller
      owns, which is exactly when `GetCategory` accepts it. */
  predicate ParentAccepted(t: Tables, fromUserId: Guid, parentId: Option<Guid>) {
    parentId.None? || OwnsCategory(t, fromUserId, parentId.value)
  }

  /** Lists the caller's categories whose parent is `parentId` (the roots when
      it is None), after checking a given parent as `GetCategory` does. The
      total count is the number of items the caller authored, whatever the
      filter. */
  function GetUserCategories(t: Tables, fromUserId: Guid, parentId: Option<Guid>): (r: Result<GetCategoriesResponseDTO>)
    ensures !ParentAccepted(t, fromUserId, parentId) ==> r == Err(GetCategory(t, fromUserId, parentId.value).error)
    ensures r.Ok? <==> ParentAccepted(t, fromUserId, parentId)
    ensures r.Ok? ==> forall v :: v in r.value.categories <==>
      && v.id in t.categories
      && t.categories[v.id].authorId == fromUserId
      && t.categories[v.id].parentId == parentId
      && v.name == t.categories[v.id].name
      && v.parentId == parentId
    ensures r.Ok? ==> r.value.totalCount == |ItemsOf(t, fromUserId)|
  {
    if parentId.Some? && GetCategory(t, fromUserId, parentId.value).Err? then
      Err(GetCategory(t, fromUserId, parentId.value).error)
    else
      var listed := set id | id in t.categories && t.categories[id].parentId == parentId
                                                  && t.categories[id].authorId == fromUserId
                         :: ToCategoryDTO(id, t.categories[id]);
      Ok(GetCategoriesResponseDTO(listed, |ItemsOf(t, fromUserId)|))
  }

  /** Creates a root category, or a child of a parent the caller may fetch,
      under the fresh id `newId` the database generates. A parent that fails
      `GetCategory` fails the call with the same error; a name over the bound
      or an author that is not a user makes the commit fail. */
  method CreateCategory(db: DataBaseContext, fromUserId: Guid, dto: CreateCategoryDTO, newId: Guid)
    returns (r: Result<CategoryDTO>)
    requires newId !in db.categories
    requires SchemaValid(db.Snapshot())
    modifies db
    ensures SchemaValid(db.Snapshot())
    ensures old(OwnershipConsistent(db.Snapshot())) ==> OwnershipConsistent(db.Snapshot())
    ensures r.Err? ==> db.Snapshot() == old(db.Snapshot())
    ensures !old(ParentAccepted(db.Snapshot(), fromUserId, dto.parentId)) ==>
      r == Err(old(GetCategory(db.Snapshot(), fromUserId, dto.parentId.value)).error)
    ensures old(ParentAccepted(db.Snapshot(), fromUserId, dto.parentId)) ==>
      (r.Ok? <==> |dto.name| <= MaxNameLength && fromUserId in old(db.users))
    ensures old(ParentAccepted(db.Snapshot(), fromUserId, dto.parentId)) && r.Err? ==>
      r == Err(Unhandled(DbUpdateFailedMessage))
    ensures r.Ok? ==>
      && db.categories == old(db.categories)[newId := Category(dto.name, dto.parentId, fromUserId)]
      && db.items == old(db.items) && db.users == old(db.users) && db.connections == old(db.connections)
      && r.value == CategoryDTO(newId, dto.name, dto.parentId)
      && GetCategory(db.Snapshot(), fromUserId, newId) == Ok(r.value)
  {
    var t := db.Snapshot();
    if dto.parentId.Some? {
      var parent := GetCategory(t, fromUserId, dto.parentId.value);
      if parent.Err? {
        return Err(parent.error);
      }
    }
    var category := Category(dto.name, dto.parentId, fromUserId);
    var candidate := t.(categories := t.categories[newId := category]);
    PutCategorySchema(t, newId, category);
    if OwnershipConsistent(t) {
      PutCategoryKeepsOwnership(t, newId, category);
    }
    var saved := db.SaveChanges(candidate);
    if !saved {
      return Err(Unhandled(DbUpdateFailedMessage));
    }
    r := Ok(ToCategoryDTO(newId, category));
  }

  /** Deletes one of the caller's categories. The database cascades the
      deletion to every category below it and to every item in any of them. */
  method RemoveCategory(db: DataBaseContext, fromUserId: Guid, categoryId: Guid) returns (r: Outcome)
    requires SchemaValid(db.Snapshot())
    modifies db
    ensures SchemaValid(db.Snapshot())
    ensures old(OwnershipConsistent(db.Snapshot())) ==> OwnershipConsistent(db.Snapshot())
    ensures categoryId !in old(db.categories) ==>
      r == Fail(NotFound(MissingMessage)) && db.Snapshot() == old(db.Snapshot())
    ensures categoryId in old(db.categories) && old(db.categories[categoryId].authorId) != fromUserId ==>
      r == Fail(AccessDenied(RemoveDeniedMessage)) && db.Snapshot() == old(db.Snapshot())
    ensures categoryId in old(db.categories) && old(db.categories[categoryId].authorId) == fromUserId ==>
      && r == Done
      && db.Snapshot() == DeleteCategoryCascade(old(db.Snapshot()), categoryId)
      && GetCategory(db.Snapshot(), fromUserId, categoryId) == Err(NotFound(GetNotFoundMessage))
  {
    var t := db.Snapshot();
    if categoryId !in t.categories {
      return Fail(NotFound(MissingMessage));
    }
    if t.categories[categoryId].authorId != fromUserId {
      return Fail(AccessDenied(RemoveDeniedMessage));
    }
    var candidate := DeleteCategoryCascade(t, categoryId);
    DeleteCategoryCascadeKeepsSchema(t, categoryId);
    if OwnershipConsistent(t) {
      DeleteCategoryCascadeKeepsOwnership(t, categoryId);
    }
    var _ := db.SaveChanges(candidate);
    r := Done;
  }

  /** Renames and re-parents one of the caller's categories. The checks run in
      order: the category exists, the caller authored it, and a new parent
      passes `GetCategory`. There is no cycle check: a category may become its
      own parent or the child of a descendant. */
  method UpdateCategory(db: DataBaseContext, fromUserId: Guid, categoryId: Guid, dto: CreateCategoryDTO)
    returns (r: Outcome)
    requires SchemaValid(db.Snapshot())
    modifies db
    ensures SchemaValid(db.Snapshot())
    ensures old(OwnershipConsistent(db.Snapshot())) ==> OwnershipConsistent(db.Snapshot())
    ensures r.Fail? ==> db.Snapshot() == old(db.Snapshot())
    ensures categoryId !in old(db.categories) ==> r == Fail(NotFound(MissingMessage))
    ensures categoryId in old(db.categories) && old(db.categories[categoryId].authorId) != fromUserId ==>
      r == Fail(AccessDenied(UpdateDeniedMessage))
    ensures old(OwnsCategory(db.Snapshot(), fromUserId, categoryId)) ==>
      (!old(ParentAccepted(db.Snapshot(), fromUserId, dto.parentId)) ==>
        r == Fail(old(GetCategory(db.Snapshot(), fromUserId, dto.parentId.value)).error))
    ensures old(OwnsCategory(db.Snapshot(), fromUserId, categoryId) && ParentAccepted(db.Snapshot(), fromUserId, dto.parentId)) ==>
      (r == Done <==> |dto.name| <= MaxNameLength) && (r != Done ==> r == Fail(Unhandled(DbUpdateFailedMessage)))
    ensures r == Done ==>
      && db.categories == old(db.categories)[categoryId := old(db.categories[categoryId]).(name := dto.name, parentId := dto.parentId)]
      && db.items == old(db.items) && db.users == old(db.users) && db.connections == old(db.connections)
  {
    var t := db.Snapshot();
    if categoryId !in t.categories {
      return Fail(NotFound(MissingMessage));
    }
    var category := t.categories[categoryId];
    if category.authorId != fromUserId {
      return Fail(AccessDenied(UpdateDeniedMessage));
    }
    if dto.parentId.Some? {
      var parent := GetCategory(t, fromUserId, dto.parentId.value);
      if parent.Err? {
        return Fail(parent.error);
      }
    }
    var updated := category.(name := dto.name, parentId := dto.parentId);
    var candidate := t.(categories := t.categories[categoryId := updated]);
    PutCategorySchema(t, categoryId, updated);
    if OwnershipConsistent(t) {
      PutCategoryKeepsOwnership(t, categoryId, updated);
    }
    var saved := db.SaveChanges(candidate);
    if !saved {
      return Fail(Unhandled(DbUpdateFailedMessage));
    }
    r := Done;
  }
}
