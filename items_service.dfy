/** The item operations. Each checks that the item exists, then that the
    caller authored it, and hands every check of a category to
    `CategoriesService.GetCategory`. */
module ItemsService {
  import opened Common
  import opened Models
  import opened Dto
  import opened Configurations
  import opened Ownership
  import opened DataBase
  import CategoriesService

  const GetNotFoundMessage: string := "Item witch such id not found."
  const GetDeniedMessage: string := "You cannot fetch this item, it's not yours."
  const MissingMessage: string := "Item witch such id cannot be found."
  const RemoveDeniedMessage: string := "You cannot remove this item, it's not yours."
  const UpdateDeniedMessage: string := "You cannot update this item, it's not yours."
  const CategoryMissingMessage: string := "Cannot find this category."

  /** The view of item row `id`. */
  function ToItemDTO(id: Guid, i: Item): ItemDTO {
    ItemDTO(id, i.name, i.count, i.authorId, i.categoryId)
  }

  /** `itemId` is one of the caller's items. */
  predicate OwnsItem(t: Tables, fromUserId: Guid, itemId: Guid) {
    itemId in t.items && t.items[itemId].authorId == fromUserId
  }

  /** Looks an item up for `fromUserId`: existence first, then ownership. */
  function GetItem(t: Tables, fromUserId: Guid, itemId: Guid): (r: Result<ItemDTO>)
    ensures itemId !in t.items ==> r == Err(NotFound(GetNotFoundMessage))
    ensures itemId in t.items && t.items[itemId].authorId != fromUserId ==> r == Err(AccessDenied(GetDeniedMessage))
    ensures r.Ok? <==> OwnsItem(t, fromUserId, itemId)
    ensures r.Ok? ==>
      && r.value.id == itemId
      && r.value.name == t.items[itemId].name
      && r.value.count == t.items[itemId].count
      && r.value.authorId == fromUserId
      && r.value.categoryId == t.items[itemId].categoryId
  {
    if itemId !in t.items then Err(NotFound(GetNotFoundMessage))
    else if t.items[itemId].authorId != fromUserId then Err(AccessDenied(GetDeniedMessage))
    else Ok(ToItemDTO(itemId, t.items[itemId]))
  }

  /** Lists the caller's items: all of them when `categoryId` is None,
      otherwise, once the category passes `GetCategory`, those placed in it.
      The total count is the number of all the caller's items. */
  function GetUserItems(t: Tables, fromUserId: Guid, categoryId: Option<Guid>): (r: Result<GetItemsResponseDTO>)
    ensures categoryId.Some? && CategoriesService.GetCategory(t, fromUserId, categoryId.value).Err? ==>
      r == Err(CategoriesService.GetCategory(t, fromUserId, categoryId.value).error)
    ensures r.Ok? <==> categoryId.None? || CategoriesService.OwnsCategory(t, fromUserId, categoryId.value)
    ensures r.Ok? ==> forall v :: v in r.value.items <==>
      && v.id in t.items
      && v == ToItemDTO(v.id, t.items[v.id])
      && v.authorId == fromUserId
      && (categoryId.Some? ==> v.categoryId == categoryId.value)
    ensures r.Ok? ==> r.value.totalCount == |ItemsOf(t, fromUserId)|
  {
    if categoryId.None? then
      var listed := set id | id in t.items && t.items[id].authorId == fromUserId :: ToItemDTO(id, t.items[id]);
      Ok(GetItemsResponseDTO(listed, |ItemsOf(t, fromUserId)|))
    else if CategoriesService.GetCategory(t, fromUserId, categoryId.value).Err? then
      Err(CategoriesService.GetCategory(t, fromUserId, categoryId.value).error)
    else
      var listed := set id | id in t.items && t.items[id].authorId == fromUserId
                                             && t.items[id].categoryId == categoryId.value
                         :: ToItemDTO(id, t.items[id]);
      Ok(GetItemsResponseDTO(listed, |ItemsOf(t, fromUserId)|))
  }

  /** Both listings report the same total, the number of the caller's items,
      whatever filter either was given. */
  lemma TotalCountIgnoresFilters(t: Tables, fromUserId: Guid, parentId: Option<Guid>, categoryId: Option<Guid>)
    requires CategoriesService.GetUserCategories(t, fromUserId, parentId).Ok?
    requires GetUserItems(t, fromUserId, categoryId).Ok?
    ensures CategoriesService.GetUserCategories(t, fromUserId, parentId).value.totalCount
         == GetUserItems(t, fromUserId, categoryId).value.totalCount
         == GetUserItems(t, fromUserId, None).value.totalCount
         == |GetUserItems(t, fromUserId, None).value.items|
  {
    var all := GetUserItems(t, fromUserId, None).value.items;
    var ids := ItemsOf(t, fromUserId);
    IdsCountViews(t, ids);
    assert all == set id | id in ids :: ToItemDTO(id, t.items[id]);
  }

  /** Distinct item ids give distinct views, so a set of ids and the set of
      their views have the same size. */
  lemma {:induction false} IdsCountViews(t: Tables, ids: set<Guid>)
    requires ids <= t.items.Keys
    ensures |set id | id in ids :: ToItemDTO(id, t.items[id])| == |ids|
    decreases |ids|
  {
    if ids != {} {
      var x :| x in ids;
      var rest := ids - {x};
      IdsCountViews(t, rest);
      var views := set id | id in ids :: ToItemDTO(id, t.items[id]);
      var restViews := set id | id in rest :: ToItemDTO(id, t.items[id]);
      assert views == restViews + {ToItemDTO(x, t.items[x])};
      assert ToItemDTO(x, t.items[x]) !in restViews;
    }
  }

  /** Creates an item in one of the caller's categories under the fresh id
      `newId`. A category that does not exist fails with this service's own
      NotFound message; one that belongs to someone else fails as
      `GetCategory` does; a name over the bound or an author that is not a
      user makes the commit fail. */
  method CreateItem(db: DataBaseContext, fromUserId: Guid, dto: CreateItemDTO, newId: Guid)
    returns (r: Result<ItemDTO>)
    requires newId !in db.items
    requires SchemaValid(db.Snapshot())
    modifies db
    ensures SchemaValid(db.Snapshot())
    ensures old(OwnershipConsistent(db.Snapshot())) ==> OwnershipConsistent(db.Snapshot())
    ensures r.Err? ==> db.Snapshot() == old(db.Snapshot())
    ensures dto.categoryId !in old(db.categories) ==> r == Err(NotFound(CategoryMissingMessage))
    ensures dto.categoryId in old(db.categories) && old(db.categories[dto.categoryId].authorId) != fromUserId ==>
      r == Err(AccessDenied(CategoriesService.GetDeniedMessage))
    ensures old(CategoriesService.OwnsCategory(db.Snapshot(), fromUserId, dto.categoryId)) ==>
      (r.Ok? <==> |dto.name| <= MaxNameLength && fromUserId in old(db.users))
      && (r.Err? ==> r == Err(Unhandled(DbUpdateFailedMessage)))
    ensures r.Ok? ==>
      && db.items == old(db.items)[newId := Item(dto.name, dto.count, fromUserId, dto.categoryId)]
      && db.categories == old(db.categories) && db.users == old(db.users) && db.connections == old(db.connections)
      && r.value == ItemDTO(newId, dto.name, dto.count, fromUserId, dto.categoryId)
      && GetItem(db.Snapshot(), fromUserId, newId) == Ok(r.value)
  {
    var t := db.Snapshot();
    if dto.categoryId !in t.categories {
      return Err(NotFound(CategoryMissingMessage));
    }
    var category := CategoriesService.GetCategory(t, fromUserId, dto.categoryId);
    if category.Err? {
      return Err(category.error);
    }
    var item := Item(dto.name, dto.count, fromUserId, dto.categoryId);
    var candidate := t.(items := t.items[newId := item]);
    PutItemSchema(t, newId, item);
    if OwnershipConsistent(t) {
      PutItemKeepsOwnership(t, newId, item);
    }
    var saved := db.SaveChanges(candidate);
    if !saved {
      return Err(Unhandled(DbUpdateFailedMessage));
    }
    r := Ok(ToItemDTO(newId, item));
  }

  /** Deletes one of the caller's items and nothing else. */
  method RemoveItem(db: DataBaseContext, fromUserId: Guid, itemId: Guid) returns (r: Outcome)
    requires SchemaValid(db.Snapshot())
    modifies db
    ensures SchemaValid(db.Snapshot())
    ensures old(OwnershipConsistent(db.Snapshot())) ==> OwnershipConsistent(db.Snapshot())
    ensures itemId !in old(db.items) ==> r == Fail(NotFound(MissingMessage)) && db.Snapshot() == old(db.Snapshot())
    ensures itemId in old(db.items) && old(db.items[itemId].authorId) != fromUserId ==>
      r == Fail(AccessDenied(RemoveDeniedMessage)) && db.Snapshot() == old(db.Snapshot())
    ensures old(OwnsItem(db.Snapshot(), fromUserId, itemId)) ==>
      && r == Done
      && db.items == old(db.items) - {itemId}
      && db.categories == old(db.categories) && db.users == old(db.users) && db.connections == old(db.connections)
      && GetItem(db.Snapshot(), fromUserId, itemId) == Err(NotFound(GetNotFoundMessage))
  {
    var t := db.Snapshot();
    if itemId !in t.items {
      return Fail(NotFound(MissingMessage));
    }
    if t.items[itemId].authorId != fromUserId {
      return Fail(AccessDenied(RemoveDeniedMessage));
    }
    var candidate := t.(items := t.items - {itemId});
    assert SchemaValid(candidate);
    if OwnershipConsistent(t) {
      DeleteItemKeepsOwnership(t, itemId);
    }
    var _ := db.SaveChanges(candidate);
    r := Done;
  }

  /** Replaces the name, count and category of one of the caller's items,
      keeping its id and author. The checks run in order: the item exists,
      the caller authored it, and the target category passes `GetCategory`.
      Any failure leaves the item as it was. */
  method UpdateItem(db: DataBaseContext, fromUserId: Guid, itemId: Guid, dto: CreateItemDTO) returns (r: Outcome)
    requires SchemaValid(db.Snapshot())
    modifies db
    ensures SchemaValid(db.Snapshot())
    ensures old(OwnershipConsistent(db.Snapshot())) ==> OwnershipConsistent(db.Snapshot())
    ensures r.Fail? ==> db.Snapshot() == old(db.Snapshot())
    ensures itemId !in old(db.items) ==> r == Fail(NotFound(MissingMessage))
    ensures itemId in old(db.items) && old(db.items[itemId].authorId) != fromUserId ==>
      r == Fail(AccessDenied(UpdateDeniedMessage))
    ensures old(OwnsItem(db.Snapshot(), fromUserId, itemId)) ==>
      (old(CategoriesService.GetCategory(db.Snapshot(), fromUserId, dto.categoryId)).Err? ==>
        r == Fail(old(CategoriesService.GetCategory(db.Snapshot(), fromUserId, dto.categoryId)).error))
    ensures old(OwnsItem(db.Snapshot(), fromUserId, itemId) && CategoriesService.OwnsCategory(db.Snapshot(), fromUserId, dto.categoryId)) ==>
      (r == Done <==> |dto.name| <= MaxNameLength) && (r != Done ==> r == Fail(Unhandled(DbUpdateFailedMessage)))
    ensures r == Done ==>
      && db.items == old(db.items)[itemId := Item(dto.name, dto.count, fromUserId, dto.categoryId)]
      && db.categories == old(db.categories) && db.users == old(db.users) && db.connections == old(db.connections)
      && GetItem(db.Snapshot(), fromUserId, itemId) == Ok(ItemDTO(itemId, dto.name, dto.count, fromUserId, dto.categoryId))
  {
    var t := db.Snapshot();
    if itemId !in t.items {
      return Fail(NotFound(MissingMessage));
    }
    var item := t.items[itemId];
    if item.authorId != fromUserId {
      return Fail(AccessDenied(UpdateDeniedMessage));
    }
    var category := CategoriesService.GetCategory(t, fromUserId, dto.categoryId);
    if category.Err? {
      return Fail(category.error);
    }
    var updated := item.(name := dto.name, categoryId := dto.categoryId, count := dto.count);
    var candidate := t.(items := t.items[itemId := updated]);
    PutItemSchema(t, itemId, updated);
    if OwnershipConsistent(t) {
      PutItemKeepsOwnership(t, itemId, updated);
    }
    var saved := db.SaveChanges(candidate);
    if !saved {
      return Fail(Unhandled(DbUpdateFailedMessage));
    }
    r := Done;
  }
}
