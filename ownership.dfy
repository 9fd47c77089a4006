/** The ownership invariant that the service checks maintain and the schema
    does not enforce: a category's parent, and an item's category, belong to
    the same author as the category or item itself. */
module Ownership {
  import opened Common
  import opened Models
  import opened Configurations

  /** Every present parent of a category exists and shares its author. */
  predicate ParentsShareAuthor(t: Tables) {
    forall id :: id in t.categories && t.categories[id].parentId.Some? ==>
      && t.categories[id].parentId.value in t.categories
      && t.categories[t.categories[id].parentId.value].authorId == t.categories[id].authorId
  }

  /** Every item's category exists and shares its author. */
  predicate ItemsShareAuthor(t: Tables) {
    forall id :: id in t.items ==>
      && t.items[id].categoryId in t.categories
      && t.categories[t.items[id].categoryId].authorId == t.items[id].authorId
  }

  predicate OwnershipConsistent(t: Tables) {
    ParentsShareAuthor(t) && ItemsShareAuthor(t)
  }

  /** The schema alone allows an item to sit in another user's category:
      the equality of authors is kept only by the service checks. */
  lemma SchemaAllowsForeignCategory()
    ensures exists t :: SchemaValid(t) && !OwnershipConsistent(t)
  {
    var t := Tables(
      map[0 := User("a", None), 1 := User("b", None)],
      map[],
      map[10 := Category("c", None, 0)],
      map[20 := Item("i", 1, 1, 10)]);
    assert SchemaValid(t);
    assert !ItemsShareAuthor(t) by {
      assert t.categories[t.items[20].categoryId].authorId != t.items[20].authorId;
    }
  }

  /** Writing a category whose parent, if any, exists with the same author,
      and which keeps the author of the row it replaces, keeps the invariant.
      This covers making a category its own parent. */
  lemma PutCategoryKeepsOwnership(t: Tables, id: Guid, c: Category)
    requires OwnershipConsistent(t)
    requires c.parentId.Some? ==> c.parentId.value in t.categories && t.categories[c.parentId.value].authorId == c.authorId
    requires id in t.categories ==> t.categories[id].authorId == c.authorId
    ensures OwnershipConsistent(t.(categories := t.categories[id := c]))
  {
  }

  /** Writing an item into an existing category of its own author keeps the invariant. */
  lemma PutItemKeepsOwnership(t: Tables, id: Guid, i: Item)
    requires OwnershipConsistent(t)
    requires i.categoryId in t.categories && t.categories[i.categoryId].authorId == i.authorId
    ensures OwnershipConsistent(t.(items := t.items[id := i]))
  {
  }

  /** Deleting an item keeps the invariant. */
  lemma DeleteItemKeepsOwnership(t: Tables, id: Guid)
    requires OwnershipConsistent(t)
    ensures OwnershipConsistent(t.(items := t.items - {id}))
  {
  }

  /** The cascade of a category deletion keeps the invariant: no surviving
      category or item refers to a deleted category. */
  lemma DeleteCategoryCascadeKeepsOwnership(t: Tables, categoryId: Guid)
    requires OwnershipConsistent(t)
    ensures OwnershipConsistent(DeleteCategoryCascade(t, categoryId))
  {
    var r := DeleteCategoryCascade(t, categoryId);
    var gone := CascadeSet(t.categories, {categoryId});
    forall id | id in r.categories && r.categories[id].parentId.Some?
      ensures r.categories[id].parentId.value in r.categories
    {
      assert id !in gone;
      assert !HasParentIn(t.categories[id], gone);
    }
  }
}
