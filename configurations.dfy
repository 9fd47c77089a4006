/** The constraints the entity configurations declare for the four tables,
    and the cascade a category deletion triggers.

    The database refuses to commit a state that breaks any of these
    constraints; `SchemaValid` is that acceptance test. Keys are the keys of
    the maps in `Tables`, so ids are unique by construction. */
module Configurations {
  import opened Common
  import opened Models

  /** `HasMaxLength(64)` on the names of users, categories and items. */
  const MaxNameLength: nat := 64
  /** `HasMaxLength(256)` on a user's avatar URL. */
  const MaxAvatarUrlLength: nat := 256

  /** A user row: the name is bounded and so is the optional avatar URL. */
  predicate UserRowValid(u: User) {
    && |u.name| <= MaxNameLength
    && (u.avatarUrl.Some? ==> |u.avatarUrl.value| <= MaxAvatarUrlLength)
  }

  /** A category row: a bounded name, an author that is a user, and a parent,
      when there is one, that is a category. */
  predicate CategoryRowValid(t: Tables, c: Category) {
    && |c.name| <= MaxNameLength
    && c.authorId in t.users
    && (c.parentId.Some? ==> c.parentId.value in t.categories)
  }

  /** An item row: a bounded name, a category that exists and an author that
      is a user. */
  predicate ItemRowValid(t: Tables, i: Item) {
    && |i.name| <= MaxNameLength
    && i.categoryId in t.categories
    && i.authorId in t.users
  }

  /** Every row of every table satisfies its declared constraints; a
      connection always links to an existing user. */
  predicate SchemaValid(t: Tables) {
    && (forall id :: id in t.users ==> UserRowValid(t.users[id]))
    && (forall login :: login in t.connections ==> t.connections[login] in t.users)
    && (forall id :: id in t.categories ==> CategoryRowValid(t, t.categories[id]))
    && (forall id :: id in t.items ==> ItemRowValid(t, t.items[id]))
  }

  /** Writing a category row whose parent exists (an insert under a fresh id
      or an update of an existing row) is accepted exactly when the row's own
      name and author constraints hold. */
  lemma PutCategorySchema(t: Tables, id: Guid, c: Category)
    requires SchemaValid(t)
    requires c.parentId.Some? ==> c.parentId.value in t.categories
    ensures SchemaValid(t.(categories := t.categories[id := c])) <==> |c.name| <= MaxNameLength && c.authorId in t.users
  {
    var t' := t.(categories := t.categories[id := c]);
    if |c.name| <= MaxNameLength && c.authorId in t.users {
      forall k | k in t'.categories
        ensures CategoryRowValid(t', t'.categories[k])
      {
        if k != id {
          assert CategoryRowValid(t, t.categories[k]);
        }
      }
    } else {
      assert !CategoryRowValid(t', t'.categories[id]);
    }
  }

  /** Writing an item row whose category exists is accepted exactly when the
      row's own name and author constraints hold. */
  lemma PutItemSchema(t: Tables, id: Guid, i: Item)
    requires SchemaValid(t)
    requires i.categoryId in t.categories
    ensures SchemaValid(t.(items := t.items[id := i])) <==> |i.name| <= MaxNameLength && i.authorId in t.users
  {
    var t' := t.(items := t.items[id := i]);
    if !(|i.name| <= MaxNameLength && i.authorId in t.users) {
      assert !ItemRowValid(t', t'.items[id]);
    }
  }

  /** Inserting a user row is accepted exactly when its own bounds hold. */
  lemma PutUserSchema(t: Tables, id: Guid, u: User)
    requires SchemaValid(t)
    ensures SchemaValid(t.(users := t.users[id := u])) <==> UserRowValid(u)
  {
    var t' := t.(users := t.users[id := u]);
    if UserRowValid(u) {
      forall k | k in t'.categories
        ensures CategoryRowValid(t', t'.categories[k])
      {
        assert CategoryRowValid(t, t.categories[k]);
      }
      forall k | k in t'.items
        ensures ItemRowValid(t', t'.items[k])
      {
        assert ItemRowValid(t, t.items[k]);
      }
    } else {
      assert !UserRowValid(t'.users[id]);
    }
  }

  /** Inserting a connection is accepted exactly when it links to a user. */
  lemma PutConnectionSchema(t: Tables, login: string, userId: Guid)
    requires SchemaValid(t)
    ensures SchemaValid(t.(connections := t.connections[login := userId])) <==> userId in t.users
  {
    var t' := t.(connections := t.connections[login := userId]);
    if userId !in t.users {
      assert t'.connections[login] !in t'.users;
    }
  }

  // ---------------------------------------------------------------------
  // Cascade on delete
  // ---------------------------------------------------------------------

  predicate HasParentIn(c: Category, s: set<Guid>) {
    c.parentId.Some? && c.parentId.value in s
  }

  /** No category outside `s` has its parent inside `s`: deleting `s` leaves
      no dangling parent reference behind. */
  predicate ClosedUnderChildren(cats: map<Guid, Category>, s: set<Guid>) {
    forall id :: id in cats && HasParentIn(cats[id], s) ==> id in s
  }

  /** The categories one cascade step adds to `acc`: the children of its members. */
  function ChildrenOf(cats: map<Guid, Category>, acc: set<Guid>): set<Guid> {
    set id | id in cats && HasParentIn(cats[id], acc)
  }

  /** A proper subset of a finite set is smaller. */
  lemma ProperSubsetSmaller<T>(a: set<T>, b: set<T>)
    requires a < b
    ensures |a| < |b|
  {
    assert b == a + (b - a);
    assert b - a != {};
  }

  /** Everything an `ON DELETE CASCADE` on ParentId removes when `acc` is
      deleted: `acc` together with every category below it, reached by
      repeatedly adding children. Parent links may form cycles, so this is a
      fixpoint on a finite set rather than a walk down a tree. */
  function CascadeSet(cats: map<Guid, Category>, acc: set<Guid>): (r: set<Guid>)
    ensures acc <= r
    ensures r <= acc + cats.Keys
    ensures ClosedUnderChildren(cats, r)
    decreases |cats.Keys - acc|
  {
    var next := acc + ChildrenOf(cats, acc);
    if next <= acc then acc
    else
      assert cats.Keys - next < cats.Keys - acc;
      ProperSubsetSmaller(cats.Keys - next, cats.Keys - acc);
      CascadeSet(cats, next)
  }

  /** The cascade removes nothing it does not have to: it lies inside every
      set that contains `acc` and is closed under children. */
  lemma {:induction false} CascadeSetLeast(cats: map<Guid, Category>, acc: set<Guid>, s: set<Guid>)
    requires acc <= s
    requires ClosedUnderChildren(cats, s)
    ensures CascadeSet(cats, acc) <= s
    decreases |cats.Keys - acc|
  {
    var next := acc + ChildrenOf(cats, acc);
    if !(next <= acc) {
      ProperSubsetSmaller(cats.Keys - next, cats.Keys - acc);
      CascadeSetLeast(cats, next, s);
    }
  }

  /** `chain` walks upward through ParentId: each element is a category whose
      parent is the next element. */
  ghost predicate ParentChain(cats: map<Guid, Category>, chain: seq<Guid>) {
    && |chain| >= 1
    && forall k :: 0 <= k < |chain| - 1 ==> chain[k] in cats && cats[chain[k]].parentId == Some(chain[k + 1])
  }

  /** `id` is `root` or a descendant of it. */
  ghost predicate Reaches(cats: map<Guid, Category>, id: Guid, root: Guid) {
    exists chain :: ParentChain(cats, chain) && chain[0] == id && chain[|chain| - 1] == root
  }

  /** Every category whose ancestors include `root` goes with it. */
  lemma {:induction false} ChainInCascade(cats: map<Guid, Category>, chain: seq<Guid>, root: Guid)
    requires ParentChain(cats, chain) && chain[|chain| - 1] == root
    ensures chain[0] in CascadeSet(cats, {root})
    decreases |chain|
  {
    if |chain| > 1 {
      assert ParentChain(cats, chain[1..]);
      ChainInCascade(cats, chain[1..], root);
      assert HasParentIn(cats[chain[0]], CascadeSet(cats, {root}));
    }
  }

  /** The cascade removes exactly `root` and its descendants. */
  lemma CascadeSetIsDescendants(cats: map<Guid, Category>, root: Guid, id: Guid)
    ensures id in CascadeSet(cats, {root}) <==> Reaches(cats, id, root)
  {
    if Reaches(cats, id, root) {
      var chain :| ParentChain(cats, chain) && chain[0] == id && chain[|chain| - 1] == root;
      ChainInCascade(cats, chain, root);
    }
    if id in CascadeSet(cats, {root}) {
      var below := set x | x in cats.Keys + {root} && Reaches(cats, x, root);
      assert root in below by {
        assert ParentChain(cats, [root]);
      }
      forall x | x in cats && HasParentIn(cats[x], below)
        ensures x in below
      {
        var p := cats[x].parentId.value;
        var chain :| ParentChain(cats, chain) && chain[0] == p && chain[|chain| - 1] == root;
        assert ParentChain(cats, [x] + chain);
      }
      CascadeSetLeast(cats, {root}, below);
    }
  }

  /** The database after deleting category `categoryId`: its cascade set of
      categories is gone, and so is every item placed in one of them. */
  function DeleteCategoryCascade(t: Tables, categoryId: Guid): (r: Tables)
    ensures r.users == t.users && r.connections == t.connections
    ensures categoryId !in r.categories
    ensures r.categories.Keys <= t.categories.Keys && r.items.Keys <= t.items.Keys
    ensures forall id :: id in r.categories ==> r.categories[id] == t.categories[id]
    ensures forall id :: id in r.items ==> r.items[id] == t.items[id]
    ensures forall id :: id in r.items ==> r.items[id].categoryId in r.categories || r.items[id].categoryId !in t.categories
  {
    var gone := CascadeSet(t.categories, {categoryId});
    t.(categories := t.categories - gone,
       items := map id | id in t.items && t.items[id].categoryId !in gone :: t.items[id])
  }

  /** Deleting a category with its cascade never leaves a dangling reference,
      so the database always accepts it. */
  lemma DeleteCategoryCascadeKeepsSchema(t: Tables, categoryId: Guid)
    requires SchemaValid(t)
    ensures SchemaValid(DeleteCategoryCascade(t, categoryId))
  {
    var r := DeleteCategoryCascade(t, categoryId);
    var gone := CascadeSet(t.categories, {categoryId});
    forall id | id in r.categories
      ensures CategoryRowValid(r, r.categories[id])
    {
      var c := t.categories[id];
      assert id !in gone;
      assert !HasParentIn(c, gone);
    }
  }

  /** Deleting a category deletes every descendant of it and every item that
      sat in it or in a descendant; everything else stays. */
  lemma DeleteCategoryCascadeRemovesSubtree(t: Tables, categoryId: Guid, id: Guid, itemId: Guid)
    ensures id in t.categories ==>
      (id in DeleteCategoryCascade(t, categoryId).categories <==> !Reaches(t.categories, id, categoryId))
    ensures itemId in t.items ==>
      (itemId in DeleteCategoryCascade(t, categoryId).items <==> !Reaches(t.categories, t.items[itemId].categoryId, categoryId))
  {
    CascadeSetIsDescendants(t.categories, categoryId, id);
    if itemId in t.items {
      CascadeSetIsDescendants(t.categories, categoryId, t.items[itemId].categoryId);
    }
  }
}
