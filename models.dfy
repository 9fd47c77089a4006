/** The rows of the four tables (the entity classes of the persistence layer)
    and a value snapshot of the whole database. */
module Models {
  import opened Common

  /** A registered person. */
  datatype User = User(name: string, avatarUrl: Option<string>)

  /** A node of its author's category forest; `parentId` is None for a root. */
  datatype Category = Category(name: string, parentId: Option<Guid>, authorId: Guid)

  /** A counted thing placed in exactly one category. */
  datatype Item = Item(name: string, count: Int32, authorId: Guid, categoryId: Guid)

  /** The whole database at one moment: users by id, GitHub connections by
      login (the login is the connection's key, so there is at most one
      connection per login), categories by id and items by id. */
  datatype Tables = Tables(
    users: map<Guid, User>,
    connections: map<string, Guid>,
    categories: map<Guid, Category>,
    items: map<Guid, Item>)

  /** The ids of the items `userId` authored. */
  function ItemsOf(t: Tables, userId: Guid): (ids: set<Guid>)
    ensures forall id :: id in ids <==> id in t.items && t.items[id].authorId == userId
  {
    set id | id in t.items && t.items[id].authorId == userId
  }
}
