/** The database context: the four tables the services read and change,
    and the commit that the database accepts only when every declared
    constraint still holds. */
module DataBase {
  import opened Common
  import opened Models
  import opened Configurations

  class DataBaseContext {
    var users: map<Guid, User>
    var connections: map<string, Guid>
    var categories: map<Guid, Category>
    var items: map<Guid, Item>

    /** The current contents of all four tables. */
    function Snapshot(): Tables
      reads this
    {
      Tables(users, connections, categories, items)
    }

    /** A freshly migrated, empty database. */
    constructor ()
      ensures users == map[] && connections == map[] && categories == map[] && items == map[]
      ensures SchemaValid(Snapshot())
    {
      users, connections, categories, items := map[], map[], map[], map[];
    }

    /** `SaveChangesAsync`: the pending changes, given as the state they would
        produce, are committed when that state satisfies every declared
        constraint; otherwise the database refuses them and nothing changes. */
    method SaveChanges(candidate: Tables) returns (saved: bool)
      modifies this
      ensures saved == SchemaValid(candidate)
      ensures saved ==> Snapshot() == candidate
      ensures !saved ==> Snapshot() == old(Snapshot())
    {
      saved := SchemaValid(candidate);
      if saved {
        users, connections, categories, items := candidate.users, candidate.connections, candidate.categories, candidate.items;
      }
    }
  }
}
