# Inventory management: a verified model of the ownership-scoped store

This project models the core of `inventory-management` in Dafny. That is a
web application in which each user keeps a forest of categories, and items
(a name and a count) sit inside categories. It has two sides:

- a C# backend: the category and item services, the database schema they
  rely on, the GitHub login, and the mapping from errors to HTTP responses;
- a TypeScript frontend: the tree helpers that render categories and items,
  and the store that runs the OAuth `state` check.

The backend is modelled as follows:

- **The database** is the class `DataBase.DataBaseContext`. It has one map
  field per table: users, GitHub connections (keyed by login), categories and
  items. `Snapshot()` reads the whole database as a value of type
  `Models.Tables`.
- **A commit** is `SaveChanges(candidate)`. It takes the state the pending
  changes would produce and accepts it exactly when every constraint declared
  by the entity configurations holds (`Configurations.SchemaValid`).
  Otherwise nothing changes, and the service fails with an unclassified
  error (HTTP 500). PostgreSQL's silent truncation of trailing spaces past
  a length bound is not modelled (see "Left out").
- **The cascade.** Both the item foreign key and the parent foreign key of a
  category are `ON DELETE CASCADE`. Deleting a category therefore removes
  every category reachable downward through `ParentId`, and every item inside
  any of them. `Configurations.CascadeSet` computes that set as a fixpoint,
  which stays finite even when parent links form a cycle.
  `CascadeSetIsDescendants` proves the set is exactly the category and its
  descendants.
- **Queries** are functions over `Tables`:
  - `GetCategory`, `GetUserCategories`, `GetItem`, `GetUserItems`.
- **Operations that change the database** are methods that take the context
  and modify it:
  - `CreateCategory`, `RemoveCategory`, `UpdateCategory`,
  - `CreateItem`, `RemoveItem`, `UpdateItem`,
  - `LoginUserWithOauthCode`.

  Each method checks, in the source's order, that the entity exists
  (NotFound), that the caller owns it (AccessDenied), and that any category it
  refers to passes the same checks. Every method keeps `SchemaValid`, and
  keeps the ownership invariant `Ownership.OwnershipConsistent`: a category's
  parent, and an item's category, exist and have the same author. The schema
  does not enforce that invariant (`SchemaAllowsForeignCategory` exhibits a
  database the schema accepts that breaks it); only the service checks
  maintain it.
- **Fresh ids** are parameters, each with a `requires` that the id is unused.
  This stands in for the database generating a `Guid`.

On the frontend, `Tree` models the parent lookup, the node constructors and
the sibling comparator. `AuthStore.AuthState` is a class with the two stored
fields `oauthState` and `token`. `FormUrlEncoding` models the
`application/x-www-form-urlencoded` serializer of the WHATWG URL Standard
(section 5.2), which `URLSearchParams` uses. It comes with a parser, proved
to invert the serializer, so `AuthUrlCarriesParams` can state that the
authorization URL carries exactly `client_id`, `scope`, `redirect_uri` and
`state`. These are the request parameters of section 4.1.1 of RFC 6749, and
the state is what section 10.12 of RFC 6749 uses against cross-site request
forgery.

The error kinds are `Common.Error`:

- `NotFound`
- `AccessDenied`
- `InvalidInput` (`ProvidedDataIsInvalidError`)
- `Unhandled` (any other exception)

The messages are the source's exact strings, misspellings included.
Modelling choices:

- Ids are `nat`.
- An item's count is a 32-bit integer (`Common.Int32`).
- Lists become sets, since no query orders its results.
- Token issuance is an opaque function `issue: Guid -> string`.

Two consequences of the configuration and the services:

- **Cascade.** Deleting a category cascades to its items and, through
  `ParentId`, to its child categories
  (`CategoryConfiguration.cs:17-26`), so the model deletes the whole subtree.
- **Cycles.** `UpdateCategory` has no cycle check. A category may become its
  own parent or the child of one of its descendants.

## Model

| member | source | states |
|---|---|---|
| DataBase.DataBaseContext.constructor | src/InventoryManagement/InventoryManagement.Infrastructure/DataBase/DataBaseContext.cs:7-12 | a new context has four empty tables, which satisfy every schema constraint |
| DataBase.DataBaseContext.SaveChanges | src/InventoryManagement/InventoryManagement.Infrastructure/Services/CategoriesService.cs:67 | the commit succeeds exactly when the resulting state satisfies every declared constraint; on success the tables become that state, otherwise nothing changes |
| Configurations.PutCategorySchema | src/InventoryManagement/InventoryManagement.Infrastructure/DataBase/Configurations/CategoryConfiguration.cs:13-31 | writing a category whose parent exists is accepted iff its name has at most 64 characters and its author is an existing user |
| Configurations.PutItemSchema | src/InventoryManagement/InventoryManagement.Infrastructure/DataBase/Configurations/ItemConfiguration.cs:13-26 | writing an item whose category exists is accepted iff its name has at most 64 characters and its author is an existing user |
| Configurations.PutUserSchema | src/InventoryManagement/InventoryManagement.Infrastructure/DataBase/Configurations/UserConfiguration.cs:13-18 | inserting a user is accepted iff the name has at most 64 characters and the avatar URL, if any, at most 256 |
| Configurations.PutConnectionSchema | src/InventoryManagement/InventoryManagement.Infrastructure/DataBase/Configurations/GitHubThirdPartyConnectionConfiguration.cs:11-15 | inserting a connection under its login key is accepted iff it links to an existing user |
| Configurations.CascadeSet | src/InventoryManagement/InventoryManagement.Infrastructure/DataBase/Configurations/CategoryConfiguration.cs:23-26 | the cascade contains the deleted set, adds only existing categories, and leaves no surviving category whose parent was deleted |
| Configurations.CascadeSetLeast | src/InventoryManagement/InventoryManagement.Infrastructure/DataBase/Configurations/CategoryConfiguration.cs:23-26 | the cascade is the least such set: it lies inside every superset of the deleted set that no surviving child points into |
| Configurations.ChainInCascade | src/InventoryManagement/InventoryManagement.Infrastructure/DataBase/Configurations/CategoryConfiguration.cs:23-26 | the start of any upward ParentId chain that ends at the deleted category is in the cascade |
| Configurations.CascadeSetIsDescendants | src/InventoryManagement/InventoryManagement.Infrastructure/DataBase/Configurations/CategoryConfiguration.cs:23-26 | a category is removed iff it is the deleted category or reaches it through ParentId links (cycles included) |
| Configurations.DeleteCategoryCascade | src/InventoryManagement/InventoryManagement.Infrastructure/DataBase/Configurations/CategoryConfiguration.cs:17-26 | the deleted category is gone, users and connections are untouched, surviving rows are unchanged, and no surviving item sits in a removed category |
| Configurations.DeleteCategoryCascadeKeepsSchema | src/InventoryManagement/InventoryManagement.Infrastructure/DataBase/Configurations/CategoryConfiguration.cs:17-26 | a cascading deletion never leaves a dangling parent or category reference, so the commit always succeeds |
| Configurations.DeleteCategoryCascadeRemovesSubtree | src/InventoryManagement/InventoryManagement.Infrastructure/DataBase/Configurations/ItemConfiguration.cs:17-21 | a category survives iff it does not reach the deleted one; an item survives iff its category does not reach it |
| Ownership.SchemaAllowsForeignCategory | src/InventoryManagement/InventoryManagement.Infrastructure/DataBase/Configurations/ItemConfiguration.cs:17-26 | some database satisfies every schema constraint yet has an item in another user's category |
| Ownership.PutCategoryKeepsOwnership | src/InventoryManagement/InventoryManagement.Infrastructure/Services/CategoriesService.cs:97-100 | writing a category whose parent is the author's own (even the category itself) keeps the ownership invariant |
| Ownership.PutItemKeepsOwnership | src/InventoryManagement/InventoryManagement.Infrastructure/Services/ItemsService.cs:112-116 | writing an item into one of its author's categories keeps the ownership invariant |
| Ownership.DeleteItemKeepsOwnership | src/InventoryManagement/InventoryManagement.Infrastructure/Services/ItemsService.cs:101 | removing an item keeps the ownership invariant |
| Ownership.DeleteCategoryCascadeKeepsOwnership | src/InventoryManagement/InventoryManagement.Infrastructure/Services/CategoriesService.cs:85-86 | a cascading category deletion keeps the ownership invariant |
| CategoriesService.GetCategory | src/InventoryManagement/InventoryManagement.Infrastructure/Services/CategoriesService.cs:12-27 | an absent id fails NotFound, never AccessDenied; a foreign category fails AccessDenied; otherwise success iff the caller owns it, with id, name and parent as stored |
| CategoriesService.GetUserCategories | src/InventoryManagement/InventoryManagement.Infrastructure/Services/CategoriesService.cs:29-54 | a given parent that fails GetCategory fails the call with that error; success iff the parent check passes; the listing is exactly the caller's categories with that parent (roots for none); totalCount is the number of the caller's items |
| CategoriesService.CreateCategory | src/InventoryManagement/InventoryManagement.Infrastructure/Services/CategoriesService.cs:56-75 | a refused parent propagates GetCategory's error and changes nothing; otherwise success iff the name fits and the caller is a user; on success exactly one category with the given name and parent, authored by the caller, is added under the fresh id, and GetCategory returns the same view; both invariants are kept |
| CategoriesService.RemoveCategory | src/InventoryManagement/InventoryManagement.Infrastructure/Services/CategoriesService.cs:77-87 | NotFound or AccessDenied with nothing changed; otherwise the database becomes the cascading deletion of the category, and a later GetCategory fails NotFound; both invariants are kept |
| CategoriesService.UpdateCategory | src/InventoryManagement/InventoryManagement.Infrastructure/Services/CategoriesService.cs:89-103 | checks run in order (existence, ownership, new parent through GetCategory) and any failure changes nothing; on success only name and parent of that category change; both invariants are kept |
| ItemsService.GetItem | src/InventoryManagement/InventoryManagement.Infrastructure/Services/ItemsService.cs:12-28 | an absent id fails NotFound; a foreign item fails AccessDenied; success iff the caller owns it, with every field as stored |
| ItemsService.GetUserItems | src/InventoryManagement/InventoryManagement.Infrastructure/Services/ItemsService.cs:30-65 | without a filter, exactly the caller's items; with a category, GetCategory's error is propagated, else exactly the caller's items in it; totalCount is the number of the caller's items |
| ItemsService.TotalCountIgnoresFilters | src/InventoryManagement/InventoryManagement.Infrastructure/Services/ItemsService.cs:49-51 | both listings report the same totalCount whatever their filters, and it equals the size of the unfiltered item listing |
| ItemsService.IdsCountViews | src/InventoryManagement/InventoryManagement.Infrastructure/Services/ItemsService.cs:55-62 | distinct item ids give distinct views, so a set of ids and its views have the same size |
| ItemsService.CreateItem | src/InventoryManagement/InventoryManagement.Infrastructure/Services/ItemsService.cs:67-92 | a missing category fails NotFound with this service's message and a foreign one AccessDenied, changing nothing; otherwise success iff the name fits and the caller is a user; on success exactly one item with the given fields, authored by the caller, is added under the fresh id, and GetItem returns the same view |
| ItemsService.RemoveItem | src/InventoryManagement/InventoryManagement.Infrastructure/Services/ItemsService.cs:94-103 | NotFound or AccessDenied with nothing changed; otherwise exactly that item is removed and a later GetItem fails NotFound |
| ItemsService.UpdateItem | src/InventoryManagement/InventoryManagement.Infrastructure/Services/ItemsService.cs:105-119 | checks run in order (existence, ownership, category through GetCategory) and any failure changes nothing; on success name, count and category are replaced, and id and author kept |
| GitHubAuthService.LoginUserWithOauthCode | src/InventoryManagement/InventoryManagement.Infrastructure/Services/GitHubAuthService.cs:21-71 | a code exchange or profile fetch that throws fails Unhandled and a missing access token fails InvalidInput, each with nothing changed; a known login reuses its user and inserts nothing; a new login inserts one user (GitHub name, no avatar) and one connection; on success the login's connection exists and the token is issued for the returned user, whose view is that user's row |
| GitHubAuthService.LoginTwiceIsIdempotent | src/InventoryManagement/InventoryManagement.Infrastructure/Services/GitHubAuthService.cs:37-58 | after a successful login, a second login with the same GitHub login returns the same user, with a token issued for that user by the second call's issuer, and inserts no user |
| ExceptionToProblemDetailsHandler.TryHandle | src/InventoryManagement/InventoryManagement.API/Middlewares/ExceptionToProblemDetailsHandler.cs:11-58 | each error kind gets its response code and body status (400/403, 403/403, 404/404, 500/500); domain errors carry their message as title, others a fixed title and are logged; the result is always handled |
| ExceptionToProblemDetailsHandler.StatusCodeDeterminesKind | src/InventoryManagement/InventoryManagement.API/Middlewares/ExceptionToProblemDetailsHandler.cs:18-53 | two errors get the same response code iff they are of the same kind, and the code is a 4xx iff the error is a domain error |
| ExceptionToProblemDetailsHandler.BodyStatusMismatch | src/InventoryManagement/InventoryManagement.API/Middlewares/ExceptionToProblemDetailsHandler.cs:18-24 | the body status differs from the response code iff the error is InvalidInput |
| ExceptionToProblemDetailsHandler.InvalidCodeBodySays403 | src/InventoryManagement/InventoryManagement.API/Middlewares/ExceptionToProblemDetailsHandler.cs:18-24 | a rejected OAuth code answers 400 with a body saying 403; the corrected handler says 400 |
| ExceptionToProblemDetailsHandler.TryHandleIntended | src/InventoryManagement/InventoryManagement.API/Middlewares/ExceptionToProblemDetailsHandler.cs:18-24 | the corrected handler's body status always equals its response code, with code, title and logging as before |
| Tree.FindParent | src/inventory-management-frontend/src/utils/tree.ts:5-15 | the root that is the target gets null; a node found is inside the subtree, has a direct child with the target's key, and comes depth-first from the first child that is the target (the root answers) or holds an answer; null otherwise means no child is the target or holds one |
| Tree.FindParentFrom | src/inventory-management-frontend/src/utils/tree.ts:8-12 | the loop over children from a position returns the answer of the first child, in order, that is the target (the root) or whose own search succeeds, every earlier child being neither; null iff no remaining child is either |
| Tree.FindParentNoneIff | src/inventory-management-frontend/src/utils/tree.ts:5-15 | the search of one root finds nothing iff the root is the target or the target's key occurs nowhere below it |
| Tree.FindParentFromNoneIff | src/inventory-management-frontend/src/utils/tree.ts:8-14 | the loop from a position finds nothing iff the target's key occurs nowhere in those children's subtrees |
| Tree.ParentAmongRoots | src/inventory-management-frontend/src/utils/tree.ts:17-22 | the loop over roots finds nothing iff every root's search does; otherwise it returns the first root's result that is not null |
| Tree.GetParentNodeForNode | src/inventory-management-frontend/src/utils/tree.ts:4-23 | a result is inside one of the roots and has the target as a direct child, and it comes from the first root whose search succeeds |
| Tree.GetParentNoneIff | src/inventory-management-frontend/src/utils/tree.ts:4-23 | null is returned iff every root is the target or has nothing with the target's key below it |
| Tree.TopLevelHasNoParent | src/inventory-management-frontend/src/utils/tree.ts:6 | a top-level target whose key occurs below no root gets null |
| Tree.AbsentHasNoParent | src/inventory-management-frontend/src/utils/tree.ts:22 | a target absent from the forest gets null |
| Tree.NestedHasParent | src/inventory-management-frontend/src/utils/tree.ts:9 | a target below a root other than itself always gets a parent |
| Tree.ItemDtoToTreeNode | src/inventory-management-frontend/src/utils/tree.ts:25-34 | the node has key "item_" + id, the name as label, type "item", the file icon, no children and the item as data |
| Tree.CategoryDtoToTreeNode | src/inventory-management-frontend/src/utils/tree.ts:36-46 | the node has key "category_" + id, the name as label, type "category", leaf false, the folder icon, no children and the category as data |
| Tree.ItemNodeKeysDistinct | src/inventory-management-frontend/src/utils/tree.ts:27-38 | two item nodes (or two category nodes) share a key iff their ids are equal, and an item node never shares a key with a category node |
| Tree.LexLessStrictTotal | src/inventory-management-frontend/src/utils/tree.ts:58 | the string order used for labels is irreflexive, asymmetric and total on distinct strings |
| Tree.CustomSortingForTreeNodes | src/inventory-management-frontend/src/utils/tree.ts:48-60 | a category sorts before an item (-1) and an item after a category (1); every result is -1, 0 or 1 |
| Tree.ComparatorByLabel | src/inventory-management-frontend/src/utils/tree.ts:53-59 | outside the category/item case: 0 when a label is missing or empty, -1 iff the first label is smaller, and opposite answers for different labels |
| Tree.EqualLabelsSortAfterEachOther | src/inventory-management-frontend/src/utils/tree.ts:58 | any two nodes compared by label with the same non-empty label (a node and itself included) each compare as 1 against the other |
| Tree.CustomSortingIntended | src/inventory-management-frontend/src/utils/tree.ts:58 | the corrected comparator gives 0 for equal non-empty labels and agrees with the original everywhere else |
| Tree.IntendedComparatorAntisymmetric | src/inventory-management-frontend/src/utils/tree.ts:48-60 | the corrected comparator is antisymmetric on every pair of nodes |
| FormUrlEncoding.Utf8DecodeEncode | src/inventory-management-frontend/src/stores/auth.ts:43-48 | decoding the UTF-8 bytes of a string gives the string back |
| FormUrlEncoding.PercentDecodeEncode | src/inventory-management-frontend/src/stores/auth.ts:43-48 | percent-decoding an encoded name or value gives its UTF-8 bytes |
| FormUrlEncoding.FormDecodeEncode | src/inventory-management-frontend/src/stores/auth.ts:43-48 | decoding an encoded name or value gives it back unchanged |
| FormUrlEncoding.FormEncodeAlphabet | src/inventory-management-frontend/src/stores/auth.ts:43-48 | an encoded name or value holds only unreserved characters, "%" and "+", so never a pair delimiter |
| FormUrlEncoding.SplitJoin | src/inventory-management-frontend/src/stores/auth.ts:50 | splitting at a separator undoes joining pieces that do not contain it |
| FormUrlEncoding.ParseSerialize | src/inventory-management-frontend/src/stores/auth.ts:43-50 | parsing the string form of the parameters gives back exactly the pairs, in order |
| AuthStore.InvalidStateMessage | src/inventory-management-frontend/src/stores/auth.ts:27 | the rejection message is the fixed prefix, the passed state, ", expected: ", the expected state (null when missing) and ")", each at its position |
| AuthStore.QueryOfAppend | src/inventory-management-frontend/src/stores/auth.ts:50 | the query of base + "?" + q is q when the base has no "?" |
| AuthStore.AuthUrlCarriesParams | src/inventory-management-frontend/src/stores/auth.ts:43-50 | the authorization URL's query parses to exactly client_id, scope, redirect_uri and state, in that order, with their values |
| AuthStore.AuthUrlState | src/inventory-management-frontend/src/stores/auth.ts:43-50 | the state parameter read back from the authorization URL is the state it was built with |
| AuthStore.AuthState.constructor | src/inventory-management-frontend/src/stores/auth.ts:16-17 | the store starts with the state and token restored from browser storage |
| AuthStore.AuthState.IsAuthorized | src/inventory-management-frontend/src/stores/auth.ts:18 | authorized iff a token is stored |
| AuthStore.AuthState.Deauthorize | src/inventory-management-frontend/src/stores/auth.ts:20-23 | both the state and the token are cleared, so the store is no longer authorized |
| AuthStore.AuthState.AuthorizeWithGitHubAuthCode | src/inventory-management-frontend/src/stores/auth.ts:25-36 | a missing or different stored state throws before the backend call, whatever it would answer, and changes nothing; a failed backend call changes nothing; success clears the state, stores the token and returns the user |
| AuthStore.AuthState.GenerateAuthUrl | src/inventory-management-frontend/src/stores/auth.ts:38-51 | a stored state is kept and a new one stored only when none is; the token is untouched; the URL is the authorization URL for the stored state |
| AuthStore.RepeatedAuthUrlsShareState | src/inventory-management-frontend/src/stores/auth.ts:39-41 | two URLs generated in a row are equal, because the second reuses the first one's state |
| AuthStore.LoginRoundTrip | src/inventory-management-frontend/src/stores/auth.ts:25-50 | a redirect with a state other than the generated one is refused, and the state read back from the generated URL is accepted, giving the backend's answer |

## Left out

- The GitHub code exchange and profile fetch (Octokit network calls) are parameters of `LoginUserWithOauthCode`. Either one throwing becomes `Unhandled`, whose messages `ExchangeFailedMessage` and `ProfileFetchFailedMessage` are placeholders: the handler replaces every unhandled message with its fixed title anyway.
- The database commit checks the constraints the Entity Framework configuration declares (keys, maximum lengths, required foreign keys) and PostgreSQL enforces in the generated schema during `SaveChangesAsync`. Entity Framework itself validates none of them. In the model, a commit whose state breaks one is refused with `Unhandled(DbUpdateFailedMessage)`. PostgreSQL differs on one edge of the length bounds, described in the next line. The exception's real text is not modelled, since the client only sees the fixed 500 title.
- PostgreSQL refuses text containing the character U+0000. A category or item name holding it fails the source's commit with an unhandled error (500), while the model's `CreateCategory`, `CreateItem`, `UpdateCategory` and `UpdateItem` accept it. Other server-side refusals (encoding, connection loss) are not modelled either.
- PostgreSQL truncates instead of refusing an over-long `character varying(n)` value whose characters past the n-th are all spaces, as the SQL standard requires. For a name of more than 64 characters that ends in such spaces, the source's commit succeeds and stores the first 64 characters. The model's `CreateCategory`, `UpdateCategory`, `CreateItem`, `UpdateItem` and `LoginUserWithOauthCode` (for a space-padded GitHub name) refuse the commit instead, and so do `PutCategorySchema`, `PutItemSchema` and `PutUserSchema`. In the source, `CreateCategory` and `CreateItem` then return the untruncated name, while a later `GetCategory` or `GetItem` returns the truncated one.
- GitHubAuthService.LoginUserWithOauthCode: the user row and the connection are committed by two separate `SaveChangesAsync` calls. The model performs both commits, but does not model a failure between them, in which the user would be stored without its connection.
- GitHubAuthService.LoginUserWithOauthCode: a GitHub user without a name is refused before the commit, with the same unhandled outcome. The source attempts the commit and the database refuses the missing required name.
- Token issuance (JWT signing with HMAC-SHA256, expiry and issue time from the clock) is the opaque function `issue`, a parameter of each login. Two logins may be given different issuers, since the same user gets a different token at a different time.
- Asynchrony, cancellation tokens and concurrent requests are not modelled. Each service call is one atomic step.
- Writing the JSON problem body and the logging call are not modelled. `TryHandle` records what is written and whether it is logged.
- HTTP controllers, routing, dependency injection and claim parsing are not part of this model.
- The order of listed rows is not modelled. The queries use no ordering, so the results are sets.
- `Guid` values are natural numbers, and a fresh id is a parameter rather than generated.
- The random state generator, the build-time GitHub settings and the backend login call are parameters of the auth store. The backend call's own error message is passed through unchanged.
- Browser storage persistence is not modelled. The constructor takes the values restored from storage.
- Tree.FindParent: node identity (`===`) is modelled as key equality. With reference identity, two distinct nodes with the same key would be told apart. `ItemNodeKeysDistinct` shows that the constructors give distinct rows distinct keys.
- Tree.CustomSortingForTreeNodes: JavaScript compares strings by UTF-16 code units; the model compares by code points. The two orders differ only between characters above U+FFFF and characters in U+E000..U+FFFF.
- The `children` of a tree node is always a sequence. A missing `children` field is the empty sequence, as `root.children || []` reads it.
- FormUrlEncoding.FormDecode: this decoder only inverts the serializer. It rejects input the WHATWG parser would accept, such as a raw non-ASCII character or a stray `%`.
- GitHub's authorization request is built without `response_type`. That parameter is required by section 4.1.1 of RFC 6749, but GitHub does not use it; the model builds the URL as the source does.

## Findings

| source | as written | input that shows it | evidently intended | confidence | as-written member | corrected member |
|---|---|---|---|---|---|---|
| src/InventoryManagement/InventoryManagement.API/Middlewares/ExceptionToProblemDetailsHandler.cs:18-24 | a `ProvidedDataIsInvalidError` sets response status 400 but writes `Status = 403` (Forbidden) into the problem body | `InvalidInput("Code is incorrect.")`, a rejected OAuth code | the body's status repeats the response code, 400, as for every other error kind | high, not executed | ExceptionToProblemDetailsHandler.InvalidCodeBodySays403 | ExceptionToProblemDetailsHandler.TryHandleIntended |
| src/inventory-management-frontend/src/utils/tree.ts:58 | `node1.label < node2.label ? -1 : 1` answers 1 for equal labels, so each of two equally named siblings sorts after the other | any two nodes of one kind with the same non-empty label, e.g. two categories both labelled "Tools" | equal labels compare as 0, making the comparator antisymmetric | medium, not executed | Tree.EqualLabelsSortAfterEachOther | Tree.CustomSortingIntended |
