/** The data-transfer objects the services accept and return. Lists become
    sets: no query orders its rows, and every view carries its row's id. */
module Dto {
  import opened Common

  datatype CategoryDTO = CategoryDTO(id: Guid, name: string, parentId: Option<Guid>)

  /** The body of a create or update request for a category. */
  datatype CreateCategoryDTO = CreateCategoryDTO(name: string, parentId: Option<Guid>)

  datatype GetCategoriesResponseDTO = GetCategoriesResponseDTO(categories: set<CategoryDTO>, totalCount: nat)

  datatype ItemDTO = ItemDTO(id: Guid, name: string, count: Int32, authorId: Guid, categoryId: Guid)

  /** The body of a create or update request for an item. */
  datatype CreateItemDTO = CreateItemDTO(name: string, count: Int32, categoryId: Guid)

  datatype GetItemsResponseDTO = GetItemsResponseDTO(items: set<ItemDTO>, totalCount: nat)

  datatype UserDTO = UserDTO(id: Guid, name: string, avatarUrl: Option<string>)

  /** What a successful login returns: the session token and the user's view. */
  datatype AuthorizedUserDTO = AuthorizedUserDTO(token: string, user: UserDTO)
}
