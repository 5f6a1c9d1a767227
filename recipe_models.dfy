/** The records the recipe service stores and the requests it accepts. */
module RecipeModels {
  import opened Wrappers

  /** One stored recipe; `attachmentUrl` is optional. */
  datatype RecipeItem = RecipeItem(
    userId: string,
    recipeId: string,
    createdAt: string,
    name: string,
    description: string,
    favorite: bool,
    attachmentUrl: Option<string>)

  /** The fields a client may change: both the update request and the store's update payload. */
  datatype RecipeUpdate = RecipeUpdate(name: string, description: string, favorite: bool)

  /** The body of a create request. */
  datatype CreateRecipeRequest = CreateRecipeRequest(name: string, description: string)
}
