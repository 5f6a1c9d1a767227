/**
 * The recipe service: the operations the HTTP handlers call, over the one access
 * object the module shares between them. The generated recipe id and the creation
 * time are parameters.
 */
module Recipes {
  import opened Wrappers
  import opened JsStrings
  import opened RecipeModels
  import opened RecipesAccessLayer

  /** The service's one domain error: "Recipe item does not exist". */
  datatype ServiceError = RecipeNotFound

  /** The record `createRecipe` builds: owned by the caller, under the new id, not a favourite, no attachment yet. */
  function NewRecipe(request: CreateRecipeRequest, userId: string, recipeId: string, createdAt: string): (r: RecipeItem)
    ensures KeyOf(r) == RecipeKey(userId, recipeId)
    ensures r.createdAt == createdAt && r.name == request.name && r.description == request.description
    ensures !r.favorite && r.attachmentUrl == Some("")
  {
    RecipeItem(userId, recipeId, createdAt, request.name, request.description, false, Some(""))
  }

  const UrlScheme: string := "https://"
  const S3Host: string := ".s3.amazonaws.com/"

  /** The URL `updateImageUrl` stores: the object named after the recipe in the attachment bucket. */
  function AttachmentUrl(bucketName: string, recipeId: string): (r: string)
    ensures StartsWith(r, "https://")
    ensures EndsWith(r, "/" + recipeId)
  {
    UrlScheme + bucketName + S3Host + recipeId
  }

  /** Reads the recipe id back out of an attachment URL of the given bucket. */
  function RecipeIdOfUrl(bucketName: string, url: string): Option<string>
  {
    var prefix := UrlScheme + bucketName + S3Host;
    if StartsWith(url, prefix) then Some(url[|prefix|..]) else None
  }

  /** The URL names its bucket and recipe: the recipe id can be read back from it. */
  lemma AttachmentUrlRoundTrip(bucketName: string, recipeId: string)
    ensures RecipeIdOfUrl(bucketName, AttachmentUrl(bucketName, recipeId)) == Some(recipeId)
  {
    var prefix := UrlScheme + bucketName + S3Host;
    assert AttachmentUrl(bucketName, recipeId) == prefix + recipeId;
  }

  /** So two recipes of one bucket never share an attachment URL. */
  lemma AttachmentUrlInjective(bucketName: string, r1: string, r2: string)
    requires AttachmentUrl(bucketName, r1) == AttachmentUrl(bucketName, r2)
    ensures r1 == r2
  {
    AttachmentUrlRoundTrip(bucketName, r1);
    AttachmentUrlRoundTrip(bucketName, r2);
  }

  /** `getRecipes(userId)`: exactly the records the access layer returns for the user. */
  method GetRecipes(access: RecipesAccess, userId: string) returns (items: seq<RecipeItem>)
    requires access.Valid()
    ensures forall x :: x in items <==> x in RecipesOf(access.table, userId)
    ensures forall i, j :: 0 <= i < j < |items| ==> items[i] != items[j]
  {
    items := access.GetRecipes(userId);
  }

  /**
   * `createRecipe(request, userId)`: stores a new record owned by `userId` under the
   * generated id and time, not a favourite and with an empty attachment URL.
   */
  method CreateRecipe(access: RecipesAccess, request: CreateRecipeRequest, userId: string,
                      recipeId: string, createdAt: string)
    returns (item: RecipeItem)
    requires access.Valid()
    modifies access
    ensures access.Valid()
    ensures item.userId == userId && item.recipeId == recipeId && item.createdAt == createdAt
    ensures item.name == request.name && item.description == request.description
    ensures !item.favorite && item.attachmentUrl == Some("")
    ensures access.table == Put(old(access.table), item)
  {
    item := access.CreateRecipe(NewRecipe(request, userId, recipeId, createdAt));
  }

  /** Creating under a fresh id adds exactly the new record to the owner's list. */
  lemma CreateThenList(t: Table, request: CreateRecipeRequest, userId: string, recipeId: string, createdAt: string)
    requires WellKeyed(t) && RecipeKey(userId, recipeId) !in t
    ensures RecipesOf(Put(t, NewRecipe(request, userId, recipeId, createdAt)), userId) ==
              RecipesOf(t, userId) + {NewRecipe(request, userId, recipeId, createdAt)}
  {
    PutFreshAddsOne(t, NewRecipe(request, userId, recipeId, createdAt));
  }

  /**
   * `updateRecipe(userId, recipeId, request)`: fails, changing nothing, unless a record
   * exists under exactly (userId, recipeId); otherwise copies the three mutable fields.
   */
  method UpdateRecipe(access: RecipesAccess, userId: string, recipeId: string, request: RecipeUpdate)
    returns (outcome: Outcome<ServiceError>)
    requires access.Valid()
    modifies access
    ensures access.Valid()
    ensures outcome == (if RecipeKey(userId, recipeId) in old(access.table) then Pass else Fail(RecipeNotFound))
    ensures outcome.Fail? ==> access.table == old(access.table)
    ensures outcome.Pass? ==> access.table == PatchRecipe(old(access.table), RecipeKey(userId, recipeId), request)
  {
    var found := access.IsRecipeExists(userId, recipeId);
    if !found {
      return Fail(RecipeNotFound);
    }
    var recipeUpdate := RecipeUpdate(request.name, request.description, request.favorite);
    access.UpdateRecipe(userId, recipeId, recipeUpdate);
    outcome := Pass;
  }

  /**
   * `deleteRecipe(userId, recipeId)`: fails, changing nothing, unless a record exists
   * under exactly (userId, recipeId); otherwise that record is gone.
   */
  method DeleteRecipe(access: RecipesAccess, userId: string, recipeId: string)
    returns (outcome: Outcome<ServiceError>)
    requires access.Valid()
    modifies access
    ensures access.Valid()
    ensures outcome == (if RecipeKey(userId, recipeId) in old(access.table) then Pass else Fail(RecipeNotFound))
    ensures outcome.Fail? ==> access.table == old(access.table)
    ensures outcome.Pass? ==> access.table == Remove(old(access.table), RecipeKey(userId, recipeId))
  {
    var found := access.IsRecipeExists(userId, recipeId);
    if !found {
      return Fail(RecipeNotFound);
    }
    access.DeleteRecipe(userId, recipeId);
    outcome := Pass;
  }

  /**
   * `updateImageUrl(userId, recipeId, bucketName)`: writes the bucket URL of the
   * recipe into its attachment field, with no existence check first.
   */
  method UpdateImageUrl(access: RecipesAccess, userId: string, recipeId: string, bucketName: string)
    requires access.Valid()
    modifies access
    ensures access.Valid()
    ensures access.table == PatchAttachment(old(access.table), RecipeKey(userId, recipeId), AttachmentUrl(bucketName, recipeId))
  {
    var url := AttachmentUrl(bucketName, recipeId);
    access.UpdateAttachmentUrl(userId, recipeId, url);
  }

  /**
   * The existence check is by owner and id together: with a record for `recipeId`
   * under another user only, update and delete both fail and change nothing.
   */
  method OtherOwnerCannotMutate(access: RecipesAccess, owner: string, intruder: string, recipeId: string,
                                request: RecipeUpdate)
    returns (updated: Outcome<ServiceError>, deleted: Outcome<ServiceError>)
    requires access.Valid()
    requires RecipeKey(owner, recipeId) in access.table && RecipeKey(intruder, recipeId) !in access.table
    modifies access
    ensures updated == Fail(RecipeNotFound) && deleted == Fail(RecipeNotFound)
    ensures access.table == old(access.table)
  {
    updated := UpdateRecipe(access, intruder, recipeId, request);
    deleted := DeleteRecipe(access, intruder, recipeId);
  }

  /**
   * An end-to-end run: create, update by the owner, delete by another user (refused),
   * delete by the owner, list.
   */
  method CreateUpdateDeleteScenario(access: RecipesAccess, recipeId: string, createdAt: string)
    returns (created: RecipeItem, listed: seq<RecipeItem>)
    requires access.Valid()
    requires RecipesOf(access.table, "u1") == {} && RecipeKey("u2", recipeId) !in access.table
    modifies access
    ensures !created.favorite && created.recipeId == recipeId && created.createdAt == createdAt
    ensures forall x :: x !in listed
  {
    created := CreateRecipe(access, CreateRecipeRequest("Soup", "hot"), "u1", recipeId, createdAt);
    var key := RecipeKey("u1", recipeId);
    var updated := UpdateRecipe(access, "u1", recipeId, RecipeUpdate("Soup", "hot", true));
    assert updated == Pass;
    assert access.table[key].favorite;
    assert access.table[key].recipeId == recipeId && access.table[key].createdAt == createdAt;
    var wrongOwner := DeleteRecipe(access, "u2", recipeId);
    assert wrongOwner == Fail(RecipeNotFound);
    var deleted := DeleteRecipe(access, "u1", recipeId);
    assert deleted == Pass;
    assert RecipesOf(access.table, "u1") == {} by {
      forall x | x in RecipesOf(access.table, "u1") ensures false {
        RecipesOfByKey(access.table, "u1", x);
        RecipesOfByKey(old(access.table), "u1", x);
      }
    }
    listed := GetRecipes(access, "u1");
  }
}
