/**
 * The access layer over the recipe table. The table is keyed by the pair
 * (userId, recipeId) and every operation names both halves of the key, so an
 * operation on one user's recipe can never read or change another user's.
 */
module RecipesAccessLayer {
  import opened Wrappers
  import opened RecipeModels

  /** The table's primary key. */
  datatype RecipeKey = RecipeKey(userId: string, recipeId: string)

  type Table = map<RecipeKey, RecipeItem>

  function KeyOf(item: RecipeItem): RecipeKey
  {
    RecipeKey(item.userId, item.recipeId)
  }

  /** Every record sits under the key its own fields name. */
  ghost predicate WellKeyed(t: Table)
  {
    forall k :: k in t ==> KeyOf(t[k]) == k
  }

  /** The records owned by user `u`: what a query on the owner index returns. */
  function RecipesOf(t: Table, u: string): set<RecipeItem>
  {
    set x | x in t.Values && x.userId == u
  }

  /** Two tables that agree on every key except possibly `k`. */
  ghost predicate SameOutside(t: Table, t': Table, k: RecipeKey)
  {
    forall k' :: k' != k ==> (k' in t <==> k' in t') && (k' in t ==> t[k'] == t'[k'])
  }

  /** In a well-keyed table a record is owned by `u` exactly when it sits under its own key. */
  lemma RecipesOfByKey(t: Table, u: string, x: RecipeItem)
    requires WellKeyed(t)
    ensures x in RecipesOf(t, u) <==> KeyOf(x) in t && t[KeyOf(x)] == x && x.userId == u
  {
    if x in RecipesOf(t, u) {
      var k :| k in t && t[k] == x;
    }
  }

  /** `put`: stores `item` under its own key, replacing whatever was there. */
  function Put(t: Table, item: RecipeItem): (r: Table)
    ensures KeyOf(item) in r && r[KeyOf(item)] == item
    ensures SameOutside(t, r, KeyOf(item))
    ensures WellKeyed(t) ==> WellKeyed(r)
  {
    t[KeyOf(item) := item]
  }

  /**
   * `update` of `name`, `description` and `favorite` at key `k`. The store is assumed
   * to patch a record only if it is present: a missing key leaves the table as it is.
   */
  function PatchRecipe(t: Table, k: RecipeKey, upd: RecipeUpdate): (r: Table)
    ensures r.Keys == t.Keys
    ensures SameOutside(t, r, k)
    ensures k in t ==> && r[k].name == upd.name
                       && r[k].description == upd.description
                       && r[k].favorite == upd.favorite
                       && r[k].(name := t[k].name, description := t[k].description, favorite := t[k].favorite) == t[k]
    ensures k !in t ==> r == t
    ensures WellKeyed(t) ==> WellKeyed(r)
  {
    if k in t then t[k := t[k].(name := upd.name, description := upd.description, favorite := upd.favorite)]
    else t
  }

  /** `update` of `attachmentUrl` alone at key `k`, under the same assumption about missing keys. */
  function PatchAttachment(t: Table, k: RecipeKey, url: string): (r: Table)
    ensures r.Keys == t.Keys
    ensures SameOutside(t, r, k)
    ensures k in t ==> r[k].attachmentUrl == Some(url) && r[k].(attachmentUrl := t[k].attachmentUrl) == t[k]
    ensures k !in t ==> r == t
    ensures WellKeyed(t) ==> WellKeyed(r)
  {
    if k in t then t[k := t[k].(attachmentUrl := Some(url))] else t
  }

  /** `delete` at key `k`; deleting a missing key changes nothing. */
  function Remove(t: Table, k: RecipeKey): (r: Table)
    ensures k !in r
    ensures SameOutside(t, r, k)
    ensures k !in t ==> r == t
    ensures WellKeyed(t) ==> WellKeyed(r)
  {
    t - {k}
  }

  /** A change confined to one key leaves every other user's recipes exactly as they were. */
  lemma OtherOwnersUnchanged(t: Table, t': Table, k: RecipeKey, v: string)
    requires WellKeyed(t) && WellKeyed(t')
    requires SameOutside(t, t', k) && v != k.userId
    ensures RecipesOf(t', v) == RecipesOf(t, v)
  {
    forall x ensures x in RecipesOf(t', v) <==> x in RecipesOf(t, v) {
      RecipesOfByKey(t, v, x);
      RecipesOfByKey(t', v, x);
    }
  }

  /** Putting a record under a fresh key adds it to its owner's recipes and loses none. */
  lemma PutFreshAddsOne(t: Table, item: RecipeItem)
    requires WellKeyed(t) && KeyOf(item) !in t
    ensures RecipesOf(Put(t, item), item.userId) == RecipesOf(t, item.userId) + {item}
  {
    var t' := Put(t, item);
    forall x ensures x in RecipesOf(t', item.userId) <==> x in RecipesOf(t, item.userId) + {item} {
      RecipesOfByKey(t, item.userId, x);
      RecipesOfByKey(t', item.userId, x);
    }
  }

  /** Setting the attachment URL twice is the same as setting it once. */
  lemma PatchAttachmentIdempotent(t: Table, k: RecipeKey, url: string)
    ensures PatchAttachment(PatchAttachment(t, k, url), k, url) == PatchAttachment(t, k, url)
  {
    var once := PatchAttachment(t, k, url);
    if k in t {
      assert once[k].(attachmentUrl := Some(url)) == once[k];
    }
  }

  /** Applying the same update twice is the same as applying it once. */
  lemma PatchRecipeIdempotent(t: Table, k: RecipeKey, upd: RecipeUpdate)
    ensures PatchRecipe(PatchRecipe(t, k, upd), k, upd) == PatchRecipe(t, k, upd)
  {
    var once := PatchRecipe(t, k, upd);
    if k in t {
      assert once[k].(name := upd.name, description := upd.description, favorite := upd.favorite) == once[k];
    }
  }

  /**
   * `RecipesAccess`: the document client over the recipe table. Each method is one
   * request to the store and changes at most the record under the key it names.
   */
  class RecipesAccess {
    var table: Table

    ghost predicate Valid()
      reads this
    {
      WellKeyed(table)
    }

    /** An access object over the table as it stands, holding whatever earlier requests stored. */
    constructor (t0: Table)
      requires WellKeyed(t0)
      ensures Valid() && table == t0
    {
      table := t0;
    }

    /**
     * `getRecipes(userId)`: a query on the owner index. The result holds each record
     * of `userId` exactly once, in no particular order, and the table is not changed.
     */
    method GetRecipes(userId: string) returns (items: seq<RecipeItem>)
      requires Valid()
      ensures forall x :: x in items <==> x in RecipesOf(table, userId)
      ensures forall i, j :: 0 <= i < j < |items| ==> items[i] != items[j]
    {
      items := [];
      var pending := table.Keys;
      ghost var scanned: set<RecipeKey> := {};
      while pending != {}
        invariant pending !! scanned && pending + scanned == table.Keys
        invariant forall x :: x in items <==> KeyOf(x) in scanned && table[KeyOf(x)] == x && x.userId == userId
        invariant forall i, j :: 0 <= i < j < |items| ==> items[i] != items[j]
        decreases pending
      {
        var k :| k in pending;
        var item := table[k];
        if item.userId == userId {
          items := items + [item];
        }
        pending := pending - {k};
        scanned := scanned + {k};
      }
      forall x ensures x in items <==> x in RecipesOf(table, userId) {
        RecipesOfByKey(table, userId, x);
      }
    }

    /** `createRecipe(item)`: a put of the whole record; returns the record it stored. */
    method CreateRecipe(item: RecipeItem) returns (stored: RecipeItem)
      requires Valid()
      modifies this
      ensures Valid()
      ensures stored == item
      ensures table == Put(old(table), item)
    {
      table := Put(table, item);
      stored := item;
    }

    /** `isRecipeExists(userId, recipeId)`: a get by the full key. */
    method IsRecipeExists(userId: string, recipeId: string) returns (found: bool)
      ensures found <==> RecipeKey(userId, recipeId) in table
    {
      found := RecipeKey(userId, recipeId) in table;
    }

    /** `updateRecipe(userId, recipeId, recipeUpdate)`: sets name, description and favorite. */
    method UpdateRecipe(userId: string, recipeId: string, recipeUpdate: RecipeUpdate)
      requires Valid()
      modifies this
      ensures Valid()
      ensures table == PatchRecipe(old(table), RecipeKey(userId, recipeId), recipeUpdate)
    {
      table := PatchRecipe(table, RecipeKey(userId, recipeId), recipeUpdate);
    }

    /** `updateAttachmentUrl(userId, recipeId, url)`: sets attachmentUrl alone. */
    method UpdateAttachmentUrl(userId: string, recipeId: string, url: string)
      requires Valid()
      modifies this
      ensures Valid()
      ensures table == PatchAttachment(old(table), RecipeKey(userId, recipeId), url)
    {
      table := PatchAttachment(table, RecipeKey(userId, recipeId), url);
    }

    /** `deleteRecipe(userId, recipeId)`: a delete by the full key. */
    method DeleteRecipe(userId: string, recipeId: string)
      requires Valid()
      modifies this
      ensures Valid()
      ensures table == Remove(old(table), RecipeKey(userId, recipeId))
    {
      table := Remove(table, RecipeKey(userId, recipeId));
    }
  }
}
