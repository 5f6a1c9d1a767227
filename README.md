# Recipe backend: authorizer and owner-scoped recipe table

A Dafny model of the two pieces of logic behind the recipe application's HTTP
handlers.

- **The bearer-token authorizer** (`auth0Authorizer.ts`). It reads the token from
  the `Authorization` header. This is the Bearer scheme of section 2.1 of RFC 6750,
  except that the scheme name is matched in any case. It then selects the
  signing key from the identity provider's JWK set (RFC 7517: `use`, `kty`, `kid`,
  `x5c`, and `n`/`e` from section 6.3.1 of RFC 7518). It wraps the key's certificate
  as PEM (section 2 of RFC 7468). Finally it answers with an IAM policy: `Allow` for
  the token's subject, or `Deny` for the principal `user`. It is modelled as pure
  functions over strings and sequences, with a `Result` type for thrown errors.
- **The recipe table and service** (`recipesAcess.ts`, `recipes.ts`). The table is
  a class `RecipesAccess` whose `table` field maps the primary key
  `(userId, recipeId)` to a `RecipeItem`. Its methods state the new table as a
  function of the old one. Each function changes at most the one key it names. The
  service methods take the shared access object as a parameter. The generated id
  and the creation time are parameters too.

Modules: `Wrappers` (Option, Result, Outcome), `JsStrings` (JavaScript `split`,
`join`, `toLowerCase`, `startsWith`), `Pem` (`certToPEM`), `Auth0Authorizer`,
`RecipeModels` (the record and request shapes of `models/RecipeItem.ts` and
`requests/UpdateRecipeRequest.ts`), `RecipesAccessLayer`, `Recipes`.

The model follows the code in these details:

- The emptiness check on the key set comes after the certificate of *every*
  retained key has been converted. So one retained key that has `n`/`e` and no
  `x5c` makes every lookup fail, even when another key matches the token's `kid`.
- Only `getToken` and the `decode` call run outside the `try` of `verifyToken`, so
  only a refused header is thrown. A token that decodes to `null` fails when its
  `header.kid` is read inside the `try`; like a key-lookup or signature failure it
  is caught and gives `undefined`. The handler denies in every one of these cases.
- The token is the second piece of splitting the header at every space, that is,
  the text between the first and the second space.
- Token expiry is not checked by the authorizer's own code. It belongs to the
  signature-verification oracle.

Assumptions the code does not settle:

- The store's `update` on a missing key is modelled as "patch only if present":
  the table does not change. This matters for `updateImageUrl`, which does no
  existence check.
- The query on the owner index is modelled as returning every record of that owner
  exactly once, in no particular order.

## Model

| member | source | states |
|---|---|---|
| `JsStrings.Split` | backend/src/lambda/auth/auth0Authorizer.ts:73 | `split(' ')` gives one more piece than there are separators, and no piece contains the separator |
| `JsStrings.JoinSplit` | backend/src/lambda/auth/auth0Authorizer.ts:73 | joining the pieces of a split with the same separator gives back the original string |
| `JsStrings.SplitFirst` | backend/src/lambda/auth/auth0Authorizer.ts:73-74 | the first piece of a split is the text before the first separator |
| `JsStrings.SplitJoin` | backend/src/lambda/auth/auth0Authorizer.ts:104 | lines joined with newlines split back into the same lines when no line contains a newline |
| `JsStrings.Join` | backend/src/lambda/auth/auth0Authorizer.ts:104 | the joined string starts with the first piece, and separator-free pieces give exactly one separator fewer than there are pieces |
| `JsStrings.CountAppend` | backend/src/lambda/auth/auth0Authorizer.ts:104 | occurrences of a character in a concatenation add up |
| `JsStrings.ToLower` | backend/src/lambda/auth/auth0Authorizer.ts:70 | the result has the input's length and each character is the ASCII lower-case form of the one at the same place |
| `JsStrings.TakeUntil` | backend/src/lambda/auth/auth0Authorizer.ts:74 | the text before the first separator is a prefix without the separator, ending at a separator or the end |
| `Pem.RunLength` | backend/src/lambda/auth/auth0Authorizer.ts:104 | one greedy `.{1,64}` match takes at most 64 non-terminator characters and stops only at 64, a line terminator or the end |
| `Pem.MatchLines` | backend/src/lambda/auth/auth0Authorizer.ts:104 | every match of `/.{1,64}/g` is 1 to 64 characters long and contains no line terminator |
| `Pem.MatchLinesConcat` | backend/src/lambda/auth/auth0Authorizer.ts:104 | the matches put together are the input with its line terminators removed |
| `Pem.MatchLinesFull` | backend/src/lambda/auth/auth0Authorizer.ts:104 | on input without line terminators, every match but the last is exactly 64 characters |
| `Pem.CertToPem` | backend/src/lambda/auth/auth0Authorizer.ts:103-106 | fails (match gives `null`, `join` throws) exactly when the input has nothing `.` matches; otherwise starts with the BEGIN header line and ends with the END footer line |
| `Pem.CertToPemLayout` | backend/src/lambda/auth/auth0Authorizer.ts:103-106 | for a non-empty, newline-free certificate: header + body + footer, body lines of at most 64 characters, all but the last exactly 64, and together they are the certificate |
| `Auth0Authorizer.GetToken` | backend/src/lambda/auth/auth0Authorizer.ts:67-77 | an absent or empty header fails with "No authentication header" and nothing else does; a non-empty header fails with "Invalid authentication header" exactly when its lower-case form does not start with "bearer "; no other error; the token has no space |
| `Auth0Authorizer.GetTokenAfterScheme` | backend/src/lambda/auth/auth0Authorizer.ts:70-76 | with the scheme in any case, the token is the text after "bearer " up to the next space |
| `Auth0Authorizer.GetTokenSecondPiece` | backend/src/lambda/auth/auth0Authorizer.ts:73-76 | "Bearer a b" yields "a" |
| `Auth0Authorizer.GetTokenAnyCase` | backend/src/lambda/auth/auth0Authorizer.ts:70-71 | `Bearer`, `BEARER` and `bearer` followed by a space are all accepted and yield the token |
| `Auth0Authorizer.GetTokenRejectsOtherScheme` | backend/src/lambda/auth/auth0Authorizer.ts:70-71 | "Basic tok" and "Bearer" without a trailing space fail with "Invalid authentication header" |
| `Auth0Authorizer.FilterKeys` | backend/src/lambda/auth/auth0Authorizer.ts:82-87 | a key is retained iff `use` is "sig", `kty` is "RSA", `kid` is non-empty, and it has a non-empty `x5c` or non-empty `n` and `e` |
| `Auth0Authorizer.FilterKeysAppend` | backend/src/lambda/auth/auth0Authorizer.ts:82-87 | filtering a concatenation filters each part in turn, so the retained keys keep their order |
| `Auth0Authorizer.FilterKeysSingle` | backend/src/lambda/auth/auth0Authorizer.ts:82-87 | a single key is retained exactly when it passes the filter |
| `Auth0Authorizer.ToSigningKey` | backend/src/lambda/auth/auth0Authorizer.ts:87-89 | converting a key succeeds iff it has a non-empty `x5c` whose first entry is a certificate; the result keeps `kid` and `nbf`, and its public key is the PEM form of `x5c[0]` |
| `Auth0Authorizer.ToSigningKeys` | backend/src/lambda/auth/auth0Authorizer.ts:87-89 | the map succeeds iff every retained key converts, and then converts each key in place |
| `Auth0Authorizer.FirstWithKid` | backend/src/lambda/auth/auth0Authorizer.ts:95 | `find` gives the first key whose `kid` equals the requested one, or none when no key matches |
| `Auth0Authorizer.FindByKid` | backend/src/lambda/auth/auth0Authorizer.ts:95 | gives nothing exactly when no converted key has the requested `kid`, and otherwise the first one that has it |
| `Auth0Authorizer.GetSigningKey` | backend/src/lambda/auth/auth0Authorizer.ts:79-101 | fails only with a conversion failure, "Signing keys is empty" or "Invalid Signing key"; "Signing keys is empty" only when no key passes the filter; a returned key has the requested `kid` |
| `Auth0Authorizer.FirstCandidateWithKid` | backend/src/lambda/auth/auth0Authorizer.ts:82-95 | one-pass reference search: the result is the first retained key of the set with the requested `kid`, and there is none exactly when no retained key has it |
| `Auth0Authorizer.FilterFindAgree` | backend/src/lambda/auth/auth0Authorizer.ts:82-98 | filter, then map, then find gives the converted form of the first retained key with the requested `kid` |
| `Auth0Authorizer.GetSigningKeyUnconvertible` | backend/src/lambda/auth/auth0Authorizer.ts:86-89 | a retained key that does not convert makes the lookup fail with the conversion failure |
| `Auth0Authorizer.ConvertibleCandidates` | backend/src/lambda/auth/auth0Authorizer.ts:86-89 | when every retained key converts, the `map` succeeds |
| `Auth0Authorizer.GetSigningKeyOutcome` | backend/src/lambda/auth/auth0Authorizer.ts:79-101 | three outcomes in order: a retained key that does not convert fails the lookup; else no retained key fails with "Signing keys is empty"; else the first retained key with the `kid` is returned, or the lookup fails with "Invalid Signing key" |
| `Auth0Authorizer.ModulusOnlyKeyBreaksLookup` | backend/src/lambda/auth/auth0Authorizer.ts:86-88 | a retained key with `n`/`e` but no `x5c` makes the whole lookup fail, whatever `kid` is asked for |
| `Auth0Authorizer.VerifyToken` | backend/src/lambda/auth/auth0Authorizer.ts:54-65 | throws exactly when the header is refused, with `getToken`'s error; a token that decodes to `null` gives `undefined`; gives a payload exactly when the token decodes, the keys were fetched, the key resolves and the signature verifies, and then gives the verifier's payload unchanged; every other failure gives `undefined` |
| `Auth0Authorizer.Policy` | backend/src/lambda/auth/auth0Authorizer.ts:22-50 | the answer names the given principal and holds one statement, version 2012-10-17, for `execute-api:Invoke` on `*` with the given effect |
| `Auth0Authorizer.Handler` | backend/src/lambda/auth/auth0Authorizer.ts:14-52 | one statement, version 2012-10-17, action `execute-api:Invoke`, resource `*`; `Allow` exactly when verification gives a payload, with its `sub` as principal; otherwise `Deny` with principal "user" |
| `Auth0Authorizer.HandlerDeniesBadHeader` | backend/src/lambda/auth/auth0Authorizer.ts:67-71 | a missing header, or one without the bearer prefix, is denied for "user" |
| `Auth0Authorizer.HandlerDeniesUnknownKid` | backend/src/lambda/auth/auth0Authorizer.ts:95-98 | a token whose `kid` names no retained key is denied, whatever the signature oracle would answer |
| `Auth0Authorizer.HandlerAllows` | backend/src/lambda/auth/auth0Authorizer.ts:19-34 | bearer header in any case, decodable token, convertible keys, `kid` found and signature verified give `Allow` for the payload's subject |
| `RecipesAccessLayer.Put` | backend/src/helpers/recipesAcess.ts:36-43 | a put stores the item under `(userId, recipeId)`, replaces any earlier record there, leaves every other key alone and keeps records under their own keys |
| `RecipesAccessLayer.PatchRecipe` | backend/src/helpers/recipesAcess.ts:61-78 | on a present key: name, description and favorite come from the update, every other field is kept; same keys; other keys untouched; a missing key changes nothing |
| `RecipesAccessLayer.PatchAttachment` | backend/src/helpers/recipesAcess.ts:81-96 | on a present key only `attachmentUrl` changes; same keys; other keys untouched; a missing key changes nothing |
| `RecipesAccessLayer.Remove` | backend/src/helpers/recipesAcess.ts:99-109 | the key is gone afterwards and every other key is untouched |
| `RecipesAccessLayer.OtherOwnersUnchanged` | backend/src/helpers/recipesAcess.ts:61-109 | a change confined to one `(userId, recipeId)` key leaves every other user's recipes exactly as they were |
| `RecipesAccessLayer.PutFreshAddsOne` | backend/src/helpers/recipesAcess.ts:36-43 | a put under a fresh key adds the item to its owner's recipes and loses none |
| `RecipesAccessLayer.PatchAttachmentIdempotent` | backend/src/helpers/recipesAcess.ts:81-96 | writing the same attachment URL twice equals writing it once |
| `RecipesAccessLayer.PatchRecipeIdempotent` | backend/src/helpers/recipesAcess.ts:61-78 | applying the same update twice equals applying it once |
| `RecipesAccessLayer.RecipesAccess.constructor` | backend/src/helpers/recipesAcess.ts:16-19 | a new access object works on the table as it stands: its contents are whatever earlier requests stored, unchanged |
| `RecipesAccessLayer.RecipesAccess.GetRecipes` | backend/src/helpers/recipesAcess.ts:21-34 | returns exactly the records whose `userId` is the given user, each once, and leaves the table unchanged |
| `RecipesAccessLayer.RecipesAccess.CreateRecipe` | backend/src/helpers/recipesAcess.ts:36-44 | the table becomes the put of the item, and the item is returned |
| `RecipesAccessLayer.RecipesAccess.IsRecipeExists` | backend/src/helpers/recipesAcess.ts:46-59 | true iff a record exists at exactly `(userId, recipeId)`; the table is not modified |
| `RecipesAccessLayer.RecipesAccess.UpdateRecipe` | backend/src/helpers/recipesAcess.ts:61-79 | the table becomes the patch of name, description and favorite at `(userId, recipeId)` |
| `RecipesAccessLayer.RecipesAccess.UpdateAttachmentUrl` | backend/src/helpers/recipesAcess.ts:81-97 | the table becomes the patch of `attachmentUrl` at `(userId, recipeId)` |
| `RecipesAccessLayer.RecipesAccess.DeleteRecipe` | backend/src/helpers/recipesAcess.ts:99-109 | the record at `(userId, recipeId)` is removed and nothing else changes |
| `Recipes.NewRecipe` | backend/src/helpers/recipes.ts:23-30 | the new record is keyed by the caller and the generated id, carries the request's name and description and the creation time, is not a favourite and has an empty attachment URL |
| `Recipes.GetRecipes` | backend/src/helpers/recipes.ts:13-15 | exactly the user's records, each once, as the access layer returns them |
| `Recipes.CreateRecipe` | backend/src/helpers/recipes.ts:17-31 | the record has the caller as owner, the generated id and time, and the request's name and description; it is not a favourite, its attachment URL is empty, and it is put into the table |
| `Recipes.CreateThenList` | backend/src/helpers/recipes.ts:21-30 | after a create under a fresh id, the owner's recipes are the earlier ones plus the new record |
| `Recipes.UpdateRecipe` | backend/src/helpers/recipes.ts:33-50 | fails with "Recipe item does not exist" and changes nothing unless `(userId, recipeId)` exists; otherwise patches exactly name, description and favorite from the request |
| `Recipes.DeleteRecipe` | backend/src/helpers/recipes.ts:52-60 | fails with "Recipe item does not exist" and changes nothing unless `(userId, recipeId)` exists; otherwise removes that record |
| `Recipes.UpdateImageUrl` | backend/src/helpers/recipes.ts:62-65 | writes `https://<bucket>.s3.amazonaws.com/<recipeId>` into the attachment field of `(userId, recipeId)`, with no existence check |
| `Recipes.AttachmentUrl` | backend/src/helpers/recipes.ts:63 | the URL is an `https://` URL whose path ends with `/` and the recipe id |
| `Recipes.AttachmentUrlRoundTrip` | backend/src/helpers/recipes.ts:63 | the recipe id can be read back out of the attachment URL |
| `Recipes.AttachmentUrlInjective` | backend/src/helpers/recipes.ts:63 | two recipes in one bucket never get the same attachment URL |
| `Recipes.OtherOwnerCannotMutate` | backend/src/helpers/recipes.ts:33-60 | a record with the same `recipeId` under another user does not pass the existence check: update and delete fail and the table is unchanged |
| `Recipes.CreateUpdateDeleteScenario` | backend/src/helpers/recipes.ts:17-60 | create, update by the owner, delete by another user (refused), delete by the owner, then list: the list holds no record |

## Left out

- Network and SDK calls. The key-set fetch (`Axios.get`) is an input that may be absent. The DynamoDB document client becomes the `table` field. X-Ray, logging and `process.env` reads are dropped.
- `Auth0Authorizer.VerifyToken`: `decode` is modelled as returning a header or `null`, never throwing. A `decode` that threw would escape `verifyToken`, because the call sits outside the `try`; that outcome is not modelled.
- JWT decoding and RS256 verification (`jsonwebtoken`'s `decode` and `verify`) are oracles passed in as functions. Signature, expiry and algorithm checks happen inside them and are not modelled.
- `Pem.MatchLines`, `Pem.RunLength`, `JsStrings.Split`: Dafny strings are sequences of Unicode scalar values, while JavaScript's `.{1,64}` (without the `u` flag), `split` and `length` count UTF-16 code units. A character outside the Basic Multilingual Plane counts 2 toward the 64 in the source and can be cut across two lines there; the model counts it once and never splits it. Base64 certificates contain only ASCII, so `x5c` entries are unaffected.
- `JsStrings.ToLower`: lower-cases ASCII letters only. No other character lower-cases to a letter of "bearer ", so the prefix test is unaffected.
- JSON typing: every JWK field is a string, a string list or an integer. A non-string `kid` or a non-array `x5c` is not modelled.
- A verified payload without `sub` (which would give an `undefined` principal) is not modelled. The payload is reduced to its `sub` claim.
- Store semantics: `update` on a missing key is assumed to change nothing. The store could instead create a partial record, which the code does not rule out. Query pagination (the 1 MB page limit of a query) is not modelled: the query returns every record of the owner.
- The create request is modelled as exactly `{name, description}`. The handler parses the body untyped and spreads it after `recipeId`, `userId` and `createdAt`, so extra fields in the body could override them. That hazard is not modelled.
- `uuid.v4()` and `new Date().toISOString()` are parameters. Freshness of the id is a precondition where a lemma needs it.
- Concurrency: the existence check and the mutation are not atomic in the source. The model is sequential.
- The HTTP handlers, the S3 presigned-URL helper, the client UI and the client configuration are not part of this model.
- `RecipesAccessLayer.RecipesAccess.GetRecipes` returns the records in no particular order. The store's index order is not modelled.
