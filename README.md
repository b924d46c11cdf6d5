# Foodgram backend: shopping list, relation toggles and recipe writes

This project models the logic core of a recipe-sharing web backend. Users publish recipes made of
ingredients with amounts. They can favorite recipes, follow authors, and collect recipes in a
shopping cart that exports a plain-text shopping list. The database is modelled as in-memory
relations:
- users, ingredients and recipes are maps from primary key to row;
- used-ingredient (recipe, ingredient, amount) rows form a sequence;
- cart, favorite and follow rows are sets of pairs.

The modules:

- `Common` holds the ids, `Option`, the response statuses (201, 204, 400, 404) and `Result`.
- `Text` covers what the views rely on from Python strings:
  - `str(int)` and `int(str)` on digit strings, round-trip proved;
  - `str.isdigit` on ASCII;
  - `"\n".join` and `str.split("\n")`, round-trip proved.
- `RecipeModels` and `UserModels` hold the rows, their field validators as predicates, and the
  cascading deletes.
- `ShoppingList` is `download_shopping_cart`.
  - Cart rows are joined with their ingredients and grouped by (ingredient name, measurement unit).
  - The amounts are summed per group. Lemmas relate every total to a sum read directly off the
    table and pin down when the list is empty.
  - `convertToTXT` is a loop that writes one `"{name} — {total} ({unit})"` line per group.
    When no ingredient name or unit contains a newline, a lemma shows the joined text splits
    back into exactly those lines. The field validators do not exclude a newline in a name or
    unit; such an ingredient writes extra lines into the file, and the model does not claim
    otherwise.
- `Relations` covers the add/remove endpoints as transitions on a set of pairs. Each states what is
  added or removed, that nothing else changes, and when the call is refused. Round-trip lemmas
  cover add-then-remove and remove-then-add.
- `Serializers` holds the serializer logic:
  - `validate_ingredients`, whose set-size duplicate check is proved equivalent to pairwise
    distinct ids;
  - field validation for create and for full or partial update;
  - the rows `create_ingredients` writes, read back item for item;
  - the `setattr` loop of `update`;
  - the `recipes_limit` cut;
  - the `is_favorited`, `is_in_shopping_cart` and `is_subscribed` flags.
- `Foodgram` has class `Store`, the database, with the views and serializer writes as methods.
  - `Valid()` holds the field bounds, referential integrity, unique usernames and emails, and no
    self-follow. Every method keeps it.
  - Each method's postcondition gives the new state in terms of the old one and the functions above.
  - Its `modifies` clause names the only fields it touches.

The grouping key of the shopping list is the ingredient's (name, measurement unit) pair, as the
query in `backend/api/views.py:113` groups. It is not the ingredient's id. Two ingredient records
with the same name and unit are merged into one line. The same name with another unit stays a
line of its own.

`backend/recipes/models.py` spells its classes `Ingridient` and `UsedIngridients`, and calls the
description field `test`. The views and serializers use `Ingredient`, `UsedIngredients` and
`text`. The model follows the views and serializers and takes only bounds and validators from the
model file. The `Favorite`, `ShoppingCart` and `Follow` model classes are not part of this model's
source. Their rows are modelled as the views use them: (user, recipe) pairs, and (user, followed
author) pairs. Their foreign keys are assumed to cascade like those of `UsedIngredients`.

## Model

| member | source | states |
|---|---|---|
| `RecipeModels.DropRecipes` | backend/recipes/models.py:38 | deleting recipes leaves exactly the used-ingredient rows of the other recipes |
| `RecipeModels.DropIngredient` | backend/recipes/models.py:39 | deleting an ingredient leaves exactly the rows naming other ingredients, each as many times as before, and none naming it |
| `UserModels.ValidateUser` | backend/users/models.py:7-21 | a user is accepted iff email is 1..254 characters, username is 1..150 characters of `[\w.@+-]`, first and last name at most 150 (blank allowed), and neither username nor email is already taken; the avatar is unconstrained; else 400 |
| `UserModels.ValidatedUserKeepsUnique` | backend/users/models.py:7-9 | storing a validated user under a new key keeps usernames and emails unique |
| `Text.NatToString` | backend/api/views.py:131 | `str(n)`: non-empty digit string, no leading zero, one digit exactly for n < 10 |
| `Text.IntToString` | backend/api/views.py:131 | `str(i)` for any integer: digits, with a leading '-' when negative, and no newline; `ParseIntToString` shows the digits denote `i` |
| `Text.ParseNatToString` | backend/api/serializers.py:218-219 | `int(str(n)) == n` |
| `Text.ParseIntToString` | backend/api/views.py:131 | the digits `str(i)` writes denote `i`: `int(str(i)) == i` for `i >= 0`, and the digits after the '-' denote `-i` for `i < 0` |
| `Text.SplitJoinLines` | backend/api/views.py:133 | `"\n".join(lines).split("\n") == lines` for a non-empty list of newline-free lines: one separator between lines, none trailing |
| `ShoppingList.AddEntry` | backend/api/views.py:113-114 | adding one row to the groups keeps keys distinct, adds its key, and raises only its key's total, by its amount |
| `ShoppingList.Aggregate` | backend/api/views.py:111-115 | group-by-sum: keys pairwise distinct, key set equals the set of keys of the rows, each key's total equals the sum of its rows' amounts |
| `ShoppingList.TotalOfGroup` | backend/api/views.py:114 | with distinct keys, the total found for a group's key is that group's total |
| `ShoppingList.CartEntriesSum` | backend/api/views.py:107-113 | per key, summing the joined cart entries equals summing the table rows of cart recipes whose ingredient has that name and unit |
| `ShoppingList.CartEntriesEmpty` | backend/api/views.py:111-112 | no joined entries exactly when no row belongs to a cart recipe |
| `ShoppingList.CartEntries` | backend/api/views.py:111-113 | every joined entry is the (name, unit) and amount of some row whose recipe is in the cart |
| `ShoppingList.CartEntryKeys` | backend/api/views.py:111-113 | the entries' keys are exactly the (name, unit) pairs of the cart rows' ingredients, in both directions |
| `ShoppingList.ShoppingListTotals` | backend/api/views.py:107-117 | each reported total is the sum of `amount` over the cart rows with that name and unit; the groups' keys are exactly the (name, unit) pairs of the cart rows, so no group lacks a cart row behind it; no key twice; empty exactly when no row belongs to a cart recipe |
| `ShoppingList.GroupingByNameAndUnit` | backend/api/views.py:113 | two cart rows share a group iff their ingredients share name and unit, even across distinct ingredient records |
| `ShoppingList.TotalsPositive` | backend/recipes/models.py:40-41 | with every amount at least 1, every reported total is at least 1 |
| `ShoppingList.ShoppingTotalsPositive` | backend/api/views.py:111-115 | with every row's amount at least 1, every group of the aggregate over the cart rows totals at least 1 |
| `ShoppingList.ConvertToTxt` | backend/api/views.py:125-133 | the loop's text is the join, by "\n", of one formatted line per group in input order |
| `ShoppingList.RenderOneLinePerGroup` | backend/api/views.py:125-133 | when no group's name or unit contains a newline, the text splits back into exactly one `"{name} — {total} ({unit})"` line per group in order; no groups give "" |
| `Relations.Insert` | backend/api/views.py:173-182 | afterwards the pair is present and no other pair changed; 201 iff it was absent, else 400 and nothing changes |
| `Relations.Remove` | backend/api/views.py:184-191 | afterwards the pair is absent and no other pair changed; 204 iff it was present, else 400 and nothing changes |
| `Relations.Follow` | backend/api/views.py:277-288 | 201 iff the author is not the user and the follow is new, adding exactly (user, author); else 400 and unchanged; no self-follow is ever introduced |
| `Relations.InsertThenRemove` | backend/api/views.py:173-191 | adding an absent pair then removing it restores the relation, both calls succeeding |
| `Relations.RemoveThenInsert` | backend/api/views.py:184-191 | removing a present pair then adding it restores the relation |
| `Relations.RepeatRefused` | backend/api/views.py:176-177 | a second identical add, or a second identical removal, is a 400 that changes nothing |
| `Relations.NoSelfSubscription` | backend/api/views.py:280-282 | following oneself is always a 400 that changes nothing |
| `Serializers.DistinctCons` | backend/api/serializers.py:100-101 | a list is duplicate-free iff its head is not repeated and its tail is duplicate-free |
| `Serializers.DistinctIffNoShrink` | backend/api/serializers.py:100-101 | `len(set(ids)) <= len(ids)`, with equality iff the ids are pairwise distinct |
| `Serializers.ValidateIngredients` | backend/api/serializers.py:97-103 | accepted iff the list is non-empty and its ingredient ids are pairwise distinct; then returned unchanged; else 400 |
| `Serializers.ValidateRecipeData` | backend/api/serializers.py:79-103 | accepted iff all fields are present (unless partial) and every present field passes: name 1..256, image and text non-empty, cooking_time >= 1, items naming stored ingredients with amount >= 1, non-empty and duplicate-free |
| `Serializers.RowsFor` | backend/api/serializers.py:105-112 | every row written belongs to the recipe and carries one of the items' ingredient and amount |
| `Serializers.RowsOfRowsFor` | backend/api/serializers.py:105-112 | reading back the rows written for a list of items gives exactly those items, and no rows for any other recipe |
| `Serializers.RowsOfAppend` | backend/api/serializers.py:106 | a recipe's rows in an extended table are its old rows followed by its rows among the new ones |
| `Serializers.RowsOfAbsent` | backend/api/serializers.py:116 | a recipe none of whose ids appear in the table has no rows |
| `Serializers.RowsOfDropRecipes` | backend/api/serializers.py:126 | deleting some recipes' rows leaves those recipes without rows and every other recipe with its rows |
| `Serializers.RowsAfterCreate` | backend/api/serializers.py:114-118 | writing the rows for a recipe that had none makes its rows exactly the items and leaves every other recipe's rows as they were |
| `Serializers.RowsAfterReplace` | backend/api/serializers.py:125-128 | deleting a recipe's rows and writing new ones makes its rows exactly the items and leaves every other recipe's rows as they were |
| `Serializers.SetAttrsPatches` | backend/api/serializers.py:122-123 | running the assignments of the present scalar fields gives the recipe with exactly those fields replaced |
| `Serializers.SetAttrsAppend` | backend/api/serializers.py:122-123 | running two lists of assignments in turn is running their concatenation |
| `Serializers.AssignFields` | backend/api/serializers.py:122-123 | the `setattr` loop yields the recipe with each present field replaced and the author and absent fields kept |
| `Serializers.PatchedValid` | backend/api/serializers.py:121-124 | a validated update keeps the recipe within its bounds and keeps its author |
| `Serializers.LimitRecipes` | backend/api/serializers.py:215-219 | a prefix of the author's recipes, of length min(int(limit), count) for a digit-string limit, and all of them for an absent or any other limit |
| `Serializers.LimitFromNumber` | backend/api/serializers.py:218-219 | a limit written as str(n) keeps the first min(n, count) recipes |
| `Serializers.FavoritedIds` | backend/api/views.py:38-48 | the context's id set holds a recipe iff the requester is authenticated and has favorited it |
| `Serializers.IsFavorited` | backend/api/serializers.py:44-45 | false without the context key, else membership in the context's id set; `IsFavoritedMeansFavorite` ties that set to the favorites |
| `Serializers.IsFavoritedMeansFavorite` | backend/api/serializers.py:44-45 | through that context, `is_favorited` is true iff the requester favorited the recipe; a context without the key gives false |
| `Serializers.IsInShoppingCart` | backend/api/serializers.py:47-51 | false for an anonymous requester, else whether the requester's pair is in the cart; `CartFlagFollowsToggles` ties it to the cart toggles |
| `Serializers.CartFlagFollowsToggles` | backend/api/serializers.py:47-51 | `is_in_shopping_cart` is true after a successful add, false after a removal, false for an anonymous requester |
| `Serializers.IsSubscribed` | backend/api/serializers.py:162-166 | false without a request or for an anonymous requester, else whether the requester follows the user shown; `SubscribedFlagFollowsToggles` ties it to subscribe and unsubscribe |
| `Serializers.SubscribedFlagFollowsToggles` | backend/api/serializers.py:162-166 | `is_subscribed` is true after a subscribe, false after an unsubscribe, false without a request or when anonymous |
| `Serializers.FollowIsSubscribed` | backend/api/serializers.py:210-213 | false for an anonymous requester, else whether the requester follows the author shown; `FollowFlagAgrees` equates it with UserSerializer's flag |
| `Serializers.FollowFlagAgrees` | backend/api/serializers.py:210-213 | FollowSerializer's `is_subscribed` equals UserSerializer's when a request is present |
| `Serializers.ValidateUserToRecipe` | backend/api/serializers.py:250-259 | refuses with a 400 exactly when the user already holds the recipe in the relation, else returns the data unchanged |
| `Foodgram.Store.constructor` | backend/recipes/models.py:9-12 | an empty database over a catalogue of valid ingredients satisfies the invariant |
| `Foodgram.Store.RegisterUser` | backend/users/models.py:7-13 | a user passing the field validators with a free username and email is stored under a new id with no avatar; else 400 and nothing changes |
| `Foodgram.Store.AddToCart` | backend/api/views.py:70-81 | missing recipe: 404 "Рецепт не найден" and the cart unchanged; otherwise exactly `Relations.Insert` with the serializer's duplicate message |
| `Foodgram.Store.RemoveFromCart` | backend/api/views.py:83-97 | missing recipe: 404; otherwise exactly `Relations.Remove` with "Рецепт отсутствует в списке покупок." |
| `Foodgram.Store.CartRecipes` | backend/api/views.py:107-109 | the recipe ids of exactly the user's cart rows |
| `Foodgram.Store.ShoppingListOf` | backend/api/views.py:107-115 | the user's aggregate over the stored rows: keys distinct and exactly the (name, unit) pairs of the rows of recipes in their cart, each total the sum read off the table and at least 1 |
| `Foodgram.Store.DownloadShoppingCart` | backend/api/views.py:106-123 | 400 "Ваша корзина пуста." iff no row belongs to a recipe in the user's cart; otherwise the rendered aggregate |
| `Foodgram.Store.AddFavorite` | backend/api/views.py:173-182 | missing recipe: 404; otherwise exactly `Relations.Insert` with an empty 400 |
| `Foodgram.Store.RemoveFavorite` | backend/api/views.py:184-191 | missing recipe: 404; otherwise exactly `Relations.Remove` with an empty 400 |
| `Foodgram.Store.Subscribe` | backend/api/views.py:277-288 | missing author: 404; otherwise exactly `Relations.Follow` |
| `Foodgram.Store.Unsubscribe` | backend/api/views.py:307-317 | missing author: 404; otherwise exactly `Relations.Remove` of (user, author) with an empty 400 |
| `Foodgram.Store.CreateIngredients` | backend/api/serializers.py:105-112 | appends one row per item and keeps the invariant |
| `Foodgram.Store.CreateRecipe` | backend/api/serializers.py:114-118 | invalid data: 400 and no write; otherwise a new recipe whose rows are exactly the posted items, every other recipe's rows unchanged |
| `Foodgram.Store.UpdateRecipe` | backend/api/serializers.py:120-130 | 404 / 400 without a write when missing or invalid; otherwise the scalar fields are patched and saved, then the rows are replaced by the items, or, with no ingredient list, a 400 after the save |
| `Foodgram.Store.ReplaceIngredients` | backend/api/serializers.py:125-128 | the recipe's rows become exactly the items (replace, not merge), every other recipe keeps its rows |
| `Foodgram.Store.DeleteRecipe` | backend/recipes/models.py:38 | missing: 404; otherwise the recipe, its rows and its cart and favorite pairs are gone, with 204 |
| `Foodgram.Store.DeleteIngredient` | backend/recipes/models.py:39 | the ingredient and exactly the rows naming it are gone |
| `Foodgram.Store.DeleteUser` | backend/recipes/models.py:20-21 | the user, every recipe they wrote, those recipes' rows and every pair naming the user or those recipes are gone |
| `Foodgram.RecipeReplaceKeepsConsistent` | backend/api/serializers.py:121-124 | saving a valid recipe with the same author over a stored one keeps every validator, foreign key and uniqueness invariant |
| `Foodgram.RecipeDeleteKeepsConsistent` | backend/recipes/models.py:38 | deleting a recipe with its rows, cart pairs and favorite pairs leaves no dangling foreign key |
| `Foodgram.UserDeleteKeepsConsistent` | backend/recipes/models.py:20-21 | deleting a user with their recipes and every row and pair naming either leaves no dangling foreign key and usernames and emails unique |

## Left out

- The temporary file and the `FileResponse` attachment of the download (`responseFromFile`) are I/O. The model stops at the rendered text.
- The 201 response bodies are left out, as are `to_representation`, the `Meta` field lists and the shape of serializer error bodies. They are response shaping. A framework 404 or an error without a message is modelled with an empty detail.
- Avatar upload and deletion, `Base64ImageField` decoding and `AvatarSerializer` are image decoding and file storage. An image is an opaque, non-empty reference.
- Password checking and hashing (`set_password`, and the password half of user registration) are calls into the framework's auth code. `Foodgram.Store.RegisterUser` stores a user without a password.
- Permission classes, authentication, pagination, `get_link`, the `subscriptions` listing and `me` are framework glue and are left out. The requesting user is a parameter the framework has already authenticated.
- Ordering of query results is not modelled. The order the database hands the grouped rows back in is unspecified; the model chooses first-occurrence order. The totals, the key set and the emptiness of the list do not depend on that choice, but the text `Foodgram.Store.DownloadShoppingCart` returns is the rendering in the model's chosen order, so its exact line order is a property of the model only. `Serializers.LimitRecipes` cuts whatever order the query yields, given as its input sequence.
- The check-then-insert race in the toggles is a concurrency concern. Each call is modelled as atomic.
- `\w` and `str.isdigit` are modelled on ASCII only. Python's Unicode digits, and the non-ASCII word characters the username pattern accepts, are not captured.
- Email address syntax (`EmailField`'s validator) is not modelled. Neither is the whitespace trimming of character fields, nor the 32-bit range of integer columns.
- The ingredient catalogue is loaded by the constructor. Ingredients are created outside the API (fixtures or the admin site), and that path is not part of this model.
- The admin site configuration, the database-clearing script and the URL routing are left out.
