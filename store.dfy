/** The database behind the API as one object: the users, the ingredient catalogue, the recipes,
    the used-ingredient rows and the cart, favorite and follow pairs, with the views and
    serializer writes as methods that change it. */
module Foodgram {
  import opened Common
  import opened Text
  import opened RecipeModels
  import opened UserModels
  import opened ShoppingList
  import opened Relations
  import opened Serializers

  /** Every pair's first component is in `left`, its second in `right`. */
  ghost predicate PairsWithin(pairs: set<(nat, nat)>, left: set<nat>, right: set<nat>) {
    forall p :: p in pairs ==> p.0 in left && p.1 in right
  }

  ghost predicate UsersValid(users: map<UserId, User>, nextUserId: nat) {
    (forall id :: id in users ==> ValidUser(users[id]) && id < nextUserId) && UniqueUsers(users)
  }

  ghost predicate RecipesValid(recipes: map<RecipeId, Recipe>, users: set<UserId>, nextRecipeId: nat) {
    forall id :: id in recipes ==>
      ValidRecipe(recipes[id]) && recipes[id].author in users && id < nextRecipeId
  }

  ghost predicate RowsValid(used: seq<UsedIngredient>, recipes: set<RecipeId>, ingredients: set<IngredientId>) {
    forall u :: u in used ==> u.recipe in recipes && u.ingredient in ingredients && ValidUsedIngredient(u)
  }

  /** Dropping pairs by their first or second component keeps the rest within the shrunk sides. */
  lemma PairsWithinDrop(pairs: set<(nat, nat)>, left: set<nat>, right: set<nat>, x: nat, xs: set<nat>)
    requires PairsWithin(pairs, left, right)
    ensures PairsWithin(DropSecond(pairs, xs), left, right - xs)
    ensures PairsWithin(DropFirst(DropSecond(pairs, xs), x), left - {x}, right - xs)
  {
  }

  /** Deleting a user and the recipes they wrote leaves every remaining recipe's author stored. */
  lemma RecipesValidAfterUserDelete(recipes: map<RecipeId, Recipe>, users: set<UserId>, next: nat, uid: UserId)
    requires RecipesValid(recipes, users, next)
    ensures RecipesValid(recipes - AuthoredBy(recipes, uid), users - {uid}, next)
  {
  }

  /** Dropping the rows of deleted recipes keeps the remaining rows pointing at stored recipes. */
  lemma RowsValidAfterRecipeDelete(used: seq<UsedIngredient>, recipes: set<RecipeId>,
                                   ingredients: set<IngredientId>, gone: set<RecipeId>)
    requires RowsValid(used, recipes, ingredients)
    ensures RowsValid(DropRecipes(used, gone), recipes - gone, ingredients)
  {
  }

  /** The database invariant over the tables' contents: every row satisfies its field
      validators, every foreign key points at a stored row, usernames and emails are unique,
      and nobody follows themselves. */
  ghost predicate Consistent(users: map<UserId, User>, ingredients: map<IngredientId, Ingredient>,
                             recipes: map<RecipeId, Recipe>, used: seq<UsedIngredient>,
                             cart: set<(UserId, RecipeId)>, favorites: set<(UserId, RecipeId)>,
                             follows: set<(UserId, UserId)>, nextUserId: nat, nextRecipeId: nat)
  {
    && UsersValid(users, nextUserId)
    && (forall id :: id in ingredients ==> ValidIngredient(ingredients[id]))
    && RecipesValid(recipes, users.Keys, nextRecipeId)
    && RowsValid(used, recipes.Keys, ingredients.Keys)
    && PairsWithin(cart, users.Keys, recipes.Keys)
    && PairsWithin(favorites, users.Keys, recipes.Keys)
    && PairsWithin(follows, users.Keys, users.Keys)
    && NoSelfFollow(follows)
  }

  /** Deleting a recipe together with its rows, cart pairs and favorite pairs keeps the
      database consistent. */
  lemma RecipeDeleteKeepsConsistent(users: map<UserId, User>, ingredients: map<IngredientId, Ingredient>,
                                    recipes: map<RecipeId, Recipe>, used: seq<UsedIngredient>,
                                    cart: set<(UserId, RecipeId)>, favorites: set<(UserId, RecipeId)>,
                                    follows: set<(UserId, UserId)>, nextUserId: nat, nextRecipeId: nat,
                                    rid: RecipeId)
    requires Consistent(users, ingredients, recipes, used, cart, favorites, follows, nextUserId, nextRecipeId)
    ensures Consistent(users, ingredients, recipes - {rid}, DropRecipes(used, {rid}),
                       DropSecond(cart, {rid}), DropSecond(favorites, {rid}), follows,
                       nextUserId, nextRecipeId)
  {
    RowsValidAfterRecipeDelete(used, recipes.Keys, ingredients.Keys, {rid});
    PairsWithinDrop(cart, users.Keys, recipes.Keys, 0, {rid});
    PairsWithinDrop(favorites, users.Keys, recipes.Keys, 0, {rid});
    assert (recipes - {rid}).Keys == recipes.Keys - {rid};
  }

  /** Deleting a user together with the recipes they wrote and every row and pair naming either
      keeps the database consistent. */
  lemma UserDeleteKeepsConsistent(users: map<UserId, User>, ingredients: map<IngredientId, Ingredient>,
                                  recipes: map<RecipeId, Recipe>, used: seq<UsedIngredient>,
                                  cart: set<(UserId, RecipeId)>, favorites: set<(UserId, RecipeId)>,
                                  follows: set<(UserId, UserId)>, nextUserId: nat, nextRecipeId: nat,
                                  uid: UserId)
    requires Consistent(users, ingredients, recipes, used, cart, favorites, follows, nextUserId, nextRecipeId)
    ensures var gone := AuthoredBy(recipes, uid);
            Consistent(users - {uid}, ingredients, recipes - gone, DropRecipes(used, gone),
                       DropFirst(DropSecond(cart, gone), uid), DropFirst(DropSecond(favorites, gone), uid),
                       DropFirst(DropSecond(follows, {uid}), uid), nextUserId, nextRecipeId)
  {
    var gone := AuthoredBy(recipes, uid);
    RemovingUsersKeepsUnique(users, {uid});
    RecipesValidAfterUserDelete(recipes, users.Keys, nextRecipeId, uid);
    RowsValidAfterRecipeDelete(used, recipes.Keys, ingredients.Keys, gone);
    PairsWithinDrop(cart, users.Keys, recipes.Keys, uid, gone);
    PairsWithinDrop(favorites, users.Keys, recipes.Keys, uid, gone);
    PairsWithinDrop(follows, users.Keys, users.Keys, uid, {uid});
    assert (users - {uid}).Keys == users.Keys - {uid};
    assert (recipes - gone).Keys == recipes.Keys - gone;
  }

  /** Replacing a stored recipe by a valid one with the same author keeps the database
      consistent. */
  lemma RecipeReplaceKeepsConsistent(users: map<UserId, User>, ingredients: map<IngredientId, Ingredient>,
                                     recipes: map<RecipeId, Recipe>, used: seq<UsedIngredient>,
                                     cart: set<(UserId, RecipeId)>, favorites: set<(UserId, RecipeId)>,
                                     follows: set<(UserId, UserId)>, nextUserId: nat, nextRecipeId: nat,
                                     rid: RecipeId, recipe: Recipe)
    requires Consistent(users, ingredients, recipes, used, cart, favorites, follows, nextUserId, nextRecipeId)
    requires rid in recipes && ValidRecipe(recipe) && recipe.author == recipes[rid].author
    ensures Consistent(users, ingredients, recipes[rid := recipe], used, cart, favorites, follows,
                       nextUserId, nextRecipeId)
  {
    assert recipes[rid := recipe].Keys == recipes.Keys;
  }

  class Store {
    var users: map<UserId, User>
    var ingredients: map<IngredientId, Ingredient>
    var recipes: map<RecipeId, Recipe>
    /** The UsedIngredients table, in insertion order. */
    var used: seq<UsedIngredient>
    /** ShoppingCart rows as (user, recipe). */
    var cart: set<(UserId, RecipeId)>
    /** Favorite rows as (user, recipe). */
    var favorites: set<(UserId, RecipeId)>
    /** Follow rows as (user, followed author). */
    var follows: set<(UserId, UserId)>
    /** The next primary keys the tables hand out. */
    var nextUserId: nat
    var nextRecipeId: nat

    /** Every row satisfies its field validators, every foreign key points at a stored row,
        usernames and emails are unique, and nobody follows themselves. */
    ghost predicate Valid()
      reads this
    {
      Consistent(users, ingredients, recipes, used, cart, favorites, follows, nextUserId, nextRecipeId)
    }

    /** An empty database over a loaded ingredient catalogue. */
    constructor (catalogue: map<IngredientId, Ingredient>)
      requires forall id :: id in catalogue ==> ValidIngredient(catalogue[id])
      ensures Valid()
      ensures ingredients == catalogue
      ensures users == map[] && recipes == map[] && used == []
      ensures cart == {} && favorites == {} && follows == {}
    {
      users, ingredients, recipes, used := map[], catalogue, map[], [];
      cart, favorites, follows := {}, {}, {};
      nextUserId, nextRecipeId := 0, 0;
    }

    // ------------------------------------------------------------ users

    /** Registration without the password: a user that passes its field validators and whose
        username and email are both unused is stored under a new id, with no avatar, since the
        registration serializer does not take one; otherwise a 400. */
    method RegisterUser(u: User) returns (r: Result<UserId>)
      requires Valid()
      modifies this`users, this`nextUserId
      ensures Valid()
      ensures r.Success? <==> ValidateUser(old(users), u).Success?
      ensures r.Success? ==> r.value !in old(users) && users == old(users)[r.value := u.(avatar := None)]
      ensures r.Failure? ==> r.response.status == BadRequest && users == old(users)
    {
      var checked := ValidateUser(users, u);
      if checked.Failure? {
        return Failure(checked.response);
      }
      var stored := u.(avatar := None);
      assert ValidateUser(users, stored).Success?;
      ValidatedUserKeepsUnique(users, nextUserId, stored);
      users := users[nextUserId := stored];
      r := Success(nextUserId);
      nextUserId := nextUserId + 1;
    }

    // ------------------------------------------------------------ shopping cart

    /** recordUserToRecipe with ShoppingCartSerializer: a missing recipe is a 404 "Рецепт не
        найден"; a pair already in the cart is refused by the serializer's validate with a 400;
        otherwise the pair is added with a 201. */
    method AddToCart(user: UserId, rid: RecipeId) returns (resp: Response)
      requires Valid() && user in users
      modifies this`cart
      ensures Valid()
      ensures rid !in recipes ==> resp == Response(NotFound, RecipeNotFoundDetail) && cart == old(cart)
      ensures rid in recipes ==> Toggle(resp, cart) == Insert(old(cart), (user, rid), CartDuplicateDetail)
    {
      if rid !in recipes {
        return Response(NotFound, RecipeNotFoundDetail);
      }
      var checked := ValidateUserToRecipe(cart, user, rid);
      if checked.Failure? {
        return checked.response;
      }
      cart := cart + {checked.value};
      resp := Response(Created, "");
    }

    /** deleteUserToRecipe for the cart: a missing recipe is a 404; a pair not in the cart is a
        400 "Рецепт отсутствует в списке покупок."; otherwise the pair is deleted with a 204. */
    method RemoveFromCart(user: UserId, rid: RecipeId) returns (resp: Response)
      requires Valid()
      modifies this`cart
      ensures Valid()
      ensures rid !in recipes ==> resp == Response(NotFound, "") && cart == old(cart)
      ensures rid in recipes ==> Toggle(resp, cart) == Remove(old(cart), (user, rid), CartAbsentDetail)
    {
      if rid !in recipes {
        return Response(NotFound, "");
      }
      if (user, rid) !in cart {
        return Response(BadRequest, CartAbsentDetail);
      }
      cart := cart - {(user, rid)};
      resp := Response(NoContent, "");
    }

    /** The cart's recipes for one user (the recipe_id values of their ShoppingCart rows). */
    function CartRecipes(user: UserId): (ids: set<RecipeId>)
      reads this
      ensures forall rid :: rid in ids <==> (user, rid) in cart
    {
      set p | p in cart && p.0 == user :: p.1
    }

    /** The aggregate download_shopping_cart computes for a user. */
    function ShoppingListOf(user: UserId): (groups: seq<Group>)
      reads this
      requires Valid()
      ensures DistinctKeys(groups)
      ensures GroupKeys(groups) == CartKeys(used, CartRecipes(user), ingredients)
      ensures forall i :: 0 <= i < |groups| ==>
                groups[i].total == RowSum(used, CartRecipes(user), ingredients, groups[i].key)
      ensures forall i :: 0 <= i < |groups| ==> groups[i].total >= MinAmount
    {
      ShoppingListTotals(used, CartRecipes(user), ingredients);
      ShoppingTotalsPositive(used, CartRecipes(user), ingredients);
      Aggregate(CartEntries(used, CartRecipes(user), ingredients))
    }

    /** download_shopping_cart up to the file: a 400 "Ваша корзина пуста." exactly when no
        used-ingredient row belongs to a recipe in the user's cart, else the rendered list. */
    method DownloadShoppingCart(user: UserId) returns (r: Result<string>)
      requires Valid()
      ensures r.Failure? <==> forall u :: u in used ==> (user, u.recipe) !in cart
      ensures r.Failure? ==> r.response == Response(BadRequest, EmptyCartDetail)
      ensures r.Success? ==> r.value == Render(ShoppingListOf(user))
    {
      ShoppingListTotals(used, CartRecipes(user), ingredients);
      var groups := Aggregate(CartEntries(used, CartRecipes(user), ingredients));
      if groups == [] {
        return Failure(Response(BadRequest, EmptyCartDetail));
      }
      var text := ConvertToTxt(groups);
      r := Success(text);
    }

    // ------------------------------------------------------------ favorites

    /** _handle_add_relation for Favorite: a missing recipe is a 404; an existing pair an empty
        400; otherwise exactly that pair is added, with a 201. */
    method AddFavorite(user: UserId, rid: RecipeId) returns (resp: Response)
      requires Valid() && user in users
      modifies this`favorites
      ensures Valid()
      ensures rid !in recipes ==> resp == Response(NotFound, "") && favorites == old(favorites)
      ensures rid in recipes ==> Toggle(resp, favorites) == Insert(old(favorites), (user, rid), "")
    {
      if rid !in recipes {
        return Response(NotFound, "");
      }
      if (user, rid) in favorites {
        return Response(BadRequest, "");
      }
      favorites := favorites + {(user, rid)};
      resp := Response(Created, "");
    }

    /** _handle_remove_relation for Favorite: a missing recipe is a 404; an absent pair an empty
        400; otherwise the matching pair is deleted, with a 204. */
    method RemoveFavorite(user: UserId, rid: RecipeId) returns (resp: Response)
      requires Valid()
      modifies this`favorites
      ensures Valid()
      ensures rid !in recipes ==> resp == Response(NotFound, "") && favorites == old(favorites)
      ensures rid in recipes ==> Toggle(resp, favorites) == Remove(old(favorites), (user, rid), "")
    {
      if rid !in recipes {
        return Response(NotFound, "");
      }
      if (user, rid) !in favorites {
        return Response(BadRequest, "");
      }
      favorites := favorites - {(user, rid)};
      resp := Response(NoContent, "");
    }

    // ------------------------------------------------------------ follows

    /** subscribe: a missing author is a 404; following oneself or an existing follow is an
        empty 400; otherwise exactly Follow(user, author) is added, with a 201. */
    method Subscribe(user: UserId, author: UserId) returns (resp: Response)
      requires Valid() && user in users
      modifies this`follows
      ensures Valid()
      ensures author !in users ==> resp == Response(NotFound, "") && follows == old(follows)
      ensures author in users ==> Toggle(resp, follows) == Follow(old(follows), user, author)
    {
      if author !in users {
        return Response(NotFound, "");
      }
      if author == user || (user, author) in follows {
        return Response(BadRequest, "");
      }
      follows := follows + {(user, author)};
      resp := Response(Created, "");
    }

    /** unsubscribe: a missing author is a 404; no follow is an empty 400 and nothing changes;
        otherwise the follow is deleted, with a 204. */
    method Unsubscribe(user: UserId, author: UserId) returns (resp: Response)
      requires Valid()
      modifies this`follows
      ensures Valid()
      ensures author !in users ==> resp == Response(NotFound, "") && follows == old(follows)
      ensures author in users ==> Toggle(resp, follows) == Remove(old(follows), (user, author), "")
    {
      if author !in users {
        return Response(NotFound, "");
      }
      if (user, author) !in follows {
        return Response(BadRequest, "");
      }
      follows := follows - {(user, author)};
      resp := Response(NoContent, "");
    }

    // ------------------------------------------------------------ recipe writes

    /** create_ingredients: bulk-inserts one row of recipe `rid` per item. */
    method CreateIngredients(rid: RecipeId, items: seq<IngredientItem>)
      requires Valid() && rid in recipes
      requires forall it :: it in items ==> ItemValid(ingredients.Keys, it)
      modifies this`used
      ensures Valid()
      ensures used == old(used) + RowsFor(rid, items)
    {
      used := used + RowsFor(rid, items);
    }

    /** RecipeCreateSerializer.create behind a validated POST: invalid data is a 400 and writes
        nothing; valid data stores a new recipe by `author` whose used-ingredient rows are
        exactly the posted items, one per item with its ingredient and amount, leaving the rows
        of every other recipe as they were. */
    method CreateRecipe(author: UserId, d: RecipeData) returns (r: Result<RecipeId>)
      requires Valid() && author in users
      modifies this`recipes, this`used, this`nextRecipeId
      ensures Valid()
      ensures r.Success? <==> ValidateRecipeData(ingredients.Keys, d, false).Success?
      ensures r.Failure? ==> r.response.status == BadRequest && recipes == old(recipes) && used == old(used)
      ensures r.Success? ==>
                && r.value !in old(recipes)
                && recipes == old(recipes)[r.value := Recipe(author, d.name.value, d.text.value,
                                                              Some(d.image.value), d.cookingTime.value)]
                && used == old(used) + RowsFor(r.value, d.ingredients.value)
                && RowsOf(used, r.value) == d.ingredients.value
                && (forall other :: other != r.value ==> RowsOf(used, other) == RowsOf(old(used), other))
    {
      var checked := ValidateRecipeData(ingredients.Keys, d, false);
      if checked.Failure? {
        return Failure(checked.response);
      }
      var id := nextRecipeId;
      recipes := recipes[id := Recipe(author, d.name.value, d.text.value, Some(d.image.value),
                                      d.cookingTime.value)];
      nextRecipeId := nextRecipeId + 1;
      CreateIngredients(id, d.ingredients.value);
      r := Success(id);
      RowsAfterCreate(old(used), id, d.ingredients.value);
    }

    /** RecipeCreateSerializer.update behind a validated PUT (partial = false) or PATCH
        (partial = true). A missing recipe is a 404 and invalid data a 400, both writing nothing.
        Otherwise every scalar field present is assigned and the recipe saved; then, when an
        ingredient list was sent, all previous rows of the recipe are deleted and one row per
        item created, so the rows are replaced rather than merged; when none was sent the call
        ends in a 400 although the scalar fields are already saved. */
    method UpdateRecipe(rid: RecipeId, d: RecipeData, partial: bool) returns (r: Result<RecipeId>)
      requires Valid()
      modifies this`recipes, this`used
      ensures Valid()
      ensures rid !in old(recipes) ==>
                r == Failure(Response(NotFound, "")) && recipes == old(recipes) && used == old(used)
      ensures rid in old(recipes) && ValidateRecipeData(ingredients.Keys, d, partial).Failure? ==>
                r.Failure? && r.response.status == BadRequest && recipes == old(recipes) && used == old(used)
      ensures rid in old(recipes) && ValidateRecipeData(ingredients.Keys, d, partial).Success? ==>
                && recipes == old(recipes)[rid := Patched(old(recipes)[rid], d)]
                && (d.ingredients.None? ==> r == Failure(Response(BadRequest, "")) && used == old(used))
                && (d.ingredients.Some? ==>
                      && r == Success(rid)
                      && used == DropRecipes(old(used), {rid}) + RowsFor(rid, d.ingredients.value)
                      && RowsOf(used, rid) == d.ingredients.value
                      && (forall other :: other != rid ==> RowsOf(used, other) == RowsOf(old(used), other)))
    {
      if rid !in recipes {
        return Failure(Response(NotFound, ""));
      }
      var checked := ValidateRecipeData(ingredients.Keys, d, partial);
      if checked.Failure? {
        return Failure(checked.response);
      }
      var instance := AssignFields(recipes[rid], d);
      PatchedValid(ingredients.Keys, recipes[rid], d);
      RecipeReplaceKeepsConsistent(users, ingredients, recipes, used, cart, favorites, follows,
                                   nextUserId, nextRecipeId, rid, instance);
      recipes := recipes[rid := instance];
      if d.ingredients.None? {
        return Failure(Response(BadRequest, ""));
      }
      ReplaceIngredients(rid, d.ingredients.value);
      r := Success(rid);
    }

    /** instance.recipeName.all().delete() followed by create_ingredients: the recipe's rows
        become exactly the items, every other recipe keeps its rows. */
    method ReplaceIngredients(rid: RecipeId, items: seq<IngredientItem>)
      requires Valid() && rid in recipes
      requires forall it :: it in items ==> ItemValid(ingredients.Keys, it)
      modifies this`used
      ensures Valid()
      ensures used == DropRecipes(old(used), {rid}) + RowsFor(rid, items)
      ensures RowsOf(used, rid) == items
      ensures forall other :: other != rid ==> RowsOf(used, other) == RowsOf(old(used), other)
    {
      RowsAfterReplace(used, rid, items);
      used := DropRecipes(used, {rid});
      CreateIngredients(rid, items);
    }

    // ------------------------------------------------------------ deletes and their cascades

    /** Deleting a recipe: a missing one is a 404; otherwise the recipe goes with a 204, and with
        it (on_delete=CASCADE) every used-ingredient row, cart pair and favorite pair naming it. */
    method DeleteRecipe(rid: RecipeId) returns (resp: Response)
      requires Valid()
      modifies this`recipes, this`used, this`cart, this`favorites
      ensures Valid()
      ensures rid !in old(recipes) ==>
                && resp == Response(NotFound, "") && recipes == old(recipes) && used == old(used)
                && cart == old(cart) && favorites == old(favorites)
      ensures rid in old(recipes) ==>
                && resp == Response(NoContent, "")
                && recipes == old(recipes) - {rid}
                && used == DropRecipes(old(used), {rid})
                && cart == DropSecond(old(cart), {rid})
                && favorites == DropSecond(old(favorites), {rid})
    {
      if rid !in recipes {
        return Response(NotFound, "");
      }
      RecipeDeleteKeepsConsistent(users, ingredients, recipes, used, cart, favorites, follows,
                                  nextUserId, nextRecipeId, rid);
      recipes := recipes - {rid};
      used := DropRecipes(used, {rid});
      cart := DropSecond(cart, {rid});
      favorites := DropSecond(favorites, {rid});
      resp := Response(NoContent, "");
    }

    /** Deleting an ingredient takes every used-ingredient row naming it along (on_delete=CASCADE). */
    method DeleteIngredient(iid: IngredientId)
      requires Valid()
      modifies this`ingredients, this`used
      ensures Valid()
      ensures ingredients == old(ingredients) - {iid}
      ensures used == DropIngredient(old(used), iid)
    {
      ingredients := ingredients - {iid};
      used := DropIngredient(used, iid);
    }

    /** Deleting a user takes along every recipe they wrote (on_delete=CASCADE on author), those
        recipes' rows, and every cart, favorite and follow pair naming the user or one of those
        recipes. */
    method DeleteUser(uid: UserId)
      requires Valid()
      modifies this`users, this`recipes, this`used, this`cart, this`favorites, this`follows
      ensures Valid()
      ensures users == old(users) - {uid}
      ensures recipes == old(recipes) - AuthoredBy(old(recipes), uid)
      ensures used == DropRecipes(old(used), AuthoredBy(old(recipes), uid))
      ensures cart == DropFirst(DropSecond(old(cart), AuthoredBy(old(recipes), uid)), uid)
      ensures favorites == DropFirst(DropSecond(old(favorites), AuthoredBy(old(recipes), uid)), uid)
      ensures follows == DropFirst(DropSecond(old(follows), {uid}), uid)
    {
      var gone := AuthoredBy(recipes, uid);
      UserDeleteKeepsConsistent(users, ingredients, recipes, used, cart, favorites, follows,
                                nextUserId, nextRecipeId, uid);
      users := users - {uid};
      recipes := recipes - gone;
      used := DropRecipes(used, gone);
      cart := DropFirst(DropSecond(cart, gone), uid);
      favorites := DropFirst(DropSecond(favorites, gone), uid);
      follows := DropFirst(DropSecond(follows, {uid}), uid);
    }
  }
}
