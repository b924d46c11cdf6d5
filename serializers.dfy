/** The serializer logic of the API: validation of a recipe's ingredient list and fields, the
    used-ingredient rows a recipe write creates, the field assignments of an update, the
    recipes_limit truncation and the is_favorited / is_in_shopping_cart / is_subscribed flags. */
module Serializers {
  import opened Common
  import opened Text
  import opened RecipeModels
  import Relations

  // ---------------------------------------------------------------- ingredient list

  /** One item of the posted `ingredients` list: an ingredient id and an amount. */
  datatype IngredientItem = IngredientItem(ingredient: IngredientId, amount: int)

  /** The ingredient ids of the items, in order. */
  function Ids(items: seq<IngredientItem>): (ids: seq<IngredientId>)
    ensures |ids| == |items|
    ensures forall i :: 0 <= i < |items| ==> ids[i] == items[i].ingredient
  {
    seq(|items|, i requires 0 <= i < |items| => items[i].ingredient)
  }

  /** set(ids). */
  function Elements(s: seq<nat>): (e: set<nat>)
    ensures forall x :: x in e <==> x in s
    decreases |s|
  {
    if s == [] then {} else {s[0]} + Elements(s[1..])
  }

  /** No value occurs twice. */
  predicate Distinct(s: seq<nat>) {
    forall i, j :: 0 <= i < j < |s| ==> s[i] != s[j]
  }

  /** A sequence is distinct exactly when its head is not repeated and its tail is distinct. */
  lemma DistinctCons(s: seq<nat>)
    requires s != []
    ensures Distinct(s) <==> s[0] !in s[1..] && Distinct(s[1..])
  {
    var t := s[1..];
    if Distinct(s) {
      forall i, j | 0 <= i < j < |t| ensures t[i] != t[j] {
        assert t[i] == s[i + 1] && t[j] == s[j + 1];
      }
      forall j | 0 <= j < |t| ensures t[j] != s[0] {
        assert t[j] == s[j + 1];
      }
    }
    if s[0] !in t && Distinct(t) {
      forall i, j | 0 <= i < j < |s| ensures s[i] != s[j] {
        assert s[j] == t[j - 1];
        if i > 0 {
          assert s[i] == t[i - 1];
        }
      }
    }
  }

  /** len(ids) == len(set(ids)) holds exactly when the ids are pairwise distinct. */
  lemma {:induction false} DistinctIffNoShrink(s: seq<nat>)
    ensures |Elements(s)| <= |s|
    ensures |Elements(s)| == |s| <==> Distinct(s)
    decreases |s|
  {
    if s != [] {
      var t := s[1..];
      DistinctIffNoShrink(t);
      DistinctCons(s);
      assert Elements(s) == {s[0]} + Elements(t);
      if s[0] in t {
        assert Elements(s) == Elements(t);
      } else {
        assert |Elements(s)| == 1 + |Elements(t)|;
      }
    }
  }

  /** validate_ingredients: an empty list is refused, so is a list in which two items name one
      ingredient; any other list comes back unchanged. */
  function ValidateIngredients(items: seq<IngredientItem>): (r: Result<seq<IngredientItem>>)
    ensures r.Success? <==> items != [] && Distinct(Ids(items))
    ensures r.Success? ==> r.value == items
    ensures r.Failure? ==> r.response == Response(BadRequest, "")
  {
    if items == [] then Failure(Response(BadRequest, ""))
    else
      var ids := Ids(items);
      DistinctIffNoShrink(ids);
      if |ids| != |Elements(ids)| then Failure(Response(BadRequest, ""))
      else Success(items)
  }

  // ---------------------------------------------------------------- recipe fields

  /** The writable fields of a recipe as posted; a field left out of a partial update is None. */
  datatype RecipeData = RecipeData(name: Option<string>, image: Option<string>, text: Option<string>,
                                   cookingTime: Option<int>, ingredients: Option<seq<IngredientItem>>)
  {
    predicate Complete() {
      name.Some? && image.Some? && text.Some? && cookingTime.Some? && ingredients.Some?
    }
  }

  /** An item is well formed when its id names a stored ingredient (PrimaryKeyRelatedField) and
      its amount is at least 1 (the model's MinValueValidator). */
  predicate ItemValid(catalogue: set<IngredientId>, item: IngredientItem) {
    item.ingredient in catalogue && item.amount >= MinAmount
  }

  /** Every field that is present satisfies its validators: the model's bounds on name, text and
      cooking_time, validate_image on the image, and for the ingredient list the per-item checks
      and validate_ingredients. */
  predicate FieldsValid(catalogue: set<IngredientId>, d: RecipeData) {
    && (d.name.Some? ==> 0 < |d.name.value| <= RecipeNameMax)
    && (d.image.Some? ==> |d.image.value| > 0)
    && (d.text.Some? ==> |d.text.value| > 0)
    && (d.cookingTime.Some? ==> d.cookingTime.value >= MinCookingTime)
    && (d.ingredients.Some? ==>
          && d.ingredients.value != []
          && (forall it :: it in d.ingredients.value ==> ItemValid(catalogue, it))
          && Distinct(Ids(d.ingredients.value)))
  }

  /** is_valid(): a full write (create, PUT) needs every field, a partial one (PATCH) only checks
      the fields it carries; on success the data comes back unchanged, otherwise it is a 400 and
      nothing has been written. */
  function ValidateRecipeData(catalogue: set<IngredientId>, d: RecipeData, partial: bool): (r: Result<RecipeData>)
    ensures r.Success? <==> (partial || d.Complete()) && FieldsValid(catalogue, d)
    ensures r.Success? ==> r.value == d
    ensures r.Failure? ==> r.response.status == BadRequest
  {
    if !partial && !d.Complete() then Failure(Response(BadRequest, ""))
    else if d.name.Some? && !(0 < |d.name.value| <= RecipeNameMax) then Failure(Response(BadRequest, ""))
    else if d.image.Some? && |d.image.value| == 0 then Failure(Response(BadRequest, ""))
    else if d.text.Some? && |d.text.value| == 0 then Failure(Response(BadRequest, ""))
    else if d.cookingTime.Some? && d.cookingTime.value < MinCookingTime then Failure(Response(BadRequest, ""))
    else if d.ingredients.None? then Success(d)
    else if exists it :: it in d.ingredients.value && !ItemValid(catalogue, it) then Failure(Response(BadRequest, ""))
    else
      var checked := ValidateIngredients(d.ingredients.value);
      if checked.Failure? then Failure(checked.response) else Success(d)
  }

  // ---------------------------------------------------------------- rows of a recipe

  /** create_ingredients: one used-ingredient row of recipe `rid` per item, in order. */
  function RowsFor(rid: RecipeId, items: seq<IngredientItem>): (rows: seq<UsedIngredient>)
    ensures forall u :: u in rows ==> u.recipe == rid && IngredientItem(u.ingredient, u.amount) in items
    decreases |items|
  {
    if items == [] then [] else [UsedIngredient(rid, items[0].ingredient, items[0].amount)] + RowsFor(rid, items[1..])
  }

  /** recipe.recipeName.all(): the (ingredient, amount) of each row of recipe `rid`, in table order. */
  function RowsOf(rows: seq<UsedIngredient>, rid: RecipeId): seq<IngredientItem>
    decreases |rows|
  {
    if rows == [] then [] else RowOf(rows[0], rid) + RowsOf(rows[1..], rid)
  }

  /** The (ingredient, amount) of a row if it belongs to recipe `rid`. */
  function RowOf(u: UsedIngredient, rid: RecipeId): seq<IngredientItem> {
    if u.recipe == rid then [IngredientItem(u.ingredient, u.amount)] else []
  }

  /** The rows written for a list of items are, read back, exactly those items: one row per
      item, with its ingredient and amount, and no row for any other recipe. */
  lemma {:induction false} RowsOfRowsFor(rid: RecipeId, items: seq<IngredientItem>, other: RecipeId)
    ensures RowsOf(RowsFor(rid, items), rid) == items
    ensures other != rid ==> RowsOf(RowsFor(rid, items), other) == []
    decreases |items|
  {
    if items != [] {
      RowsOfRowsFor(rid, items[1..], other);
      assert items == [items[0]] + items[1..];
    }
  }

  /** Reading the rows of a recipe distributes over appending rows to the table. */
  lemma {:induction false} RowsOfAppend(a: seq<UsedIngredient>, b: seq<UsedIngredient>, rid: RecipeId)
    ensures RowsOf(a + b, rid) == RowsOf(a, rid) + RowsOf(b, rid)
    decreases |a|
  {
    var c := a + b;
    if a == [] {
      assert c == b;
    } else {
      assert c[0] == a[0];
      assert c[1..] == a[1..] + b;
      RowsOfAppend(a[1..], b, rid);
      calc {
        RowsOf(c, rid);
        RowOf(a[0], rid) + RowsOf(a[1..] + b, rid);
        RowOf(a[0], rid) + (RowsOf(a[1..], rid) + RowsOf(b, rid));
        (RowOf(a[0], rid) + RowsOf(a[1..], rid)) + RowsOf(b, rid);
      }
    }
  }

  /** A recipe none of whose id appears in the table has no rows. */
  lemma {:induction false} RowsOfAbsent(rows: seq<UsedIngredient>, rid: RecipeId)
    requires forall u :: u in rows ==> u.recipe != rid
    ensures RowsOf(rows, rid) == []
    decreases |rows|
  {
    if rows != [] {
      assert rows[0] in rows;
      assert forall u :: u in rows[1..] ==> u in rows;
      RowsOfAbsent(rows[1..], rid);
    }
  }

  /** Deleting the rows of some recipes leaves those recipes without rows and every other
      recipe with the rows it had. */
  lemma {:induction false} RowsOfDropRecipes(rows: seq<UsedIngredient>, gone: set<RecipeId>, rid: RecipeId)
    ensures rid in gone ==> RowsOf(DropRecipes(rows, gone), rid) == []
    ensures rid !in gone ==> RowsOf(DropRecipes(rows, gone), rid) == RowsOf(rows, rid)
    decreases |rows|
  {
    if rows != [] {
      RowsOfDropRecipes(rows[1..], gone, rid);
      if rows[0].recipe !in gone {
        assert DropRecipes(rows, gone) == [rows[0]] + DropRecipes(rows[1..], gone);
        assert ([rows[0]] + DropRecipes(rows[1..], gone))[1..] == DropRecipes(rows[1..], gone);
      }
    }
  }

  /** create: appending the rows of a new recipe (one whose id no row mentions yet) gives it
      exactly the posted items and leaves every other recipe's rows as they were. */
  lemma RowsAfterCreate(rows: seq<UsedIngredient>, rid: RecipeId, items: seq<IngredientItem>)
    requires forall u :: u in rows ==> u.recipe != rid
    ensures RowsOf(rows + RowsFor(rid, items), rid) == items
    ensures forall other :: other != rid ==> RowsOf(rows + RowsFor(rid, items), other) == RowsOf(rows, other)
  {
    RowsOfAppend(rows, RowsFor(rid, items), rid);
    RowsOfAbsent(rows, rid);
    RowsOfRowsFor(rid, items, rid);
    forall other | other != rid
      ensures RowsOf(rows + RowsFor(rid, items), other) == RowsOf(rows, other)
    {
      RowsOfAppend(rows, RowsFor(rid, items), other);
      RowsOfRowsFor(rid, items, other);
    }
  }

  /** update: deleting a recipe's rows and writing the items replaces its rows by exactly the
      items (nothing of the old list survives) and leaves every other recipe's rows as they were. */
  lemma RowsAfterReplace(rows: seq<UsedIngredient>, rid: RecipeId, items: seq<IngredientItem>)
    ensures RowsOf(DropRecipes(rows, {rid}) + RowsFor(rid, items), rid) == items
    ensures forall other :: other != rid ==>
              RowsOf(DropRecipes(rows, {rid}) + RowsFor(rid, items), other) == RowsOf(rows, other)
  {
    var kept := DropRecipes(rows, {rid});
    RowsAfterCreate(kept, rid, items);
    forall other | other != rid ensures RowsOf(kept, other) == RowsOf(rows, other) {
      RowsOfDropRecipes(rows, {rid}, other);
    }
  }

  // ---------------------------------------------------------------- update's setattr loop

  /** One entry of validated_data other than the ingredient list. */
  datatype FieldValue = Name(name: string) | Image(image: string) | Text(text: string) | CookingTime(minutes: int)

  /** The scalar entries of the data, in the serializer's field order. */
  function ScalarFields(d: RecipeData): seq<FieldValue> {
    (if d.name.Some? then [Name(d.name.value)] else [])
    + (if d.image.Some? then [Image(d.image.value)] else [])
    + (if d.text.Some? then [Text(d.text.value)] else [])
    + (if d.cookingTime.Some? then [CookingTime(d.cookingTime.value)] else [])
  }

  /** setattr(instance, attr, value) for one entry. */
  function SetAttr(r: Recipe, f: FieldValue): Recipe {
    match f
    case Name(n) => r.(name := n)
    case Image(i) => r.(image := Some(i))
    case Text(t) => r.(text := t)
    case CookingTime(m) => r.(cookingTime := m)
  }

  /** The recipe after the assignments of fs, in order. */
  function SetAttrs(r: Recipe, fs: seq<FieldValue>): Recipe
    decreases |fs|
  {
    if fs == [] then r else SetAttr(SetAttrs(r, fs[..|fs| - 1]), fs[|fs| - 1])
  }

  /** What an update promises for the scalar fields: each field present in the data takes the
      new value, each absent field and the author keep theirs. */
  function Patched(r: Recipe, d: RecipeData): Recipe {
    Recipe(r.author, d.name.GetOr(r.name), d.text.GetOr(r.text),
           if d.image.Some? then Some(d.image.value) else r.image,
           d.cookingTime.GetOr(r.cookingTime))
  }

  /** Running the assignments of the data's scalar fields gives the patched recipe. */
  lemma SetAttrsPatches(r: Recipe, d: RecipeData)
    ensures SetAttrs(r, ScalarFields(d)) == Patched(r, d)
  {
    var a := if d.name.Some? then [Name(d.name.value)] else [];
    var b := if d.image.Some? then [Image(d.image.value)] else [];
    var c := if d.text.Some? then [Text(d.text.value)] else [];
    var e := if d.cookingTime.Some? then [CookingTime(d.cookingTime.value)] else [];
    SetAttrsAppend(r, a, b);
    SetAttrsAppend(r, a + b, c);
    SetAttrsAppend(r, a + b + c, e);
  }

  lemma {:induction false} SetAttrsAppend(r: Recipe, fs: seq<FieldValue>, gs: seq<FieldValue>)
    ensures SetAttrs(r, fs + gs) == SetAttrs(SetAttrs(r, fs), gs)
    decreases |gs|
  {
    if gs == [] {
      assert fs + gs == fs;
    } else {
      assert (fs + gs)[..|fs + gs| - 1] == fs + gs[..|gs| - 1];
      assert (fs + gs)[|fs + gs| - 1] == gs[|gs| - 1];
      SetAttrsAppend(r, fs, gs[..|gs| - 1]);
    }
  }

  /** The setattr loop of update: assigns the data's scalar fields to the instance one by one. */
  method AssignFields(instance: Recipe, d: RecipeData) returns (r: Recipe)
    ensures r == Patched(instance, d)
  {
    var fields := ScalarFields(d);
    r := instance;
    for i := 0 to |fields|
      invariant r == SetAttrs(instance, fields[..i])
    {
      assert fields[..i + 1][..i] == fields[..i];
      r := SetAttr(r, fields[i]);
    }
    assert fields[..|fields|] == fields;
    SetAttrsPatches(instance, d);
  }

  /** A validated update keeps the recipe within its model's bounds. */
  lemma PatchedValid(catalogue: set<IngredientId>, r: Recipe, d: RecipeData)
    requires ValidRecipe(r)
    requires FieldsValid(catalogue, d)
    ensures ValidRecipe(Patched(r, d)) && Patched(r, d).author == r.author
  {
  }

  // ---------------------------------------------------------------- recipes_limit

  function Min(a: int, b: int): int {
    if a <= b then a else b
  }

  /** get_recipes: the author's recipes, cut to the first int(limit) when the limit is a digit
      string, all of them when the limit is absent or anything else (such as "-1" or ""). */
  function LimitRecipes<T>(recipes: seq<T>, limit: Option<string>): (r: seq<T>)
    ensures |r| <= |recipes| && r == recipes[..|r|]
    ensures limit.Some? && IsDigits(limit.value) ==> |r| == Min(ParseDigits(limit.value), |recipes|)
    ensures !(limit.Some? && IsDigits(limit.value)) ==> r == recipes
  {
    if limit.Some? && IsDigits(limit.value) then
      var n := ParseDigits(limit.value);
      if n < |recipes| then recipes[..n] else recipes
    else recipes
  }

  /** A limit written as str(n) keeps the first min(n, count) recipes. */
  lemma LimitFromNumber<T>(recipes: seq<T>, n: nat)
    ensures LimitRecipes(recipes, Some(NatToString(n))) == recipes[..Min(n, |recipes|)]
  {
    ParseNatToString(n);
  }

  // ---------------------------------------------------------------- membership flags

  /** Who sent the request. */
  datatype Requester = Anonymous | Authenticated(id: UserId)

  /** The serializer context key is_favorited_ids: the recipes the requester has favorited,
      empty for an anonymous requester. */
  function FavoritedIds(favorites: set<(UserId, RecipeId)>, requester: Requester): (ids: set<RecipeId>)
    ensures forall rid :: rid in ids <==> requester.Authenticated? && (requester.id, rid) in favorites
  {
    if requester.Authenticated? then set p | p in favorites && p.0 == requester.id :: p.1 else {}
  }

  /** get_is_favorited: membership in the context's id set, an absent set counting as empty. */
  function IsFavorited(favoritedIds: Option<set<RecipeId>>, rid: RecipeId): (b: bool)
    ensures favoritedIds.None? ==> !b
    ensures favoritedIds.Some? ==> (b <==> rid in favoritedIds.value)
  {
    rid in favoritedIds.GetOr({})
  }

  /** Through the context the views build, is_favorited says whether the requester has the
      recipe among their favorites; it is false for an anonymous requester and for a context
      that lacks the key. */
  lemma IsFavoritedMeansFavorite(favorites: set<(UserId, RecipeId)>, requester: Requester, rid: RecipeId)
    ensures IsFavorited(Some(FavoritedIds(favorites, requester)), rid) <==>
              requester.Authenticated? && (requester.id, rid) in favorites
    ensures !IsFavorited(None, rid)
  {
  }

  /** get_is_in_shopping_cart: false for an anonymous requester, else whether the pair is in the cart. */
  function IsInShoppingCart(cart: set<(UserId, RecipeId)>, requester: Requester, rid: RecipeId): (b: bool)
    ensures requester.Anonymous? ==> !b
    ensures requester.Authenticated? ==> (b <==> (requester.id, rid) in cart)
  {
    requester.Authenticated? && (requester.id, rid) in cart
  }

  /** UserSerializer.get_is_subscribed: false without a request or for an anonymous requester,
      else whether the requester follows the user shown. */
  function IsSubscribed(follows: set<(UserId, UserId)>, request: Option<Requester>, shown: UserId): (b: bool)
    ensures request.None? || request.value.Anonymous? ==> !b
    ensures request.Some? && request.value.Authenticated? ==> (b <==> (request.value.id, shown) in follows)
  {
    request.Some? && request.value.Authenticated? && (request.value.id, shown) in follows
  }

  /** FollowSerializer.get_is_subscribed: the request is always present there. */
  function FollowIsSubscribed(follows: set<(UserId, UserId)>, requester: Requester, shown: UserId): (b: bool)
    ensures requester.Anonymous? ==> !b
    ensures requester.Authenticated? ==> (b <==> (requester.id, shown) in follows)
  {
    requester.Authenticated? && (requester.id, shown) in follows
  }

  /** is_in_shopping_cart reports a pair after a successful add to the cart and no longer
      after a successful removal; it is never set for an anonymous requester. */
  lemma CartFlagFollowsToggles(cart: set<(UserId, RecipeId)>, user: UserId, rid: RecipeId, msg: string)
    ensures IsInShoppingCart(Relations.Insert(cart, (user, rid), msg).pairs, Authenticated(user), rid)
    ensures !IsInShoppingCart(Relations.Remove(cart, (user, rid), msg).pairs, Authenticated(user), rid)
    ensures !IsInShoppingCart(cart, Anonymous, rid)
  {
  }

  /** UserSerializer's is_subscribed is set after a successful subscribe and cleared after a
      successful unsubscribe; it is false without a request or for an anonymous requester. */
  lemma SubscribedFlagFollowsToggles(follows: set<(UserId, UserId)>, user: UserId, author: UserId)
    requires user != author
    ensures IsSubscribed(Relations.Follow(follows, user, author).pairs, Some(Authenticated(user)), author)
    ensures !IsSubscribed(Relations.Remove(follows, (user, author), "").pairs, Some(Authenticated(user)), author)
    ensures !IsSubscribed(follows, None, author) && !IsSubscribed(follows, Some(Anonymous), author)
  {
  }

  /** FollowSerializer's is_subscribed agrees with UserSerializer's whenever a request is present. */
  lemma FollowFlagAgrees(follows: set<(UserId, UserId)>, requester: Requester, shown: UserId)
    ensures FollowIsSubscribed(follows, requester, shown) == IsSubscribed(follows, Some(requester), shown)
  {
  }

  // ---------------------------------------------------------------- UserToRecipeSerializer

  /** UserToRecipeSerializer.validate: refuses when the user already holds the recipe in the
      relation named, otherwise hands the data back unchanged. */
  function ValidateUserToRecipe(related: set<(UserId, RecipeId)>, user: UserId, rid: RecipeId)
    : (r: Result<(UserId, RecipeId)>)
    ensures r.Success? <==> (user, rid) !in related
    ensures r.Success? ==> r.value == (user, rid)
    ensures r.Failure? ==> r.response == Response(BadRequest, Relations.CartDuplicateDetail)
  {
    if (user, rid) in related then Failure(Response(BadRequest, Relations.CartDuplicateDetail))
    else Success((user, rid))
  }
}
