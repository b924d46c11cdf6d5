/** The recipe catalogue tables: Ingredient, Recipe and the UsedIngredients join rows, with the
    bounds their field validators impose and the rows a cascading delete leaves behind. */
module RecipeModels {
  import opened Common

  const IngredientNameMax := 128
  const MeasurementUnitMax := 64
  const RecipeNameMax := 256
  /** MinValueValidator(1) on cooking_time and on amount. */
  const MinCookingTime := 1
  const MinAmount := 1

  datatype Ingredient = Ingredient(name: string, measurementUnit: string)

  /** name: CharField(max_length=128), measurement_unit: CharField(max_length=64); neither blank. */
  predicate ValidIngredient(i: Ingredient) {
    0 < |i.name| <= IngredientNameMax && 0 < |i.measurementUnit| <= MeasurementUnitMax
  }

  /** A recipe row; `image` is a stored file reference and may be null. */
  datatype Recipe = Recipe(author: UserId, name: string, text: string, image: Option<string>,
                           cookingTime: int)

  /** name: CharField(max_length=256), the description a non-blank TextField,
      cooking_time an integer of at least 1. */
  predicate ValidRecipe(r: Recipe) {
    0 < |r.name| <= RecipeNameMax && |r.text| > 0 && r.cookingTime >= MinCookingTime
  }

  /** One row of the recipe/ingredient join table. The model declares no uniqueness on
      (recipe, ingredient): a recipe may hold two rows for one ingredient as far as the table
      is concerned. */
  datatype UsedIngredient = UsedIngredient(recipe: RecipeId, ingredient: IngredientId, amount: int)

  predicate ValidUsedIngredient(u: UsedIngredient) {
    u.amount >= MinAmount
  }

  /** The rows left once the recipes in `gone` are deleted (on_delete=CASCADE on `recipe`). */
  function DropRecipes(rows: seq<UsedIngredient>, gone: set<RecipeId>): (r: seq<UsedIngredient>)
    ensures forall u :: u in r <==> u in rows && u.recipe !in gone
    ensures |r| <= |rows|
    decreases |rows|
  {
    if rows == [] then []
    else
      var tail := DropRecipes(rows[1..], gone);
      if rows[0].recipe in gone then tail else [rows[0]] + tail
  }

  /** The rows left once ingredient `gone` is deleted (on_delete=CASCADE on `ingredient`). */
  function DropIngredient(rows: seq<UsedIngredient>, gone: IngredientId): (r: seq<UsedIngredient>)
    ensures forall u :: u in r <==> u in rows && u.ingredient != gone
    ensures forall u :: multiset(r)[u] == if u.ingredient == gone then 0 else multiset(rows)[u]
    ensures |r| <= |rows|
    decreases |rows|
  {
    if rows == [] then []
    else
      assert rows == [rows[0]] + rows[1..];
      var tail := DropIngredient(rows[1..], gone);
      if rows[0].ingredient == gone then tail else [rows[0]] + tail
  }

  /** The recipes written by `author`. */
  function AuthoredBy(recipes: map<RecipeId, Recipe>, author: UserId): (ids: set<RecipeId>)
    ensures forall id :: id in ids <==> id in recipes && recipes[id].author == author
  {
    set id | id in recipes && recipes[id].author == author
  }
}
