/** The shopping-list download: the used-ingredient rows of the recipes in a user's cart are
    grouped by (ingredient name, measurement unit), their amounts summed per group, and each
    group rendered as one line "{name} — {total} ({unit})", the lines joined by "\n". */
module ShoppingList {
  import opened Common
  import opened Text
  import opened RecipeModels

  /** The grouping key: the ingredient's name and measurement unit, not its id. */
  datatype GroupKey = GroupKey(name: string, unit: string)

  /** One row of the aggregate: a key and the summed amount (totalSum). */
  datatype Group = Group(key: GroupKey, total: int)

  /** One used-ingredient row of a cart recipe, joined with its ingredient's name and unit. */
  datatype Entry = Entry(key: GroupKey, amount: int)

  const EmptyCartDetail := "Ваша корзина пуста."

  function KeyOf(i: Ingredient): GroupKey {
    GroupKey(i.name, i.measurementUnit)
  }

  /** The rows whose recipe is in the cart, each joined with its ingredient (the filter
      recipe_id__in=recipe_ids followed by values("ingredient__name",
      "ingredient__measurement_unit")). */
  function CartEntries(rows: seq<UsedIngredient>, cart: set<RecipeId>,
                       catalogue: map<IngredientId, Ingredient>): (entries: seq<Entry>)
    requires forall u :: u in rows ==> u.ingredient in catalogue
    ensures |entries| <= |rows|
    ensures forall e :: e in entries ==>
              exists u :: u in rows && u.recipe in cart && e == Entry(KeyOf(catalogue[u.ingredient]), u.amount)
    decreases |rows|
  {
    if rows == [] then []
    else
      var last := rows[|rows| - 1];
      assert forall u :: u in rows[..|rows| - 1] ==> u in rows;
      var init := CartEntries(rows[..|rows| - 1], cart, catalogue);
      if last.recipe in cart then init + [Entry(KeyOf(catalogue[last.ingredient]), last.amount)]
      else init
  }

  /** The (name, unit) pairs of the ingredients of the rows whose recipe is in the cart. */
  function CartKeys(rows: seq<UsedIngredient>, cart: set<RecipeId>,
                    catalogue: map<IngredientId, Ingredient>): set<GroupKey>
    requires forall u :: u in rows ==> u.ingredient in catalogue
  {
    set u | u in rows && u.recipe in cart :: KeyOf(catalogue[u.ingredient])
  }

  /** Reference definition of one group's total, read straight off the table: the sum of
      `amount` over every row of a cart recipe whose ingredient has the key's name and unit. */
  function RowSum(rows: seq<UsedIngredient>, cart: set<RecipeId>,
                  catalogue: map<IngredientId, Ingredient>, k: GroupKey): int
    requires forall u :: u in rows ==> u.ingredient in catalogue
    decreases |rows|
  {
    if rows == [] then 0
    else
      var u := rows[|rows| - 1];
      var init := RowSum(rows[..|rows| - 1], cart, catalogue, k);
      if u.recipe in cart && KeyOf(catalogue[u.ingredient]) == k then init + u.amount else init
  }

  /** Sum of the amounts of the entries with key k. */
  function SumFor(entries: seq<Entry>, k: GroupKey): int
    decreases |entries|
  {
    if entries == [] then 0
    else
      var last := entries[|entries| - 1];
      SumFor(entries[..|entries| - 1], k) + (if last.key == k then last.amount else 0)
  }

  /** The keys the entries mention. */
  function EntryKeys(entries: seq<Entry>): set<GroupKey> {
    set e | e in entries :: e.key
  }

  /** The keys of the groups. */
  function GroupKeys(groups: seq<Group>): set<GroupKey> {
    set g | g in groups :: g.key
  }

  /** No key labels two groups. */
  predicate DistinctKeys(groups: seq<Group>) {
    forall i, j :: 0 <= i < j < |groups| ==> groups[i].key != groups[j].key
  }

  /** The total reported for key k: that of the first group with key k, 0 when there is none. */
  function Total(groups: seq<Group>, k: GroupKey): int
    decreases |groups|
  {
    if groups == [] then 0
    else if groups[0].key == k then groups[0].total
    else Total(groups[1..], k)
  }

  /** The keys of a non-empty list of groups are its head's key and its tail's keys. */
  lemma GroupKeysCons(groups: seq<Group>)
    requires groups != []
    ensures GroupKeys(groups) == {groups[0].key} + GroupKeys(groups[1..])
  {
    assert groups == [groups[0]] + groups[1..];
  }

  /** With distinct keys, the head's key does not recur in the tail, and the tail is distinct. */
  lemma DistinctKeysTail(groups: seq<Group>)
    requires groups != [] && DistinctKeys(groups)
    ensures DistinctKeys(groups[1..])
    ensures groups[0].key !in GroupKeys(groups[1..])
  {
    var t := groups[1..];
    forall j | 0 <= j < |t| ensures t[j].key != groups[0].key {
      assert t[j] == groups[j + 1];
    }
  }

  /** Putting a group whose key is new in front of distinct groups keeps them distinct. */
  lemma DistinctKeysCons(g: Group, tail: seq<Group>)
    requires DistinctKeys(tail) && g.key !in GroupKeys(tail)
    ensures DistinctKeys([g] + tail)
  {
    var r := [g] + tail;
    forall i, j | 0 <= i < j < |r| ensures r[i].key != r[j].key {
      assert r[j] == tail[j - 1];
      if i > 0 {
        assert r[i] == tail[i - 1];
      } else {
        assert tail[j - 1] in tail;
      }
    }
  }

  /** Adds one entry's amount to its key's group, opening the group at the end when the key is new. */
  function AddEntry(groups: seq<Group>, e: Entry): (r: seq<Group>)
    requires DistinctKeys(groups)
    ensures DistinctKeys(r)
    ensures GroupKeys(r) == GroupKeys(groups) + {e.key}
    ensures forall k :: Total(r, k) == Total(groups, k) + (if k == e.key then e.amount else 0)
    decreases |groups|
  {
    if groups == [] then [Group(e.key, e.amount)]
    else
      GroupKeysCons(groups);
      DistinctKeysTail(groups);
      if groups[0].key == e.key then
        NoTotalWithoutKey(groups[1..], e.key);
        var r := [Group(e.key, groups[0].total + e.amount)] + groups[1..];
        DistinctKeysCons(r[0], groups[1..]);
        GroupKeysCons(r);
        r
      else
        var tail := AddEntry(groups[1..], e);
        var r := [groups[0]] + tail;
        DistinctKeysCons(groups[0], tail);
        GroupKeysCons(r);
        r
  }

  lemma NoTotalWithoutKey(groups: seq<Group>, k: GroupKey)
    requires k !in GroupKeys(groups)
    ensures Total(groups, k) == 0
    decreases |groups|
  {
    if groups != [] {
      assert groups[0] in groups;
      assert GroupKeys(groups[1..]) <= GroupKeys(groups);
      NoTotalWithoutKey(groups[1..], k);
    }
  }

  /** The group-by-sum of values(name, unit).annotate(totalSum=Sum("amount")): one group per key
      the entries mention, none twice, each with the sum of its entries' amounts. The groups
      appear in order of first occurrence, an order the query itself leaves unspecified; the
      totals and the key set do not depend on it, the rendered text does. */
  function Aggregate(entries: seq<Entry>): (groups: seq<Group>)
    ensures DistinctKeys(groups)
    ensures GroupKeys(groups) == EntryKeys(entries)
    ensures forall k :: Total(groups, k) == SumFor(entries, k)
    decreases |entries|
  {
    if entries == [] then []
    else
      var init := entries[..|entries| - 1];
      var last := entries[|entries| - 1];
      assert EntryKeys(entries) == EntryKeys(init) + {last.key} by {
        assert entries == init + [last];
      }
      AddEntry(Aggregate(init), last)
  }

  /** The total Total reports for a group's key is that group's own total. */
  lemma {:induction false} TotalOfGroup(groups: seq<Group>, i: nat)
    requires DistinctKeys(groups)
    requires i < |groups|
    ensures Total(groups, groups[i].key) == groups[i].total
    decreases i
  {
    if i > 0 {
      assert groups[0].key != groups[i].key;
      assert groups[1..][i - 1] == groups[i];
      TotalOfGroup(groups[1..], i - 1);
    }
  }

  /** Summing the joined entries per key is summing the table rows per key. */
  lemma {:induction false} CartEntriesSum(rows: seq<UsedIngredient>, cart: set<RecipeId>,
                                          catalogue: map<IngredientId, Ingredient>, k: GroupKey)
    requires forall u :: u in rows ==> u.ingredient in catalogue
    ensures SumFor(CartEntries(rows, cart, catalogue), k) == RowSum(rows, cart, catalogue, k)
    decreases |rows|
  {
    if rows != [] {
      var init := rows[..|rows| - 1];
      var last := rows[|rows| - 1];
      assert forall u :: u in init ==> u in rows;
      CartEntriesSum(init, cart, catalogue, k);
      var es := CartEntries(init, cart, catalogue);
      if last.recipe in cart {
        var e := Entry(KeyOf(catalogue[last.ingredient]), last.amount);
        assert (es + [e])[..|es + [e]| - 1] == es;
      }
    }
  }

  /** The cart yields no entry exactly when no row belongs to a recipe in the cart. */
  lemma {:induction false} CartEntriesEmpty(rows: seq<UsedIngredient>, cart: set<RecipeId>,
                                            catalogue: map<IngredientId, Ingredient>)
    requires forall u :: u in rows ==> u.ingredient in catalogue
    ensures CartEntries(rows, cart, catalogue) == [] <==> forall u :: u in rows ==> u.recipe !in cart
    decreases |rows|
  {
    if rows != [] {
      var init := rows[..|rows| - 1];
      assert rows == init + [rows[|rows| - 1]];
      assert forall u :: u in init ==> u in rows;
      CartEntriesEmpty(init, cart, catalogue);
    }
  }

  /** The keys of the joined entries are exactly the (name, unit) pairs of the cart rows'
      ingredients: each such pair is an entry's key, and each entry's key is such a pair. */
  lemma {:induction false} CartEntryKeys(rows: seq<UsedIngredient>, cart: set<RecipeId>,
                                         catalogue: map<IngredientId, Ingredient>)
    requires forall u :: u in rows ==> u.ingredient in catalogue
    ensures EntryKeys(CartEntries(rows, cart, catalogue)) == CartKeys(rows, cart, catalogue)
    decreases |rows|
  {
    if rows != [] {
      var init := rows[..|rows| - 1];
      var last := rows[|rows| - 1];
      assert rows == init + [last];
      assert forall u :: u in init ==> u in rows;
      CartEntryKeys(init, cart, catalogue);
      var es := CartEntries(init, cart, catalogue);
      if last.recipe in cart {
        var e := Entry(KeyOf(catalogue[last.ingredient]), last.amount);
        assert EntryKeys(es + [e]) == EntryKeys(es) + {e.key} by {
          assert forall x :: x in es + [e] <==> x in es || x == e;
        }
        assert CartKeys(rows, cart, catalogue) == CartKeys(init, cart, catalogue) + {e.key};
      } else {
        assert CartKeys(rows, cart, catalogue) == CartKeys(init, cart, catalogue);
      }
    }
  }

  /** What the shopping list promises, over the table itself: every group's total is the sum of
      `amount` over the cart rows whose ingredient carries that group's name and unit; the
      groups' keys are exactly the (name, unit) pairs of the cart rows, none twice; and the list is empty
      exactly when no row belongs to a recipe in the cart, which covers an empty cart and a cart
      whose recipes have no ingredients. */
  lemma ShoppingListTotals(rows: seq<UsedIngredient>, cart: set<RecipeId>,
                           catalogue: map<IngredientId, Ingredient>)
    requires forall u :: u in rows ==> u.ingredient in catalogue
    ensures var groups := Aggregate(CartEntries(rows, cart, catalogue));
      && DistinctKeys(groups)
      && (forall i :: 0 <= i < |groups| ==>
            groups[i].total == RowSum(rows, cart, catalogue, groups[i].key))
      && GroupKeys(groups) == CartKeys(rows, cart, catalogue)
      && (groups == [] <==> forall u :: u in rows ==> u.recipe !in cart)
  {
    var entries := CartEntries(rows, cart, catalogue);
    var groups := Aggregate(entries);
    forall i | 0 <= i < |groups|
      ensures groups[i].total == RowSum(rows, cart, catalogue, groups[i].key)
    {
      TotalOfGroup(groups, i);
      CartEntriesSum(rows, cart, catalogue, groups[i].key);
    }
    CartEntryKeys(rows, cart, catalogue);
    CartEntriesEmpty(rows, cart, catalogue);
    if entries != [] {
      assert entries[0] in entries;
      assert entries[0].key in GroupKeys(groups);
    }
  }

  /** Grouping is by name and unit: two cart rows land in one group exactly when their
      ingredients share name and unit, even when they are distinct ingredient records, and the
      same name with another unit stays a group of its own. */
  lemma GroupingByNameAndUnit(rows: seq<UsedIngredient>, cart: set<RecipeId>,
                              catalogue: map<IngredientId, Ingredient>, u1: UsedIngredient, u2: UsedIngredient)
    requires forall u :: u in rows ==> u.ingredient in catalogue
    requires u1 in rows && u1.recipe in cart && u2 in rows && u2.recipe in cart
    ensures var groups := Aggregate(CartEntries(rows, cart, catalogue));
      var i1, i2 := catalogue[u1.ingredient], catalogue[u2.ingredient];
      && (exists a :: 0 <= a < |groups| && groups[a].key == KeyOf(i1))
      && (forall a, b ::
            (0 <= a < |groups| && 0 <= b < |groups| &&
             groups[a].key == KeyOf(i1) && groups[b].key == KeyOf(i2)) ==>
            (a == b <==> i1.name == i2.name && i1.measurementUnit == i2.measurementUnit))
  {
    ShoppingListTotals(rows, cart, catalogue);
    var groups := Aggregate(CartEntries(rows, cart, catalogue));
    var k := KeyOf(catalogue[u1.ingredient]);
    assert k in GroupKeys(groups);
    var g :| g in groups && g.key == k;
    var a :| 0 <= a < |groups| && groups[a] == g;
  }

  /** With every amount at least 1 (MinValueValidator(1)), every reported total is at least 1. */
  lemma {:induction false} TotalsPositive(entries: seq<Entry>, k: GroupKey)
    requires forall e :: e in entries ==> e.amount >= MinAmount
    requires k in EntryKeys(entries)
    ensures SumFor(entries, k) >= MinAmount
    decreases |entries|
  {
    var init := entries[..|entries| - 1];
    var last := entries[|entries| - 1];
    assert entries == init + [last];
    assert forall e :: e in init ==> e in entries;
    SumNonNegative(init, k);
    if last.key != k {
      var e :| e in entries && e.key == k;
      assert e in init;
      TotalsPositive(init, k);
    }
  }

  /** With every row's amount at least 1, every group of the shopping list totals at least 1. */
  lemma ShoppingTotalsPositive(rows: seq<UsedIngredient>, cart: set<RecipeId>,
                               catalogue: map<IngredientId, Ingredient>)
    requires forall u :: u in rows ==> u.ingredient in catalogue && u.amount >= MinAmount
    ensures var groups := Aggregate(CartEntries(rows, cart, catalogue));
      forall i :: 0 <= i < |groups| ==> groups[i].total >= MinAmount
  {
    var entries := CartEntries(rows, cart, catalogue);
    var groups := Aggregate(entries);
    forall i | 0 <= i < |groups| ensures groups[i].total >= MinAmount {
      assert groups[i] in groups;
      TotalOfGroup(groups, i);
      TotalsPositive(entries, groups[i].key);
    }
  }

  lemma {:induction false} SumNonNegative(entries: seq<Entry>, k: GroupKey)
    requires forall e :: e in entries ==> e.amount >= 0
    ensures SumFor(entries, k) >= 0
    decreases |entries|
  {
    if entries != [] {
      var init := entries[..|entries| - 1];
      assert forall e :: e in init ==> e in entries;
      SumNonNegative(init, k);
    }
  }

  /** The line convertToTXT writes for one group: "{name} — {total} ({unit})". */
  function FormatLine(g: Group): string {
    g.key.name + " — " + IntToString(g.total) + " (" + g.key.unit + ")"
  }

  /** One line per group, in the groups' order. */
  function Lines(groups: seq<Group>): (lines: seq<string>)
    ensures |lines| == |groups|
    ensures forall i :: 0 <= i < |groups| ==> lines[i] == FormatLine(groups[i])
  {
    seq(|groups|, i requires 0 <= i < |groups| => FormatLine(groups[i]))
  }

  /** The text of the downloaded file. */
  function Render(groups: seq<Group>): string {
    JoinLines(Lines(groups))
  }

  /** convertToTXT: appends one formatted line per group to `lines`, then joins them with "\n". */
  method ConvertToTxt(groups: seq<Group>) returns (text: string)
    ensures text == Render(groups)
  {
    var lines: seq<string> := [];
    for i := 0 to |groups|
      invariant |lines| == i
      invariant forall j :: 0 <= j < i ==> lines[j] == FormatLine(groups[j])
    {
      var g := groups[i];
      var line := g.key.name + " — " + IntToString(g.total) + " (" + g.key.unit + ")";
      lines := lines + [line];
    }
    assert lines == Lines(groups);
    text := JoinLines(lines);
  }

  /** A line holds no newline when the ingredient's name and unit hold none. */
  lemma FormatLineSingle(g: Group)
    requires '\n' !in g.key.name && '\n' !in g.key.unit
    ensures '\n' !in FormatLine(g)
  {
    var digits := IntToString(g.total);
    assert '\n' !in " — " && '\n' !in " (" && '\n' !in ")";
    assert FormatLine(g) == g.key.name + " — " + digits + " (" + g.key.unit + ")";
  }

  /** The rendered text has exactly one line per group, in order, separated by single newlines
      with none trailing, provided no name or unit contains a newline; no groups render as "". */
  lemma RenderOneLinePerGroup(groups: seq<Group>)
    requires forall g :: g in groups ==> '\n' !in g.key.name && '\n' !in g.key.unit
    ensures groups == [] ==> Render(groups) == ""
    ensures groups != [] ==> SplitLines(Render(groups)) == Lines(groups)
  {
    var lines := Lines(groups);
    forall i | 0 <= i < |lines| ensures '\n' !in lines[i] {
      assert groups[i] in groups;
      FormatLineSingle(groups[i]);
    }
    if groups != [] {
      SplitJoinLines(lines);
    }
  }
}
