/** Properties that span several requests: a recipe created and then put on the
    shopping list, and a shopping list that outlives the recipe it was copied from. */
module Scenarios {
  import opened Outcomes
  import opened Schema
  import opened Recipes
  import opened Shopping

  /** Item `it` carries entry `e`: an ingredient of the entry's name and the entry's
      quantity and unit, as the columns store them, unchecked. */
  ghost predicate ItemFromEntry(ingredients: map<Id, Ingredient>, it: Item, e: Entry) {
    && it.ingredient in ingredients
    && e.name.Some? && ingredients[it.ingredient].name == Stored(e.name.value, IngredientNameMax)
    && it.quantity == e.quantity
    && it.unit == StoredOpt(e.unit, UnitMax)
    && !it.checked
  }

  /** The items under keys `first`, `first + 1`, ... carry the entries `es`, in order. */
  ghost predicate ItemsCarry(s: Store, first: Id, es: seq<Entry>) {
    forall i :: 0 <= i < |es| ==> first + i in s.items && ItemFromEntry(s.ingredients, s.items[first + i], es[i])
  }

  /** Creating a recipe and then adding it to the shopping list puts one unchecked item
      per entry on the list, in input order, each naming the entry's ingredient with the
      entry's quantity and unit; the store stays valid throughout. */
  lemma CreateThenShop(s: Store, req: RecipeRequest)
    requires Valid(s)
    requires CreateRecipe(s, req).Ok?
    ensures var (s1, rid) := CreateRecipe(s, req).value;
      var s2 := AddFromRecipe(s1, rid).value;
      && Valid(s2)
      && |s2.items| == |s.items| + |req.entries|
      && ItemsCarry(s2, s1.nextItem, req.entries)
  {
    var (s1, rid) := CreateRecipe(s, req).value;
    CreateRecipePreservesValid(s, req);
    CreateRecipeLines(s, req);
    ShopRecipe(s, s1, rid, req.entries);
  }

  /** Adding to the list a recipe of a valid store whose lines were built from the
      entries `es`. */
  lemma ShopRecipe(s: Store, s1: Store, rid: Id, es: seq<Entry>)
    requires Valid(s1) && rid in s1.recipes
    requires |LinesOf(s1, rid)| == |es|
    requires forall i :: 0 <= i < |es| ==> LineFromEntry(s, s1.ingredients, s1.lines[LinesOf(s1, rid)[i]], es[i])
    ensures var s2 := AddFromRecipe(s1, rid).value;
      && Valid(s2)
      && |s2.items| == |s1.items| + |es|
      && ItemsCarry(s2, s1.nextItem, es)
  {
    var ids := LinesOf(s1, rid);
    forall i | 0 <= i < |es| ensures LineCarries(s1.ingredients, s1.lines[ids[i]], es[i]) {
      assert LineFromEntry(s, s1.ingredients, s1.lines[ids[i]], es[i]);
    }
    AddFromRecipePreservesValid(s1, rid);
    ItemsFromEntries(s1, ids, es);
  }

  /** The items added for lines that carry the entries `es` carry them too. */
  lemma ItemsFromEntries(s1: Store, ids: seq<Id>, es: seq<Entry>)
    requires |ids| == |es|
    requires forall i :: 0 <= i < |ids| ==> ids[i] in s1.lines
    requires forall i :: 0 <= i < |ids| ==> LineCarries(s1.ingredients, s1.lines[ids[i]], es[i])
    ensures ItemsCarry(AddLines(s1, ids), s1.nextItem, es)
  {
    var s2 := AddLines(s1, ids);
    forall i | 0 <= i < |es|
      ensures s1.nextItem + i in s2.items && ItemFromEntry(s2.ingredients, s2.items[s1.nextItem + i], es[i])
    {
      ItemFromEntryAt(s1, ids, es[i], i);
    }
  }

  /** The item added for line `ids[i]`, which carries entry `e`, carries it too. */
  lemma ItemFromEntryAt(s1: Store, ids: seq<Id>, e: Entry, i: nat)
    requires forall i :: 0 <= i < |ids| ==> ids[i] in s1.lines
    requires i < |ids| && LineCarries(s1.ingredients, s1.lines[ids[i]], e)
    ensures var s2 := AddLines(s1, ids);
      s1.nextItem + i in s2.items && ItemFromEntry(s2.ingredients, s2.items[s1.nextItem + i], e)
  {
    var s2 := AddLines(s1, ids);
    AddLinesAt(s1, ids, i);
    CopyCarries(s1.ingredients, s2.items[s1.nextItem + i], s1.lines[ids[i]], e);
  }

  /** A copy of a line that carries an entry carries it too, and is unchecked. */
  lemma CopyCarries(ingredients: map<Id, Ingredient>, it: Item, l: Line, e: Entry)
    requires CopiesLine(it, l) && LineCarries(ingredients, l, e)
    ensures ItemFromEntry(ingredients, it, e)
  {
  }

  /** Items copy a recipe's lines and keep no link to it: deleting the recipe after
      adding it to the list leaves every item as it was, and the store valid. */
  lemma ShoppingOutlivesRecipe(s: Store, rid: Id)
    requires Valid(s)
    requires rid in s.recipes
    ensures var s1 := AddFromRecipe(s, rid).value;
      && rid in s1.recipes
      && var s2 := DeleteRecipe(s1, rid).value;
      && s2.items == s1.items
      && Valid(s2)
      && LinesOf(s2, rid) == []
  {
    AddFromRecipePreservesValid(s, rid);
    DeleteRecipePreservesValid(AddFromRecipe(s, rid).value, rid);
  }
}
