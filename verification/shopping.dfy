/** The shopping list: adding a recipe's lines as items (`add_from_recipe`), checking
    an item off (`toggle_item`) and deleting the checked ones (`clear_checked_items`). */
module Shopping {
  import opened Outcomes
  import opened Schema

  /** Item `it` is a fresh copy of line `l`: same ingredient, quantity and unit, and
      unchecked, the column default. It keeps no link to the line or its recipe. */
  ghost predicate CopiesLine(it: Item, l: Line) {
    && it.ingredient == l.ingredient
    && it.quantity == l.quantity
    && it.unit == l.unit
    && !it.checked
  }

  /** The item stored under key `id` when a recipe's lines get item keys from `first` on. */
  function CopiedRow(lines: map<Id, Line>, ids: seq<Id>, first: Id, id: Id): Item
    requires first <= id < first + |ids|
    requires ids[id - first] in lines
  {
    var l := lines[ids[id - first]];
    Item(l.ingredient, l.quantity, l.unit, false)
  }

  /** The new items for the lines `ids`, under keys from `first` on, in line order. */
  function CopiedRows(lines: map<Id, Line>, ids: seq<Id>, first: Id): (rows: map<Id, Item>)
    requires forall i :: 0 <= i < |ids| ==> ids[i] in lines
    ensures forall id :: id in rows <==> first <= id < first + |ids|
    ensures forall i :: 0 <= i < |ids| ==> first + i in rows && CopiesLine(rows[first + i], lines[ids[i]])
  {
    var rows := map id | first <= id < first + |ids| :: CopiedRow(lines, ids, first, id);
    assert forall i :: 0 <= i < |ids| ==> rows[first + i] == CopiedRow(lines, ids, first, first + i) && ids[i] in lines;
    rows
  }

  /** One new unchecked item per line of the recipe, in line order; no deduplication
      against the items already on the list. An unknown recipe is not found. */
  function AddFromRecipe(s: Store, rid: Id): (r: Result<Store>)
    ensures r.Err? <==> rid !in s.recipes
    ensures r.Err? ==> r.error == NotFound
    ensures r.Ok? ==> r.value == AddLines(s, LinesOf(s, rid))
    ensures r.Ok? ==> var s' := r.value;
      && s'.ingredients == s.ingredients && s'.recipes == s.recipes && s'.lines == s.lines
      && s'.nextItem == s.nextItem + |LinesOf(s, rid)|
  {
    if rid !in s.recipes then Err(NotFound)
    else Ok(AddLines(s, LinesOf(s, rid)))
  }

  /** The inserts of `add_from_recipe`: item `nextItem + i` copies line `ids[i]`, and
      nothing but the items changes. */
  function AddLines(s: Store, ids: seq<Id>): (s': Store)
    requires forall i :: 0 <= i < |ids| ==> ids[i] in s.lines
    ensures s' == s.(items := s'.items, nextItem := s.nextItem + |ids|)
    ensures forall i :: 0 <= i < |ids| ==> s.nextItem + i in s'.items && CopiesLine(s'.items[s.nextItem + i], s.lines[ids[i]])
  {
    s.(items := s.items + CopiedRows(s.lines, ids, s.nextItem), nextItem := s.nextItem + |ids|)
  }

  /** Item `nextItem + i` of the list after the inserts is the copy of line `ids[i]`. */
  lemma AddLinesAt(s: Store, ids: seq<Id>, i: nat)
    requires forall i :: 0 <= i < |ids| ==> ids[i] in s.lines
    requires i < |ids|
    ensures var s' := AddLines(s, ids);
      && s'.ingredients == s.ingredients
      && s.nextItem + i in s'.items
      && CopiesLine(s'.items[s.nextItem + i], s.lines[ids[i]])
  {
  }

  /** The items already on the list stay as they were, and every other item is one of
      the new keys. */
  lemma AddLinesKeepsItems(s: Store, ids: seq<Id>)
    requires forall i :: 0 <= i < |ids| ==> ids[i] in s.lines
    requires forall id :: id in s.items ==> id < s.nextItem
    ensures var s' := AddLines(s, ids);
      && (forall id :: id in s.items ==> id in s'.items && s'.items[id] == s.items[id])
      && (forall id :: id in s'.items ==> id in s.items || s.nextItem <= id < s.nextItem + |ids|)
  {
    assert AddLines(s, ids).items == s.items + CopiedRows(s.lines, ids, s.nextItem);
  }

  /** Adding a recipe to a valid list keeps every constraint and grows the list by
      exactly as many items as the recipe has lines. */
  lemma AddFromRecipePreservesValid(s: Store, rid: Id)
    requires Valid(s)
    requires rid in s.recipes
    ensures var s' := AddFromRecipe(s, rid).value;
      && Valid(s')
      && |s'.items| == |s.items| + |LinesOf(s, rid)|
  {
    AddFromRecipeItemsValid(s, rid);
    AddFromRecipeCount(s, rid);
  }

  lemma AddFromRecipeItemsValid(s: Store, rid: Id)
    requires Valid(s)
    requires rid in s.recipes
    ensures Valid(AddFromRecipe(s, rid).value)
  {
    var ids := LinesOf(s, rid);
    var rows := CopiedRows(s.lines, ids, s.nextItem);
    assert AddFromRecipe(s, rid).value.items == s.items + rows;
    CopiedRowsValid(s, ids, s.nextItem);
  }

  /** The copies of linked lines whose units fit are linked items whose units fit. */
  lemma CopiedRowsValid(s: Store, ids: seq<Id>, first: Id)
    requires LinesLinked(s) && LengthsFit(s)
    requires forall i :: 0 <= i < |ids| ==> ids[i] in s.lines
    ensures var rows := CopiedRows(s.lines, ids, first);
      forall id :: id in rows ==> rows[id].ingredient in s.ingredients && Fits(rows[id].unit, UnitMax)
  {
    var rows := CopiedRows(s.lines, ids, first);
    forall id | id in rows ensures rows[id].ingredient in s.ingredients && Fits(rows[id].unit, UnitMax) {
      var i := id - first;
      assert CopiesLine(rows[first + i], s.lines[ids[i]]);
    }
  }

  lemma AddFromRecipeCount(s: Store, rid: Id)
    requires KeysBelowSequences(s)
    requires rid in s.recipes
    ensures |AddFromRecipe(s, rid).value.items| == |s.items| + |LinesOf(s, rid)|
  {
    var n := |LinesOf(s, rid)|;
    AddFromRecipeKeys(s, rid);
    assert s.items.Keys * KeyRange(s.nextItem, n) == {};
    KeyRangeSize(s.nextItem, n);
  }

  lemma AddFromRecipeKeys(s: Store, rid: Id)
    requires rid in s.recipes
    ensures AddFromRecipe(s, rid).value.items.Keys == s.items.Keys + KeyRange(s.nextItem, |LinesOf(s, rid)|)
  {
  }

  /** Adding the same recipe twice adds its lines twice: the list grows by two items
      per line, and the second call copies the very same lines. */
  lemma AddFromRecipeTwice(s: Store, rid: Id)
    requires Valid(s)
    requires rid in s.recipes
    ensures var s1 := AddFromRecipe(s, rid).value;
      && AddFromRecipe(s1, rid).Ok?
      && LinesOf(s1, rid) == LinesOf(s, rid)
      && |AddFromRecipe(s1, rid).value.items| == |s.items| + 2 * |LinesOf(s, rid)|
  {
    var s1 := AddFromRecipe(s, rid).value;
    AddFromRecipePreservesValid(s, rid);
    AddFromRecipePreservesValid(s1, rid);
    LinesFromFrame(s.lines, s1.lines, rid, 0, s.nextLine);
  }

  /** Flip one item's checked flag and report its new value; an unknown item is not found. */
  function ToggleItem(s: Store, id: Id): (r: Result<(Store, bool)>)
    ensures r.Err? <==> id !in s.items
    ensures r.Err? ==> r.error == NotFound
    ensures r.Ok? ==> var (s', checked) := r.value;
      && checked == !s.items[id].checked
      && s' == s.(items := s'.items)
      && s'.items.Keys == s.items.Keys
      && s'.items[id] == s.items[id].(checked := checked)
      && (forall other :: other in s.items && other != id ==> s'.items[other] == s.items[other])
  {
    if id !in s.items then Err(NotFound)
    else
      var item := s.items[id];
      var flipped := item.(checked := !item.checked);
      Ok((s.(items := s.items[id := flipped]), flipped.checked))
  }

  /** Toggling keeps every constraint, and toggling twice restores the store and
      reports the original flag. */
  lemma ToggleTwice(s: Store, id: Id)
    requires id in s.items
    ensures var (s1, c1) := ToggleItem(s, id).value;
      && (Valid(s) ==> Valid(s1))
      && ToggleItem(s1, id) == Ok((s, !c1))
      && !c1 == s.items[id].checked
  {
    var (s1, c1) := ToggleItem(s, id).value;
    var (s2, c2) := ToggleItem(s1, id).value;
    assert s2.items == s.items;
  }

  /** Delete every checked item in one statement; unchecked items survive unchanged. */
  function ClearChecked(s: Store): (s': Store)
    ensures s' == s.(items := s'.items)
    ensures forall id :: id in s'.items ==> id in s.items && s'.items[id] == s.items[id] && !s'.items[id].checked
    ensures forall id :: id in s.items && !s.items[id].checked ==> id in s'.items
  {
    s.(items := map id | id in s.items && !s.items[id].checked :: s.items[id])
  }

  /** Clearing keeps every constraint, is idempotent, and changes nothing when no item
      is checked. */
  lemma ClearCheckedFacts(s: Store)
    ensures Valid(s) ==> Valid(ClearChecked(s))
    ensures ClearChecked(ClearChecked(s)) == ClearChecked(s)
    ensures (forall id :: id in s.items ==> !s.items[id].checked) ==> ClearChecked(s) == s
  {
    var s1 := ClearChecked(s);
    assert ClearChecked(s1).items == s1.items;
    if forall id :: id in s.items ==> !s.items[id].checked {
      assert s1.items == s.items;
    }
  }
}
