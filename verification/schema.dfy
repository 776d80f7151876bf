/** The four relations of the store and the constraints the schema declares on them. */
module Schema {
  import opened Outcomes

  /** Primary keys: autoincrement integers, one sequence per table. */
  type Id = nat

  /** A quantity is a SQL float that the application only ever copies; no arithmetic
      is done on it, so any type with equality would do. */
  type Quantity = real

  /** VARCHAR widths of the schema. */
  const IngredientNameMax: nat := 80
  const RecipeNameMax: nat := 120
  const UnitMax: nat := 30

  datatype Ingredient = Ingredient(name: string)

  datatype Recipe = Recipe(name: string, description: Option<string>)

  /** A RecipeIngredient row: one line of a recipe, owned by the recipe it names. */
  datatype Line = Line(recipe: Id, ingredient: Id, quantity: Option<Quantity>, unit: Option<string>)

  /** A ShoppingItem row. It names an ingredient but neither a recipe nor a line. */
  datatype Item = Item(ingredient: Id, quantity: Option<Quantity>, unit: Option<string>, checked: bool)

  /** The whole database: one map per table, and the next value of each table's key sequence. */
  datatype Store = Store(
    ingredients: map<Id, Ingredient>,
    recipes: map<Id, Recipe>,
    lines: map<Id, Line>,
    items: map<Id, Item>,
    nextIngredient: Id,
    nextRecipe: Id,
    nextLine: Id,
    nextItem: Id)

  /** A nullable VARCHAR(max) value that the column can hold as it is. */
  predicate Fits(s: Option<string>, max: nat) {
    s.None? || |s.value| <= max
  }

  /** PostgreSQL's rule for a value written to a VARCHAR(max) column: a longer value is
      refused unless every character past the width is a space. */
  predicate Storable(v: string, max: nat) {
    forall i :: max <= i < |v| ==> v[i] == ' '
  }

  /** The value a VARCHAR(max) column keeps: a storable value longer than the width is
      cut to the width (the cut-off part is spaces), a shorter one is kept as it is. */
  function Stored(v: string, max: nat): (r: string)
    ensures |r| <= max && r <= v
    ensures |v| <= max ==> r == v
    ensures |v| > max ==> |r| == max
  {
    if |v| <= max then v else v[..max]
  }

  predicate StorableOpt(v: Option<string>, max: nat) {
    v.None? || Storable(v.value, max)
  }

  /** `Stored` for a nullable column: NULL stays NULL. */
  function StoredOpt(v: Option<string>, max: nat): (r: Option<string>)
    ensures Fits(r, max)
    ensures r.None? <==> v.None?
    ensures v.Some? ==> r.value == Stored(v.value, max)
  {
    match v
    case None => None
    case Some(x) => Some(Stored(x, max))
  }

  /** Every key lies below its table's sequence, so a fresh key never collides. */
  ghost predicate KeysBelowSequences(s: Store) {
    && (forall id :: id in s.ingredients ==> id < s.nextIngredient)
    && (forall id :: id in s.recipes ==> id < s.nextRecipe)
    && (forall id :: id in s.lines ==> id < s.nextLine)
    && (forall id :: id in s.items ==> id < s.nextItem)
  }

  /** `unique=True` on the ingredient name. */
  ghost predicate NamesUnique(ingredients: map<Id, Ingredient>) {
    forall a, b :: a in ingredients && b in ingredients && ingredients[a].name == ingredients[b].name ==> a == b
  }

  /** The VARCHAR widths hold in every row. */
  ghost predicate LengthsFit(s: Store) {
    && (forall id :: id in s.ingredients ==> |s.ingredients[id].name| <= IngredientNameMax)
    && (forall id :: id in s.recipes ==> |s.recipes[id].name| <= RecipeNameMax)
    && (forall id :: id in s.lines ==> Fits(s.lines[id].unit, UnitMax))
    && (forall id :: id in s.items ==> Fits(s.items[id].unit, UnitMax))
  }

  /** The two foreign keys of RecipeIngredient: no orphan lines, no dangling ingredient. */
  ghost predicate LinesLinked(s: Store) {
    forall id :: id in s.lines ==> s.lines[id].recipe in s.recipes && s.lines[id].ingredient in s.ingredients
  }

  /** The foreign key of ShoppingItem. */
  ghost predicate ItemsLinked(s: Store) {
    forall id :: id in s.items ==> s.items[id].ingredient in s.ingredients
  }

  /** Everything the database guarantees about a committed state. Names are non-null
      by construction: a committed row always carries a string. */
  ghost predicate Valid(s: Store) {
    && KeysBelowSequences(s)
    && NamesUnique(s.ingredients)
    && LengthsFit(s)
    && LinesLinked(s)
    && ItemsLinked(s)
  }

  /** Some ingredient of the catalog is called exactly `name`. */
  ghost predicate Known(s: Store, name: string) {
    exists id :: id in s.ingredients && s.ingredients[id].name == name
  }

  /** A freshly initialised database. */
  function EmptyStore(): (s: Store)
    ensures Valid(s)
    ensures forall name :: !Known(s, name)
    ensures s.items == map[] && s.recipes == map[] && s.lines == map[]
  {
    Store(map[], map[], map[], map[], 1, 1, 1, 1)
  }

  /** The keys k, k+1, ..., k+n-1 in increasing order. */
  function Run(k: nat, n: nat): (ids: seq<Id>)
    decreases n
    ensures |ids| == n
  {
    if n == 0 then [] else [k] + Run(k + 1, n - 1)
  }

  /** The keys of `Run(k, n)` are exactly k .. k+n-1. */
  lemma {:induction false} RunElements(k: nat, n: nat)
    ensures forall id :: id in Run(k, n) <==> k <= id < k + n
    decreases n
  {
    if n > 0 {
      RunElements(k + 1, n - 1);
      assert Run(k, n) == [k] + Run(k + 1, n - 1);
    }
  }

  /** The keys k .. k+n-1 as a set: the elements of `Run(k, n)`. */
  function KeyRange(k: nat, n: nat): (keys: set<Id>)
    ensures forall id :: id in keys <==> k <= id < k + n
  {
    RunElements(k, n);
    set id | id in Run(k, n)
  }

  lemma {:induction false} KeyRangeSize(k: nat, n: nat)
    ensures |KeyRange(k, n)| == n
    decreases n
  {
    if n > 0 {
      KeyRangeSize(k + 1, n - 1);
      assert KeyRange(k, n) == {k} + KeyRange(k + 1, n - 1);
    }
  }

  lemma {:induction false} RunAt(k: nat, n: nat, i: nat)
    requires i < n
    ensures Run(k, n)[i] == k + i
    decreases n
  {
    if i > 0 {
      RunAt(k + 1, n - 1, i - 1);
    }
  }

  /** The keys among k .. bound-1 of the lines that belong to recipe `r`, in key order:
      the order in which the `recipe.ingredients` collection is loaded. */
  function LinesFrom(lines: map<Id, Line>, r: Id, k: nat, bound: nat): (ids: seq<Id>)
    decreases bound - k
    ensures forall i :: 0 <= i < |ids| ==> ids[i] in lines && lines[ids[i]].recipe == r && k <= ids[i] < bound
    ensures forall i, j :: 0 <= i < j < |ids| ==> ids[i] < ids[j]
  {
    if k >= bound then []
    else if k in lines && lines[k].recipe == r then [k] + LinesFrom(lines, r, k + 1, bound)
    else LinesFrom(lines, r, k + 1, bound)
  }

  /** The lines of recipe `r`, in key order. */
  function LinesOf(s: Store, r: Id): (ids: seq<Id>)
    ensures forall i :: 0 <= i < |ids| ==> ids[i] in s.lines && s.lines[ids[i]].recipe == r
    ensures forall i, j :: 0 <= i < j < |ids| ==> ids[i] < ids[j]
  {
    LinesFrom(s.lines, r, 0, s.nextLine)
  }

  /** In a store whose keys lie below their sequences, no line of `r` is missed. */
  lemma LinesOfComplete(s: Store, r: Id)
    requires KeysBelowSequences(s)
    ensures forall id :: id in s.lines && s.lines[id].recipe == r ==> id in LinesOf(s, r)
  {
    LinesFromComplete(s.lines, r, 0, s.nextLine);
  }

  /** The scan misses no line of `r` in its range. */
  lemma {:induction false} LinesFromComplete(lines: map<Id, Line>, r: Id, k: nat, bound: nat)
    ensures forall id :: k <= id < bound && id in lines && lines[id].recipe == r ==> id in LinesFrom(lines, r, k, bound)
    decreases bound - k
  {
    if k < bound {
      LinesFromComplete(lines, r, k + 1, bound);
    }
  }

  /** When the lines of `r` among k .. bound-1 are exactly the keys from `a` on, the
      scan returns that run of keys. */
  lemma {:induction false} LinesFromRun(lines: map<Id, Line>, r: Id, k: nat, a: nat, bound: nat)
    requires k <= a <= bound
    requires forall id :: k <= id < a && id in lines ==> lines[id].recipe != r
    requires forall id :: a <= id < bound ==> id in lines && lines[id].recipe == r
    ensures LinesFrom(lines, r, k, bound) == Run(a, bound - a)
    decreases bound - k
  {
    if k == bound {
    } else if k < a {
      LinesFromRun(lines, r, k + 1, a, bound);
    } else {
      LinesFromRun(lines, r, k + 1, k + 1, bound);
      LinesFromHit(lines, r, k, bound);
    }
  }

  lemma LinesFromHit(lines: map<Id, Line>, r: Id, k: nat, bound: nat)
    requires k < bound && k in lines && lines[k].recipe == r
    requires LinesFrom(lines, r, k + 1, bound) == Run(k + 1, bound - k - 1)
    ensures LinesFrom(lines, r, k, bound) == Run(k, bound - k)
  {
    assert LinesFrom(lines, r, k, bound) == [k] + LinesFrom(lines, r, k + 1, bound);
    assert Run(k, bound - k) == [k] + Run(k + 1, bound - k - 1);
  }

  /** A recipe that no line names has no lines. */
  lemma {:induction false} LinesFromNone(lines: map<Id, Line>, r: Id, k: nat, bound: nat)
    requires forall id :: id in lines ==> lines[id].recipe != r
    ensures LinesFrom(lines, r, k, bound) == []
    decreases bound - k
  {
    if k < bound {
      LinesFromNone(lines, r, k + 1, bound);
    }
  }

  /** Two scans agree when the lines they look at agree on recipe `r`. */
  lemma {:induction false} LinesFromFrame(lines: map<Id, Line>, lines': map<Id, Line>, r: Id, k: nat, bound: nat)
    requires forall id :: k <= id < bound ==> (id in lines && lines[id].recipe == r <==> id in lines' && lines'[id].recipe == r)
    ensures LinesFrom(lines, r, k, bound) == LinesFrom(lines', r, k, bound)
    decreases bound - k
  {
    if k < bound {
      LinesFromFrame(lines, lines', r, k + 1, bound);
    }
  }
}
