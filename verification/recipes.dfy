/** Creating a recipe with its ingredient lines (`recipe_add` / `recipe_create`, which
    run the same algorithm on a JSON body and on a form), and deleting one. */
module Recipes {
  import opened Outcomes
  import opened Schema
  import opened Catalog

  /** One decoded element of the request's ingredient array. A `name` of None is an
      element without a "name" key; quantity and unit are None when absent or null. */
  datatype Entry = Entry(name: Option<string>, quantity: Option<Quantity>, unit: Option<string>)

  /** A decoded create-recipe request. */
  datatype RecipeRequest = RecipeRequest(name: Option<string>, description: Option<string>, entries: seq<Entry>)

  /** A RecipeIngredient object built by the loop, not yet committed. */
  datatype DraftLine = DraftLine(target: Target, quantity: Option<Quantity>, unit: Option<string>)

  /** What the loop leaves behind: the names of the ingredient objects it created, in
      creation order, and the recipe's lines in input order. */
  datatype Draft = Draft(pending: seq<string>, lines: seq<DraftLine>)

  predicate AllNamed(entries: seq<Entry>) {
    forall i :: 0 <= i < |entries| ==> entries[i].name.Some?
  }

  predicate Distinct(names: seq<string>) {
    forall i, j :: 0 <= i < j < |names| ==> names[i] != names[j]
  }

  /** Draft line `i` was built from entry `e`: same quantity and unit, and it points at
      an ingredient carrying the entry's name, committed or created by this request. */
  ghost predicate Resolves(s: Store, d: Draft, i: nat, e: Entry)
    requires i < |d.lines|
  {
    && e.name.Some?
    && d.lines[i].quantity == e.quantity
    && d.lines[i].unit == e.unit
    && match d.lines[i].target
       case Existing(id) => id in s.ingredients && s.ingredients[id].name == e.name.value
       case Created(k) => k < |d.pending| && d.pending[k] == e.name.value
  }

  /** Entry `e` carries a name the catalog does not know. */
  ghost predicate IsNew(s: Store, e: Entry) {
    e.name.Some? && !Known(s, e.name.value)
  }

  /** Reference definition: the names of the batch that the catalog does not know, in
      input order, repeats included. */
  ghost function NewNames(s: Store, entries: seq<Entry>): seq<string>
  {
    if |entries| == 0 then []
    else
      var e := entries[0];
      (if IsNew(s, e) then [e.name.value] else []) + NewNames(s, entries[1..])
  }

  /** Reference definition: two entries of the batch carry names the catalog does not
      know and that the name column stores alike: the same name, or two names that
      differ only in spaces past the width. */
  ghost predicate NewNameRepeated(s: Store, entries: seq<Entry>) {
    exists i, j :: 0 <= i < j < |entries| && IsNew(s, entries[i]) && IsNew(s, entries[j])
      && Stored(entries[i].name.value, IngredientNameMax) == Stored(entries[j].name.value, IngredientNameMax)
  }

  /** The loop over the ingredient entries: find-or-create each name, then build the
      line with the entry's quantity and unit. An entry without a name raises and
      aborts the request. */
  function BuildDraft(s: Store, pending: seq<string>, entries: seq<Entry>): (r: Result<Draft>)
    decreases |entries|
    ensures r.Ok? <==> AllNamed(entries)
    ensures r.Err? ==> r.error == MissingField
    ensures r.Ok? ==> pending <= r.value.pending && |r.value.lines| == |entries|
    ensures r.Ok? ==> forall i :: 0 <= i < |entries| ==> Resolves(s, r.value, i, entries[i])
    ensures r.Ok? && KeysBelowSequences(s) ==> r.value.pending == pending + NewNames(s, entries)
  {
    if |entries| == 0 then Ok(Draft(pending, []))
    else if entries[0].name.None? then Err(MissingField)
    else
      var e := entries[0];
      var (t, pending') := FindOrCreate(s, pending, e.name.value);
      var rest :- BuildDraft(s, pending', entries[1..]);
      var d := Draft(rest.pending, [DraftLine(t, e.quantity, e.unit)] + rest.lines);
      DraftCons(s, rest, DraftLine(t, e.quantity, e.unit), entries);
      Ok(d)
  }

  /** Putting a line in front of a draft shifts the entries it resolves by one. */
  lemma DraftCons(s: Store, rest: Draft, dl: DraftLine, entries: seq<Entry>)
    requires 0 < |entries| && |rest.lines| == |entries| - 1
    requires forall i :: 0 <= i < |rest.lines| ==> Resolves(s, rest, i, entries[1..][i])
    ensures var d := Draft(rest.pending, [dl] + rest.lines);
      forall i :: 1 <= i < |entries| ==> Resolves(s, d, i, entries[i])
  {
    var d := Draft(rest.pending, [dl] + rest.lines);
    forall i | 1 <= i < |entries| ensures Resolves(s, d, i, entries[i]) {
      assert entries[1..][i - 1] == entries[i] && d.lines[i] == rest.lines[i - 1];
      assert Resolves(s, rest, i - 1, entries[1..][i - 1]);
    }
  }

  /** No created ingredient carries the name of a committed one. */
  predicate PendingNew(s: Store, pending: seq<string>) {
    forall k, id :: 0 <= k < |pending| && id in s.ingredients ==> s.ingredients[id].name != pending[k]
  }

  /** The names the created ingredient rows hold: each as the name column stores it. */
  function Cut(names: seq<string>): (cut: seq<string>)
    ensures |cut| == |names|
    ensures forall k :: 0 <= k < |names| ==> |cut[k]| <= IngredientNameMax && cut[k] <= names[k]
    ensures forall k :: 0 <= k < |names| ==> cut[k] == Stored(names[k], IngredientNameMax)
  {
    seq(|names|, k requires 0 <= k < |names| => Stored(names[k], IngredientNameMax))
  }

  /** No created ingredient, as its row stores the name, carries the name of a
      committed one. */
  predicate CutNew(s: Store, pending: seq<string>) {
    forall k, id :: 0 <= k < |pending| && id in s.ingredients ==> s.ingredients[id].name != Stored(pending[k], IngredientNameMax)
  }

  /** What the database checks when the request commits. Each width is checked by
      PostgreSQL's rule, which lets a longer value through when the excess is spaces;
      uniqueness is checked on the names as stored. */
  predicate CommitAccepts(s: Store, name: Option<string>, d: Draft) {
    // Recipe.name: NOT NULL, VARCHAR(120)
    && name.Some? && Storable(name.value, RecipeNameMax)
    // Ingredient.name: VARCHAR(80), UNIQUE among the new rows and against the committed ones
    && NamesStorable(d.pending)
    && Distinct(Cut(d.pending))
    && CutNew(s, d.pending)
    // RecipeIngredient.unit: VARCHAR(30)
    && UnitsStorable(d.lines)
  }

  /** Every name of `names` can be stored in the ingredient name column. */
  predicate NamesStorable(names: seq<string>) {
    forall k :: 0 <= k < |names| ==> Storable(names[k], IngredientNameMax)
  }

  /** Every unit of `lines` can be stored in the unit column. */
  predicate UnitsStorable(lines: seq<DraftLine>) {
    forall i :: 0 <= i < |lines| ==> StorableOpt(lines[i].unit, UnitMax)
  }

  /** The row a draft line becomes once the new ingredients got keys from `base` on. */
  function LineRow(recipe: Id, base: Id, dl: DraftLine): Line {
    var ingredient := match dl.target
      case Existing(id) => id
      case Created(k) => base + k;
    Line(recipe, ingredient, dl.quantity, StoredOpt(dl.unit, UnitMax))
  }

  /** The ingredient row created for key `id` when the new names get keys from `base` on. */
  function CreatedRow(pending: seq<string>, base: Id, id: Id): Ingredient
    requires base <= id < base + |pending|
  {
    Ingredient(Stored(pending[id - base], IngredientNameMax))
  }

  /** The line row stored under key `id` when the draft's lines get keys from `first` on. */
  function DraftRow(recipe: Id, base: Id, lines: seq<DraftLine>, first: Id, id: Id): Line
    requires first <= id < first + |lines|
  {
    LineRow(recipe, base, lines[id - first])
  }

  /** The ingredient rows created for the names `pending`, under keys from `base` on. */
  function CreatedRows(pending: seq<string>, base: Id): (rows: map<Id, Ingredient>)
    ensures forall id :: id in rows <==> base <= id < base + |pending|
    ensures forall id :: id in rows ==> rows[id] == CreatedRow(pending, base, id)
  {
    map id | base <= id < base + |pending| :: CreatedRow(pending, base, id)
  }

  /** The line rows of recipe `recipe` for the draft lines `lines`, under keys from `first` on. */
  function DraftRows(recipe: Id, base: Id, lines: seq<DraftLine>, first: Id): (rows: map<Id, Line>)
    ensures forall id :: id in rows <==> first <= id < first + |lines|
    ensures forall id :: id in rows ==> rows[id] == DraftRow(recipe, base, lines, first, id)
  {
    map id | first <= id < first + |lines| :: DraftRow(recipe, base, lines, first, id)
  }

  /** The inserts of the commit: the created ingredients, the recipe, its lines. */
  function Insert(s: Store, name: string, description: Option<string>, d: Draft): Store {
    var rid := s.nextRecipe;
    var base := s.nextIngredient;
    Store(s.ingredients + CreatedRows(d.pending, base), s.recipes[rid := Recipe(Stored(name, RecipeNameMax), description)],
          s.lines + DraftRows(rid, base, d.lines, s.nextLine), s.items,
          base + |d.pending|, rid + 1, s.nextLine + |d.lines|, s.nextItem)
  }

  /** The single commit of the request: everything or nothing. */
  function Commit(s: Store, name: Option<string>, description: Option<string>, d: Draft): Result<(Store, Id)> {
    if CommitAccepts(s, name, d) then Ok((Insert(s, name.value, description, d), s.nextRecipe))
    else Err(ConstraintViolation)
  }

  /** Every committed row of `s` is still in `s'`, unchanged. */
  ghost predicate Extends(s: Store, s': Store) {
    && (forall id :: id in s.ingredients ==> id in s'.ingredients && s'.ingredients[id] == s.ingredients[id])
    && (forall id :: id in s.recipes ==> id in s'.recipes && s'.recipes[id] == s.recipes[id])
    && (forall id :: id in s.lines ==> id in s'.lines && s'.lines[id] == s.lines[id])
  }

  /** `s'` is `s` plus one recipe under the fresh key `rid`: every committed row is
      kept, and every new line belongs to `rid`. */
  ghost predicate AddsRecipe(s: Store, s': Store, rid: Id) {
    && rid !in s.recipes
    && Extends(s, s')
    && (forall id :: id in s'.lines && id !in s.lines ==> s'.lines[id].recipe == rid)
  }

  /** Create a recipe: run the loop, then commit once. On success the result carries the
      new store and the recipe's key. */
  function CreateRecipe(s: Store, req: RecipeRequest): (r: Result<(Store, Id)>)
    ensures !AllNamed(req.entries) ==> r == Err(MissingField)
    ensures r.Err? ==> r.error != NotFound
    ensures r.Ok? ==> var (s', rid) := r.value;
      && rid in s'.recipes
      && req.name.Some? && s'.recipes[rid].name == Stored(req.name.value, RecipeNameMax)
      && s'.recipes[rid].description == req.description
      && s'.recipes.Keys == s.recipes.Keys + {rid}
      && s'.items == s.items
      && (KeysBelowSequences(s) ==> AddsRecipe(s, s', rid))
  {
    var d :- BuildDraft(s, [], req.entries);
    Commit(s, req.name, req.description, d)
  }

  /** Reference definition of when a create request commits: every entry has a name;
      the recipe name is present; the recipe name, every unit and every name new to the
      catalog fit their columns or exceed them by spaces only; no new name is stored as
      the name of a committed ingredient; and no two new names are stored alike. */
  ghost predicate Admissible(s: Store, req: RecipeRequest) {
    var es := req.entries;
    && AllNamed(es)
    && req.name.Some? && Storable(req.name.value, RecipeNameMax)
    && EntryUnitsStorable(es)
    && NewEntriesStorable(s, es)
    && NewEntriesFree(s, es)
    && !NewNameRepeated(s, es)
  }

  /** Every entry's unit fits the unit column or exceeds it by spaces only. */
  ghost predicate EntryUnitsStorable(es: seq<Entry>) {
    forall i :: 0 <= i < |es| ==> StorableOpt(es[i].unit, UnitMax)
  }

  /** Every name new to the catalog fits the name column or exceeds it by spaces only. */
  ghost predicate NewEntriesStorable(s: Store, es: seq<Entry>) {
    forall i :: 0 <= i < |es| && IsNew(s, es[i]) ==> Storable(es[i].name.value, IngredientNameMax)
  }

  /** No name new to the catalog is stored as the name of a committed ingredient. */
  ghost predicate NewEntriesFree(s: Store, es: seq<Entry>) {
    forall i :: 0 <= i < |es| && IsNew(s, es[i]) ==> !Known(s, Stored(es[i].name.value, IngredientNameMax))
  }

  /** A name is among the new names exactly when some entry carries it and the
      catalog does not know it. */
  lemma {:induction false} NewNamesMember(s: Store, entries: seq<Entry>, x: string)
    ensures x in NewNames(s, entries) <==> exists i :: 0 <= i < |entries| && entries[i].name == Some(x) && !Known(s, x)
    decreases |entries|
  {
    if |entries| > 0 {
      var tail := entries[1..];
      NewNamesMember(s, tail, x);
      var e := entries[0];
      var head := if IsNew(s, e) then [e.name.value] else [];
      assert NewNames(s, entries) == head + NewNames(s, tail);
      if x in NewNames(s, entries) {
        if x in head {
          assert entries[0].name == Some(x) && !Known(s, x);
        } else {
          var i :| 0 <= i < |tail| && tail[i].name == Some(x) && !Known(s, x);
          assert entries[i + 1].name == Some(x);
        }
      }
      if exists i :: 0 <= i < |entries| && entries[i].name == Some(x) && !Known(s, x) {
        var i :| 0 <= i < |entries| && entries[i].name == Some(x) && !Known(s, x);
        if i == 0 {
          assert x in head;
        } else {
          assert tail[i - 1].name == Some(x);
        }
      }
    }
  }

  /** A stored name is among the stored new names exactly when some new entry's name is
      stored as it. */
  lemma {:induction false} CutMember(s: Store, entries: seq<Entry>, y: string)
    ensures y in Cut(NewNames(s, entries)) <==>
      exists i :: 0 <= i < |entries| && IsNew(s, entries[i]) && Stored(entries[i].name.value, IngredientNameMax) == y
    decreases |entries|
  {
    if |entries| > 0 {
      var tail := entries[1..];
      CutMember(s, tail, y);
      var e := entries[0];
      var head := if IsNew(s, e) then [e.name.value] else [];
      assert NewNames(s, entries) == head + NewNames(s, tail);
      assert Cut(NewNames(s, entries)) == Cut(head) + Cut(NewNames(s, tail));
      if y in Cut(NewNames(s, entries)) {
        if y in Cut(head) {
          assert IsNew(s, entries[0]) && Stored(entries[0].name.value, IngredientNameMax) == y;
        } else {
          var i :| 0 <= i < |tail| && IsNew(s, tail[i]) && Stored(tail[i].name.value, IngredientNameMax) == y;
          assert entries[i + 1] == tail[i];
        }
      }
      if exists i :: 0 <= i < |entries| && IsNew(s, entries[i]) && Stored(entries[i].name.value, IngredientNameMax) == y {
        var i :| 0 <= i < |entries| && IsNew(s, entries[i]) && Stored(entries[i].name.value, IngredientNameMax) == y;
        if i == 0 {
          assert Cut(head)[0] == y;
        } else {
          assert tail[i - 1] == entries[i];
        }
      }
    }
  }

  lemma DistinctCons(x: string, xs: seq<string>)
    ensures Distinct([x] + xs) <==> x !in xs && Distinct(xs)
  {
    var ys := [x] + xs;
    if x !in xs && Distinct(xs) {
      forall i, j | 0 <= i < j < |ys| ensures ys[i] != ys[j] {
        if i > 0 {
          assert ys[i] == xs[i - 1] && ys[j] == xs[j - 1];
        } else {
          assert ys[j] == xs[j - 1];
        }
      }
    }
    if Distinct(ys) {
      forall i, j | 0 <= i < j < |xs| ensures xs[i] != xs[j] {
        assert xs[i] == ys[i + 1] && xs[j] == ys[j + 1];
      }
      forall j | 0 <= j < |xs| ensures xs[j] != x {
        assert ys[0] == x && ys[j + 1] == xs[j];
        assert ys[0] != ys[j + 1];
      }
    }
  }

  /** A pair of new names stored alike either starts at the first entry or lies in the rest. */
  lemma RepeatedSplit(s: Store, entries: seq<Entry>)
    requires |entries| > 0
    ensures NewNameRepeated(s, entries) <==>
      || NewNameRepeated(s, entries[1..])
      || (&& IsNew(s, entries[0])
          && exists j :: 0 <= j < |entries[1..]| && IsNew(s, entries[1..][j])
               && Stored(entries[1..][j].name.value, IngredientNameMax) == Stored(entries[0].name.value, IngredientNameMax))
  {
    var tail := entries[1..];
    if NewNameRepeated(s, entries) {
      var i, j :| 0 <= i < j < |entries| && IsNew(s, entries[i]) && IsNew(s, entries[j])
        && Stored(entries[i].name.value, IngredientNameMax) == Stored(entries[j].name.value, IngredientNameMax);
      if i == 0 {
        assert tail[j - 1] == entries[j];
      } else {
        assert tail[i - 1] == entries[i] && tail[j - 1] == entries[j];
      }
    }
    if NewNameRepeated(s, tail) {
      var i, j :| 0 <= i < j < |tail| && IsNew(s, tail[i]) && IsNew(s, tail[j])
        && Stored(tail[i].name.value, IngredientNameMax) == Stored(tail[j].name.value, IngredientNameMax);
      assert entries[i + 1] == tail[i] && entries[j + 1] == tail[j];
    }
    if IsNew(s, entries[0]) {
      var first := Stored(entries[0].name.value, IngredientNameMax);
      if exists j :: 0 <= j < |tail| && IsNew(s, tail[j]) && Stored(tail[j].name.value, IngredientNameMax) == first {
        var j :| 0 <= j < |tail| && IsNew(s, tail[j]) && Stored(tail[j].name.value, IngredientNameMax) == first;
        assert entries[j + 1] == tail[j];
      }
    }
  }

  /** The new names of a batch are stored as pairwise distinct names exactly when no
      two of them are stored alike. */
  lemma {:induction false} NewNamesDistinct(s: Store, entries: seq<Entry>)
    ensures Distinct(Cut(NewNames(s, entries))) <==> !NewNameRepeated(s, entries)
    decreases |entries|
  {
    if |entries| > 0 {
      var tail := entries[1..];
      NewNamesDistinct(s, tail);
      RepeatedSplit(s, entries);
      var e := entries[0];
      if IsNew(s, e) {
        var x := e.name.value;
        var y := Stored(x, IngredientNameMax);
        CutMember(s, tail, y);
        DistinctCons(y, Cut(NewNames(s, tail)));
        assert NewNames(s, entries) == [x] + NewNames(s, tail);
        assert Cut(NewNames(s, entries)) == [y] + Cut(NewNames(s, tail));
      } else {
        assert NewNames(s, entries) == NewNames(s, tail);
      }
    }
  }

  /** Create-recipe is all or nothing, and it commits exactly for the admissible
      requests: a missing entry name, a missing recipe name, a recipe name, unit or new
      ingredient name too long for its column (by more than spaces), a new name stored
      as a committed one, or two new names stored alike makes the whole request fail. */
  lemma CreateRecipeSucceedsIff(s: Store, req: RecipeRequest)
    requires Valid(s)
    ensures CreateRecipe(s, req).Ok? <==> Admissible(s, req)
  {
    var es := req.entries;
    if AllNamed(es) {
      var d := BuildDraft(s, [], es).value;
      assert CreateRecipe(s, req) == Commit(s, req.name, req.description, d);
      CommitAcceptsIff(s, req, d);
    }
  }

  /** The commit-time checks on the loop's draft, restated on the request. */
  lemma CommitAcceptsIff(s: Store, req: RecipeRequest, d: Draft)
    requires KeysBelowSequences(s) && AllNamed(req.entries)
    requires BuildDraft(s, [], req.entries) == Ok(d)
    ensures CommitAccepts(s, req.name, d) <==> Admissible(s, req)
  {
    DraftAcceptsIff(s, req, d);
  }

  /** The same, for any draft whose created names are the batch's new names and whose
      lines were built from the entries. */
  lemma DraftAcceptsIff(s: Store, req: RecipeRequest, d: Draft)
    requires AllNamed(req.entries)
    requires d.pending == NewNames(s, req.entries)
    requires |d.lines| == |req.entries|
    requires forall i :: 0 <= i < |req.entries| ==> Resolves(s, d, i, req.entries[i])
    ensures CommitAccepts(s, req.name, d) <==> Admissible(s, req)
  {
    var es := req.entries;
    NewNamesDistinct(s, es);
    NewNamesFitIff(s, es);
    NewNamesCutNewIff(s, es);
    DraftUnitsIff(s, es, d);
  }

  /** Every new name can be stored exactly when every entry whose name is new can. */
  lemma NewNamesFitIff(s: Store, es: seq<Entry>)
    requires AllNamed(es)
    ensures NamesStorable(NewNames(s, es)) <==> NewEntriesStorable(s, es)
  {
    var added := NewNames(s, es);
    if forall k :: 0 <= k < |added| ==> Storable(added[k], IngredientNameMax) {
      forall i | 0 <= i < |es| && IsNew(s, es[i])
        ensures Storable(es[i].name.value, IngredientNameMax)
      {
        NewNamesMember(s, es, es[i].name.value);
      }
    }
    if forall i :: 0 <= i < |es| && IsNew(s, es[i]) ==> Storable(es[i].name.value, IngredientNameMax) {
      forall k | 0 <= k < |added| ensures Storable(added[k], IngredientNameMax) {
        NewNamesMember(s, es, added[k]);
      }
    }
  }

  /** No new name is stored as a committed name exactly when no new entry's name is. */
  lemma NewNamesCutNewIff(s: Store, es: seq<Entry>)
    requires AllNamed(es)
    ensures CutNew(s, NewNames(s, es)) <==> NewEntriesFree(s, es)
  {
    var added := NewNames(s, es);
    if CutNew(s, added) {
      forall i | 0 <= i < |es| && IsNew(s, es[i])
        ensures !Known(s, Stored(es[i].name.value, IngredientNameMax))
      {
        NewNamesMember(s, es, es[i].name.value);
        var k :| 0 <= k < |added| && added[k] == es[i].name.value;
      }
    }
    if forall i :: 0 <= i < |es| && IsNew(s, es[i]) ==> !Known(s, Stored(es[i].name.value, IngredientNameMax)) {
      forall k, id | 0 <= k < |added| && id in s.ingredients
        ensures s.ingredients[id].name != Stored(added[k], IngredientNameMax)
      {
        NewNamesMember(s, es, added[k]);
      }
    }
  }

  /** The draft's units can be stored exactly when the entries' units can. */
  lemma DraftUnitsIff(s: Store, es: seq<Entry>, d: Draft)
    requires |d.lines| == |es|
    requires forall i :: 0 <= i < |es| ==> Resolves(s, d, i, es[i])
    ensures UnitsStorable(d.lines) <==> EntryUnitsStorable(es)
  {
    forall i | 0 <= i < |es| ensures d.lines[i].unit == es[i].unit {
      assert Resolves(s, d, i, es[i]);
    }
  }

  /** Every draft line points at a committed ingredient or at a created one. */
  ghost predicate TargetsResolve(s: Store, d: Draft) {
    forall i :: 0 <= i < |d.lines| ==> match d.lines[i].target
      case Existing(id) => id in s.ingredients
      case Created(k) => k < |d.pending|
  }

  lemma DraftTargetsResolve(s: Store, es: seq<Entry>, d: Draft)
    requires BuildDraft(s, [], es) == Ok(d)
    ensures TargetsResolve(s, d)
  {
    forall i | 0 <= i < |d.lines| ensures match d.lines[i].target
      case Existing(id) => id in s.ingredients
      case Created(k) => k < |d.pending|
    {
      assert Resolves(s, d, i, es[i]);
    }
  }

  /** The inserts of an accepted commit keep every constraint of the schema. */
  lemma InsertKeepsValid(s: Store, name: string, description: Option<string>, d: Draft)
    requires Valid(s)
    requires CommitAccepts(s, Some(name), d)
    requires TargetsResolve(s, d)
    ensures Valid(Insert(s, name, description, d))
  {
    InsertKeepsNamesUnique(s, name, description, d);
    InsertKeepsLinesLinked(s, name, description, d);
    InsertKeepsLengthsFit(s, name, description, d);
  }

  lemma InsertKeepsNamesUnique(s: Store, name: string, description: Option<string>, d: Draft)
    requires Valid(s)
    requires CommitAccepts(s, Some(name), d)
    ensures NamesUnique(Insert(s, name, description, d).ingredients)
  {
    var ings := Insert(s, name, description, d).ingredients;
    var base := s.nextIngredient;
    forall a, b | a in ings && b in ings && ings[a].name == ings[b].name
      ensures a == b
    {
      if a !in s.ingredients && b !in s.ingredients {
        assert ings[a] == CreatedRow(d.pending, base, a);
        assert ings[b] == CreatedRow(d.pending, base, b);
      }
    }
  }

  lemma InsertKeepsLinesLinked(s: Store, name: string, description: Option<string>, d: Draft)
    requires LinesLinked(s)
    requires TargetsResolve(s, d)
    ensures LinesLinked(Insert(s, name, description, d))
  {
    var s' := Insert(s, name, description, d);
    forall id | id in s'.lines
      ensures s'.lines[id].recipe in s'.recipes && s'.lines[id].ingredient in s'.ingredients
    {
      if s.nextLine <= id < s.nextLine + |d.lines| {
        assert s'.lines[id] == DraftRow(s.nextRecipe, s.nextIngredient, d.lines, s.nextLine, id);
      }
    }
  }

  lemma InsertKeepsLengthsFit(s: Store, name: string, description: Option<string>, d: Draft)
    requires Valid(s)
    requires CommitAccepts(s, Some(name), d)
    ensures LengthsFit(Insert(s, name, description, d))
  {
    var s' := Insert(s, name, description, d);
    forall id | id in s'.ingredients ensures |s'.ingredients[id].name| <= IngredientNameMax {
      if id !in s.ingredients {
        assert s'.ingredients[id] == CreatedRow(d.pending, s.nextIngredient, id);
      }
    }
    forall id | id in s'.lines ensures Fits(s'.lines[id].unit, UnitMax) {
      if id !in s.lines {
        assert s'.lines[id] == DraftRow(s.nextRecipe, s.nextIngredient, d.lines, s.nextLine, id);
      }
    }
  }

  /** A committed create keeps every constraint of the schema. */
  lemma CreateRecipePreservesValid(s: Store, req: RecipeRequest)
    requires Valid(s)
    ensures CreateRecipe(s, req).Ok? ==> Valid(CreateRecipe(s, req).value.0)
  {
    if CreateRecipe(s, req).Ok? {
      var d := BuildDraft(s, [], req.entries).value;
      DraftTargetsResolve(s, req.entries, d);
      InsertKeepsValid(s, req.name.value, req.description, d);
    }
  }

  /** A committed create is the loop's draft, accepted and inserted. */
  lemma CreateRecipeCommitted(s: Store, req: RecipeRequest) returns (d: Draft)
    requires CreateRecipe(s, req).Ok?
    ensures BuildDraft(s, [], req.entries) == Ok(d)
    ensures CommitAccepts(s, req.name, d)
    ensures CreateRecipe(s, req).value == (Insert(s, req.name.value, req.description, d), s.nextRecipe)
  {
    d := BuildDraft(s, [], req.entries).value;
  }

  /** Line `l` carries entry `e`: its quantity, its unit as the column stores it, and an
      ingredient whose name is the entry's name as the column stores it. */
  ghost predicate LineCarries(ingredients: map<Id, Ingredient>, l: Line, e: Entry) {
    && l.quantity == e.quantity
    && l.unit == StoredOpt(e.unit, UnitMax)
    && l.ingredient in ingredients
    && e.name.Some? && ingredients[l.ingredient].name == Stored(e.name.value, IngredientNameMax)
  }

  /** Line row `l`, committed by a create on `s` that left the ingredient table
      `ingredients`, was built from entry `e`: it carries the entry's quantity and unit
      and points at an ingredient with the entry's name, which is the catalog's own row
      when the name was known and a row the create added otherwise. */
  ghost predicate LineFromEntry(s: Store, ingredients: map<Id, Ingredient>, l: Line, e: Entry) {
    && LineCarries(ingredients, l, e)
    && (forall id :: id in s.ingredients && Some(s.ingredients[id].name) == e.name ==> l.ingredient == id)
    && (e.name.Some? && !Known(s, e.name.value) ==> l.ingredient !in s.ingredients)
  }

  /** A committed create gives the new recipe one line per entry, in input order, each
      copying its entry (find-or-create on the entry's name). */
  lemma CreateRecipeLines(s: Store, req: RecipeRequest)
    requires Valid(s)
    requires CreateRecipe(s, req).Ok?
    ensures var (s', rid) := CreateRecipe(s, req).value;
      var ids := LinesOf(s', rid);
      && |ids| == |req.entries|
      && forall i :: 0 <= i < |ids| ==> LineFromEntry(s, s'.ingredients, s'.lines[ids[i]], req.entries[i])
  {
    var d := CreateRecipeCommitted(s, req);
    InsertLines(s, req.name.value, req.description, d, req.entries);
  }

  /** The lines of the inserted recipe are the draft's lines, in order, each copying
      the entry it was built from. */
  lemma InsertLines(s: Store, name: string, description: Option<string>, d: Draft, es: seq<Entry>)
    requires KeysBelowSequences(s) && NamesUnique(s.ingredients) && LinesLinked(s) && PendingNew(s, d.pending)
    requires forall id :: id in s.ingredients ==> |s.ingredients[id].name| <= IngredientNameMax
    requires |d.lines| == |es|
    requires forall i :: 0 <= i < |es| ==> Resolves(s, d, i, es[i])
    ensures var s' := Insert(s, name, description, d);
      var ids := LinesOf(s', s.nextRecipe);
      && |ids| == |es|
      && forall i :: 0 <= i < |ids| ==> LineFromEntry(s, s'.ingredients, s'.lines[ids[i]], es[i])
  {
    var s' := Insert(s, name, description, d);
    InsertLineKeys(s, name, description, d);
    forall i | 0 <= i < |es| ensures LineFromEntry(s, s'.ingredients, s'.lines[LinesOf(s', s.nextRecipe)[i]], es[i]) {
      RunAt(s.nextLine, |es|, i);
      InsertLineAt(s, name, description, d, i, es[i]);
    }
  }

  lemma InsertLineKeys(s: Store, name: string, description: Option<string>, d: Draft)
    requires KeysBelowSequences(s) && LinesLinked(s)
    ensures LinesOf(Insert(s, name, description, d), s.nextRecipe) == Run(s.nextLine, |d.lines|)
  {
    var s' := Insert(s, name, description, d);
    var rid := s.nextRecipe;
    var first, n := s.nextLine, |d.lines|;
    forall id | first <= id < first + n ensures id in s'.lines && s'.lines[id].recipe == rid {
      assert s'.lines[id] == DraftRow(rid, s.nextIngredient, d.lines, first, id);
    }
    LinesFromRun(s'.lines, rid, 0, first, first + n);
  }

  lemma InsertLineAt(s: Store, name: string, description: Option<string>, d: Draft, i: nat, e: Entry)
    requires KeysBelowSequences(s) && NamesUnique(s.ingredients) && PendingNew(s, d.pending)
    requires forall id :: id in s.ingredients ==> |s.ingredients[id].name| <= IngredientNameMax
    requires i < |d.lines| && Resolves(s, d, i, e)
    ensures var s' := Insert(s, name, description, d);
      s.nextLine + i in s'.lines && LineFromEntry(s, s'.ingredients, s'.lines[s.nextLine + i], e)
  {
    AddCreated(s.ingredients, d.pending, s.nextIngredient);
    InsertedLine(s, name, description, d, i);
    LineRowFromEntry(s, Insert(s, name, description, d).ingredients, d, i, e);
  }

  /** The commit stores draft line `i` under the `i`-th new line key. */
  lemma InsertedLine(s: Store, name: string, description: Option<string>, d: Draft, i: nat)
    requires i < |d.lines|
    ensures var s' := Insert(s, name, description, d);
      s.nextLine + i in s'.lines && s'.lines[s.nextLine + i] == LineRow(s.nextRecipe, s.nextIngredient, d.lines[i])
  {
    var rows := DraftRows(s.nextRecipe, s.nextIngredient, d.lines, s.nextLine);
    assert rows[s.nextLine + i] == DraftRow(s.nextRecipe, s.nextIngredient, d.lines, s.nextLine, s.nextLine + i);
  }

  /** The row built from draft line `i` copies entry `e`, given the ingredient table
      after the commit: the old rows kept, the created names under their new keys. */
  lemma LineRowFromEntry(s: Store, ingredients: map<Id, Ingredient>, d: Draft, i: nat, e: Entry)
    requires KeysBelowSequences(s) && NamesUnique(s.ingredients) && PendingNew(s, d.pending)
    requires forall id :: id in s.ingredients ==> |s.ingredients[id].name| <= IngredientNameMax
    requires i < |d.lines| && Resolves(s, d, i, e)
    requires forall id :: id in s.ingredients ==> id in ingredients && ingredients[id] == s.ingredients[id]
    requires forall k :: 0 <= k < |d.pending| ==> s.nextIngredient + k in ingredients && ingredients[s.nextIngredient + k].name == Stored(d.pending[k], IngredientNameMax)
    ensures LineFromEntry(s, ingredients, LineRow(s.nextRecipe, s.nextIngredient, d.lines[i]), e)
  {
  }

  /** The ingredients a committed create adds are exactly the batch's new names, each as
      the column stores it, one row each, under consecutive fresh keys; the stored names
      are pairwise distinct. */
  lemma CreateRecipeIngredients(s: Store, req: RecipeRequest)
    requires Valid(s)
    requires CreateRecipe(s, req).Ok?
    ensures var s' := CreateRecipe(s, req).value.0;
      var added := NewNames(s, req.entries);
      && (forall k :: 0 <= k < |added| ==> s.nextIngredient + k in s'.ingredients && s'.ingredients[s.nextIngredient + k].name == Stored(added[k], IngredientNameMax))
      && (forall id :: id in s'.ingredients && id !in s.ingredients ==> s.nextIngredient <= id < s.nextIngredient + |added|)
      && Distinct(Cut(added))
  {
    var d := CreateRecipeCommitted(s, req);
    assert d.pending == NewNames(s, req.entries);
    InsertIngredients(s, req.name.value, req.description, d);
  }

  /** The commit inserts one ingredient per created name, as the column stores it, under
      consecutive keys from the ingredient sequence on, and no other ingredient; the old
      rows stay. */
  lemma InsertIngredients(s: Store, name: string, description: Option<string>, d: Draft)
    requires forall id :: id in s.ingredients ==> id < s.nextIngredient
    ensures var s' := Insert(s, name, description, d);
      && (forall id :: id in s.ingredients ==> id in s'.ingredients && s'.ingredients[id] == s.ingredients[id])
      && (forall k :: 0 <= k < |d.pending| ==> s.nextIngredient + k in s'.ingredients && s'.ingredients[s.nextIngredient + k].name == Stored(d.pending[k], IngredientNameMax))
      && (forall id :: id in s'.ingredients && id !in s.ingredients ==> s.nextIngredient <= id < s.nextIngredient + |d.pending|)
  {
    AddCreated(s.ingredients, d.pending, s.nextIngredient);
  }

  /** Adding the created rows to a table whose keys lie below `base`. */
  lemma AddCreated(ingredients: map<Id, Ingredient>, pending: seq<string>, base: Id)
    requires forall id :: id in ingredients ==> id < base
    ensures var t := ingredients + CreatedRows(pending, base);
      && (forall id :: id in ingredients ==> id in t && t[id] == ingredients[id])
      && (forall k :: 0 <= k < |pending| ==> base + k in t && t[base + k].name == Stored(pending[k], IngredientNameMax))
      && (forall id :: id in t && id !in ingredients ==> base <= id < base + |pending|)
  {
    var rows := CreatedRows(pending, base);
    forall k | 0 <= k < |pending| ensures base + k in rows && rows[base + k].name == Stored(pending[k], IngredientNameMax) {
      assert rows[base + k] == CreatedRow(pending, base, base + k);
    }
  }

  /** Two entries whose names the catalog does not know and the name column stores
      alike (the same name twice, or two names that differ only in spaces past the
      width) make two ingredient rows of one name: the commit violates the unique name
      and the whole create fails. */
  lemma RepeatedNewNameFails(s: Store, req: RecipeRequest, i: nat, j: nat)
    requires Valid(s)
    requires i < j < |req.entries|
    requires IsNew(s, req.entries[i]) && IsNew(s, req.entries[j])
    requires Stored(req.entries[i].name.value, IngredientNameMax) == Stored(req.entries[j].name.value, IngredientNameMax)
    ensures CreateRecipe(s, req).Err?
  {
    CreateRecipeSucceedsIff(s, req);
  }

  /** A name the catalog does not know, but that the column cuts down to the name of a
      committed ingredient, violates the unique name: the whole create fails. */
  lemma CutToKnownNameFails(s: Store, req: RecipeRequest, i: nat)
    requires Valid(s)
    requires i < |req.entries| && IsNew(s, req.entries[i])
    requires Known(s, Stored(req.entries[i].name.value, IngredientNameMax))
    ensures CreateRecipe(s, req).Err?
  {
    CreateRecipeSucceedsIff(s, req);
  }

  /** A unit one character past the width of its column, the excess being a space, is
      not refused: the create commits and the line keeps the unit cut to the width. */
  lemma TrailingSpacesCut()
    ensures var req := RecipeRequest(Some("Pancakes"), None, [Entry(Some("Egg"), None, Some("cup                            "))]);
      && CreateRecipe(EmptyStore(), req).Ok?
      && var (s', rid) := CreateRecipe(EmptyStore(), req).value;
      && |LinesOf(s', rid)| == 1
      && s'.lines[LinesOf(s', rid)[0]].unit == Some("cup                           ")
  {
    var unit := "cup                            ";
    var req := RecipeRequest(Some("Pancakes"), None, [Entry(Some("Egg"), None, Some(unit))]);
    var s := EmptyStore();
    assert |unit| == UnitMax + 1 && unit[UnitMax] == ' ';
    assert Stored(unit, UnitMax) == "cup                           ";
    assert Admissible(s, req) by {
      assert !Known(s, "Egg") && !Known(s, Stored("Egg", IngredientNameMax));
      assert EntryUnitsStorable(req.entries);
      assert !NewNameRepeated(s, req.entries);
    }
    CreateRecipeSucceedsIff(s, req);
    CreateRecipeLines(s, req);
  }

  /** A name the catalog knows, given twice in one batch, resolves both times to the
      same committed row. */
  lemma RepeatedKnownNameShares(s: Store, req: RecipeRequest, i: nat, j: nat)
    requires Valid(s)
    requires i < j < |req.entries|
    requires req.entries[i].name.Some? && req.entries[j].name == req.entries[i].name
    requires Known(s, req.entries[i].name.value)
    ensures CreateRecipe(s, req).Ok? ==>
      var (s', rid) := CreateRecipe(s, req).value;
      var ids := LinesOf(s', rid);
      && |ids| == |req.entries|
      && s'.lines[ids[i]].ingredient == s'.lines[ids[j]].ingredient
      && s'.lines[ids[i]].ingredient in s.ingredients
  {
    if CreateRecipe(s, req).Ok? {
      CreateRecipeLines(s, req);
      var id :| id in s.ingredients && s.ingredients[id].name == req.entries[i].name.value;
    }
  }

  /** Deleting a recipe. No route does it; the relationship declares what it must do:
      the recipe's lines are deleted with it (`cascade="all, delete-orphan"`), while the
      ingredients they named and every shopping item stay. */
  function DeleteRecipe(s: Store, rid: Id): (r: Result<Store>)
    ensures r.Err? <==> rid !in s.recipes
    ensures r.Err? ==> r.error == NotFound
    ensures r.Ok? ==> var s' := r.value;
      && s'.recipes.Keys == s.recipes.Keys - {rid}
      && (forall id :: id in s'.recipes ==> s'.recipes[id] == s.recipes[id])
      && (forall id :: id in s'.lines ==> id in s.lines && s'.lines[id] == s.lines[id] && s'.lines[id].recipe != rid)
      && (forall id :: id in s.lines && s.lines[id].recipe != rid ==> id in s'.lines)
      && s'.ingredients == s.ingredients
      && s'.items == s.items
  {
    if rid !in s.recipes then Err(NotFound)
    else
      var kept := map id | id in s.lines && s.lines[id].recipe != rid :: s.lines[id];
      Ok(s.(recipes := s.recipes - {rid}, lines := kept))
  }

  /** Deleting a recipe keeps every constraint, and afterwards it has no line left. */
  lemma DeleteRecipePreservesValid(s: Store, rid: Id)
    requires Valid(s)
    requires rid in s.recipes
    ensures Valid(DeleteRecipe(s, rid).value)
    ensures LinesOf(DeleteRecipe(s, rid).value, rid) == []
  {
    var s' := DeleteRecipe(s, rid).value;
    LinesFromNone(s'.lines, rid, 0, s'.nextLine);
  }

  /** The cascade is what keeps the foreign key: removing a recipe that has a line
      while keeping its lines would leave an orphan. */
  lemma DeleteWithoutCascadeOrphans(s: Store, rid: Id, line: Id)
    requires Valid(s)
    requires line in s.lines && s.lines[line].recipe == rid
    ensures !LinesLinked(s.(recipes := s.recipes - {rid}))
  {
    var s' := s.(recipes := s.recipes - {rid});
    assert s'.lines[line].recipe !in s'.recipes;
  }
}
