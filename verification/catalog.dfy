/** Find-or-create of ingredients by exact name (`recipe_add` and `recipe_create`). */
module Catalog {
  import opened Outcomes
  import opened Schema

  /** The first ingredient among keys k .. bound-1 whose name is exactly `name`. */
  function FindFrom(ingredients: map<Id, Ingredient>, name: string, k: nat, bound: nat): (r: Option<Id>)
    decreases bound - k
    ensures r.Some? ==> r.value in ingredients && ingredients[r.value].name == name && k <= r.value < bound
    ensures r.None? ==> forall id :: k <= id < bound && id in ingredients ==> ingredients[id].name != name
  {
    if k >= bound then None
    else if k in ingredients && ingredients[k].name == name then Some(k)
    else FindFrom(ingredients, name, k + 1, bound)
  }

  /** The query `Ingredient.query.filter_by(name=name).first()`: it looks at committed
      rows only, and matches the name exactly (no case folding, no trimming). */
  function FindByName(s: Store, name: string): (r: Option<Id>)
    ensures r.Some? ==> r.value in s.ingredients && s.ingredients[r.value].name == name
    ensures KeysBelowSequences(s) ==> (r.Some? <==> Known(s, name))
  {
    FindFrom(s.ingredients, name, 0, s.nextIngredient)
  }

  /** In a valid store the query returns THE ingredient of that name. */
  lemma FindByNameExact(s: Store, name: string, id: Id)
    requires Valid(s)
    requires id in s.ingredients && s.ingredients[id].name == name
    ensures FindByName(s, name) == Some(id)
  {
    var r := FindByName(s, name);
    assert r.Some?;
    assert s.ingredients[r.value].name == s.ingredients[id].name;
  }

  /** What a line of a recipe being built points at: a committed ingredient, or the
      `index`-th ingredient object created during this request and not yet committed. */
  datatype Target = Existing(id: Id) | Created(index: nat)

  /** One step of find-or-create. `pending` holds the names of the ingredient objects
      this request has created so far; they are not in the session, so the lookup
      never sees them, and a name that is new to the catalog creates another object
      every time it occurs. */
  function FindOrCreate(s: Store, pending: seq<string>, name: string): (r: (Target, seq<string>))
    ensures r.0.Existing? ==> r.0.id in s.ingredients && s.ingredients[r.0.id].name == name && r.1 == pending
    ensures r.0.Created? ==> r.0.index == |pending| && r.1 == pending + [name]
    ensures KeysBelowSequences(s) ==> (r.0.Existing? <==> Known(s, name))
  {
    match FindByName(s, name)
    case Some(id) => (Existing(id), pending)
    case None => (Created(|pending|), pending + [name])
  }

  /** Find-or-create on a valid store: an existing name resolves to its own row and
      creates nothing; a new name creates exactly one object of that name, even when
      an earlier object of this request already carries it. */
  lemma FindOrCreateResolves(s: Store, pending: seq<string>, name: string)
    requires Valid(s)
    ensures var (t, pending') := FindOrCreate(s, pending, name);
      && (forall id :: id in s.ingredients && s.ingredients[id].name == name ==> t == Existing(id) && pending' == pending)
      && (!Known(s, name) ==> t == Created(|pending|) && pending' == pending + [name])
  {
    forall id | id in s.ingredients && s.ingredients[id].name == name
      ensures FindOrCreate(s, pending, name).0 == Existing(id)
    {
      FindByNameExact(s, name, id);
    }
  }
}
