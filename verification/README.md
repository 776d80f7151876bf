# Eat-It recipe and shopping-list store, modelled in Dafny

Eat-It is a small Flask application. It keeps recipes and a shopping list in a relational database through SQLAlchemy.
This project models the part with real logic: the four tables and the transitions that the mutating routes perform on them.

- `outcomes.dfy`: `Option`, `Result`, and the three ways a request can fail.
  - `NotFound` stands for `get_or_404`.
  - `MissingField` stands for a `KeyError` on an ingredient entry without a `"name"`.
  - `ConstraintViolation` stands for a refused commit.
- `schema.dfy`: the `Store`, one map per table plus one key sequence per table. It also holds:
  - the constraints declared in `models.py`: unique ingredient names, VARCHAR widths, and the foreign keys; `Valid` is their conjunction;
  - `LinesOf`, the lines of a recipe in key order.
- `catalog.dfy`: find-or-create of an ingredient by exact name.
- `recipes.dfy`: `recipe_add` / `recipe_create`, and deleting a recipe.
  - The two routes run the same algorithm, so it is modelled once.
  - `BuildDraft` is the loop over the entries.
  - `Commit` is the single commit, which either inserts everything or fails. Its contract is stated by `CommitAcceptsIff` (when it accepts) and `CreateRecipePreservesValid` (what it inserts keeps every constraint).
  - `DeleteRecipe` has no route. It follows the `cascade="all, delete-orphan"` relationship.
- `shopping.dfy`: `add_from_recipe`, `toggle_item`, `clear_checked_items`.
- `scenarios.dfy`: properties that span several requests.

A request that fails produces no store. The caller keeps the one it had, which is how one commit per request shows up in the model.
Keys come from per-table counters that start at 1 and only grow.

Behaviour a reader might not expect, which the model follows:

- **Empty names are accepted.** No code checks that an ingredient or recipe name is non-empty. `""` is a valid name.
- **Repeated new names are not deduplicated.** The loop looks names up among committed rows only (app.py:34, app.py:61). The ingredient objects it creates are not in the session until the recipe is added after the loop (app.py:43, app.py:71). So a name that is new to the catalog and given twice in one batch creates two objects. The commit then breaks `unique=True` (models.py:8), and the whole request fails (`RepeatedNewNameFails`).
- **Recipe name errors.** A missing recipe name fails at the commit (NOT NULL, models.py:12). This is the form route's behaviour. The JSON route raises `KeyError` earlier (app.py:32), with the same effect on the store.
- **VARCHAR widths follow PostgreSQL's rule.** The model assumes the database is PostgreSQL, which the `sslmode=require` parameter added to the connection string (app.py:7) points to. PostgreSQL refuses a value longer than its VARCHAR width unless every character past the width is a space. In that case it cuts the value to the width and stores it. The model checks the widths 80, 120 and 30 at commit with `Storable`, and stores the value `Stored` gives.
  - Uniqueness is checked on the stored ingredient names.
  - So two new names that differ only in spaces past character 80 collide, and so does a new name that is cut down to a committed name.
  - Name lookups compare exactly: for VARCHAR, trailing spaces count.
- **Line order.** `Recipe.ingredients` has no `order_by` (models.py:14-16). The model takes a recipe's lines in ascending key order, which is insertion order.

## Model

| member | source | states |
|---|---|---|
| Schema.EmptyStore | models.py:6-35 | A freshly created schema meets every constraint. It has no ingredient, recipe, line or item. |
| Schema.LinesOf | models.py:14-16 | The lines loaded for a recipe all belong to it, each once, in ascending key order. |
| Schema.LinesOfComplete | models.py:14-16 | No line of the recipe is missing from the loaded collection. |
| Catalog.FindByName | app.py:34 | An ingredient found has exactly the requested name. One is found exactly when some committed ingredient carries that name. |
| Catalog.FindByNameExact | models.py:8 | Because names are unique, the lookup returns the one row with that name. |
| Catalog.FindOrCreate | app.py:34-36 | A known name reuses the committed row and creates nothing. An unknown name creates exactly one new object carrying that name. |
| Catalog.FindOrCreateResolves | app.py:61-63 | In a valid store, a known name resolves to its own row. A name new to the catalog creates a new object even when this request already created one of that name. |
| Recipes.BuildDraft | app.py:33-42 | The loop succeeds exactly when every entry has a name; otherwise it fails with MissingField. It builds one line per entry, each with the entry's quantity and unit. Each line points at an ingredient of the entry's name. The objects created are the entry names unknown to the catalog, in input order, repeats included. |
| Recipes.CreateRecipe | app.py:29-45 | An entry without a name fails with MissingField. A success adds exactly one recipe, under a key no committed recipe has, with the requested name (as its column stores it) and description. It keeps every committed row unchanged and every shopping item. Every line it adds belongs to the new recipe. |
| Recipes.CreateRecipeSucceedsIff | app.py:43-44 | For a request in the modelled domain (see "## Left out" on decoded values), a create commits exactly when all of these hold: every entry has a name; the recipe name is present; the recipe name, every unit and every new ingredient name fit their width (120, 30, 80) or exceed it by spaces only; no new name is stored as a committed name; no two new names are stored alike. Any other request changes nothing. |
| Recipes.CommitAcceptsIff | app.py:71-72 | The commit-time checks on the loop's objects are equivalent to conditions on the request itself. |
| Recipes.NewNamesDistinct | app.py:59-69 | The names of the created objects, as stored, are pairwise distinct exactly when no two entries with names new to the catalog are stored alike. |
| Recipes.CreateRecipePreservesValid | models.py:6-26 | A committed create keeps the following: unique names, the VARCHAR widths, and the foreign keys of every line and item. |
| Recipes.CreateRecipeLines | app.py:32-42 | The new recipe has one line per entry, in input order. Each line carries the entry's quantity and its unit as stored (None when absent). Each points at the catalog's own row for a known name, or at a newly added row for a new name. |
| Recipes.CreateRecipeIngredients | app.py:35-36 | A committed create adds exactly the batch's new names, each as its column stores it, one row each, under consecutive fresh keys. The stored names are pairwise distinct. |
| Recipes.RepeatedNewNameFails | models.py:8 | Two entries whose names are unknown to the catalog and stored alike make the whole create fail. This covers a new name given twice, and two new names that differ only in spaces past character 80. |
| Recipes.CutToKnownNameFails | models.py:8 | A name unknown to the catalog that its column cuts down to a committed name makes the whole create fail. |
| Recipes.TrailingSpacesCut | models.py:23 | A 31-character unit whose last character is a space is not refused. The create commits and the line keeps the unit cut to 30 characters. |
| Recipes.RepeatedKnownNameShares | app.py:34-35 | When the create commits, a known name given twice in one batch makes both lines point at the same committed row. |
| Recipes.DeleteRecipe | models.py:14-16 | An unknown recipe is not found. Otherwise exactly that recipe and all of its lines are removed. Every other line, every ingredient and every shopping item stay. |
| Recipes.DeleteRecipePreservesValid | models.py:18-21 | Deleting a recipe keeps every constraint, and leaves the recipe with no lines. |
| Recipes.DeleteWithoutCascadeOrphans | models.py:20 | Removing a recipe that has a line without also removing its lines would leave an orphan line, so the cascade is needed. |
| Shopping.AddFromRecipe | app.py:81-93 | An unknown recipe is not found. Otherwise the call inserts a copy of each of the recipe's lines, and only the items and their key sequence change. |
| Shopping.AddLines | app.py:84-91 | The item under the i-th new key copies the i-th line: same ingredient, quantity and unit. It is unchecked, the column default (models.py:33). |
| Shopping.AddLinesKeepsItems | app.py:84-92 | Items already on the list stay unchanged, and every other item sits under one of the new keys. |
| Shopping.AddFromRecipePreservesValid | models.py:28-35 | Adding a recipe keeps every constraint. The list grows by exactly as many items as the recipe has lines. |
| Shopping.AddFromRecipeTwice | app.py:84-92 | Adding the same recipe twice adds its lines twice, with no deduplication: two items per line. |
| Shopping.ToggleItem | app.py:95-100 | An unknown item is not found. Otherwise only that item's flag flips, the new value is returned, and every other item and table is unchanged. |
| Shopping.ToggleTwice | app.py:97-99 | Toggling keeps every constraint. Toggling twice restores the store and reports the original flag. |
| Shopping.ClearChecked | app.py:102-106 | Afterwards no checked item remains. Every unchecked item survives unchanged, and nothing else changes. |
| Shopping.ClearCheckedFacts | app.py:104-105 | Clearing keeps every constraint and is idempotent. It is a no-op when nothing is checked. |
| Scenarios.CreateThenShop | app.py:29-93 | Creating a recipe and then adding it to the list puts one unchecked item per entry on the list, in input order. Each item names the entry's ingredient with the entry's quantity and unit, as stored. The store stays valid. |
| Scenarios.ShoppingOutlivesRecipe | models.py:28-35 | Items keep no link to the recipe they were copied from. Deleting the recipe afterwards leaves every item as it was and the store valid. |

## Left out

- Flask routing, templates, redirects, JSON responses and HTTP status codes (app.py:19-27, app.py:47-49, app.py:76-79) are presentation. The read-only listing routes change nothing.
- Decoding the request body is not modelled (app.py:31, app.py:53-57). This covers `request.json` and `json.loads`. A request is given already decoded, as a `RecipeRequest`.
  - Payloads the decoder or the type checks would reject are not modelled: an `ingredients_json` that is not an array, or entries that are not objects.
  - A JSON body without an `"ingredients"` key is not modelled. It raises before any change, so the store is unaffected, just as with `MissingField`.
  - An entry whose `"name"` is JSON `null` is folded into `MissingField`. In the code the loop goes on: the lookup finds nothing, and an unnamed `Ingredient` is built. The commit then fails on NOT NULL (models.py:8). The store is unchanged either way; only the kind of error differs.
  - An entry name that is not a string is not modelled.
  - Entries are modelled with a numeric-or-null quantity and a string-or-null unit, and the recipe name and description as strings or null. The decoder accepts any JSON value there, and neither of the following is modelled:
    - A quantity that PostgreSQL cannot convert to a float (`""`, `"two"`, `true`) makes the commit fail on the Float column (models.py:22). A numeric string such as `"2"` is stored as 2.0.
    - A unit, recipe name or description that is not a string (a number, say) is stored as its text.
- Environment configuration, the `init-db` command and `app.run` (app.py:5-17, app.py:110-113) are bootstrapping.
- Quantities are SQL floats (models.py:22, models.py:31). Once a numeric quantity is decoded, it is only copied, never computed on, so `Quantity` is `real` and no float arithmetic is modelled.
- SQLAlchemy session, autoflush and SQL generation are abstracted to one atomic commit per request.
- The database engine is assumed to be PostgreSQL. The `init-db` message names `shopping.db` (app.py:17), a SQLite file name, so SQLite may also have been used. On SQLite, VARCHAR widths are not enforced and keys can be reused; neither is modelled. Every width condition of the create (`CreateRecipeSucceedsIff`, `TrailingSpacesCut`, `CutToKnownNameFails`, and the part of `RepeatedNewNameFails` about spaces past character 80) holds for PostgreSQL only.
- Concurrent requests and races on the unique ingredient name are left out. They depend on the database's isolation, not on sequential logic.
- `static/app.js` is browser code and is not part of this model.
- Key values are not modelled exactly. The model's key counters are left unchanged by a failed request. A PostgreSQL sequence is not rolled back, so real keys can skip values. No property here depends on keys being contiguous across requests.
- Strings containing a NUL character are not modelled. PostgreSQL refuses them in text columns.
- `is_checked` is never NULL in this model. It defaults to false (models.py:33), and no route writes NULL.
- Schema.LinesOf: the model assumes that a recipe's lines load in key order. The relationship declares no order (models.py:14-16), and the database returns them in practice in insertion order.
