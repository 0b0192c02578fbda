# Values container of INSERT / UPDATE statements (php-sql-query-builder)

This project is a Dafny model of the values container behind the query builder's INSERT and UPDATE nodes. It also covers the INSERT node's ON DUPLICATE KEY UPDATE clause, and it proves the properties that the source promises about them.

- A **values map** is a PHP array from column name to value. A value is a null, a literal or an `SQLFunction` call such as `NOW()` or `VALUES(col)`. The model writes the map as a sequence of `(key, value)` entries with pairwise distinct keys (`ValuesMap.Entries`, `ValuesMap.DistinctKeys`). Insertion order is the sequence order. `ValuesMap.Lookup` gives the map view.
- **`Creational.CreationalQuery`** models `AbstractCreationalQuery`. It is a class with a `table` field and a `values` field:
  - `SetValues` replaces the map by its non-null entries. This is PHP's `array_filter`, modelled by the function `ValuesMap.DropNulls`.
  - `GetValues` is the `foreach` loop that copies every entry that is not a function call. It is proved against `ValuesMap.WithoutFunctions`.
  - `GetValuesWithFunctions` returns the stored map.
  - The class also stands for the `Update` node that the duplicate-key clause creates. `src/Manipulation/Update.php` is not part of this model, and the model assumes it adds no values behaviour of its own.
- **`InsertStatement.Insert`** models `Insert`. PHP inheritance becomes composition: the field `base` holds the inherited creational part, and `onDup` holds the duplicate-key clause.
  - `OnDuplicateKeyUpdate` is the in-place `array_walk`, written as a loop over the map. The loop rewrites each null entry `k` into `VALUES(k)` on the Insert's table. The rewritten map is then stored as a fresh query on the same table.
  - The specification of that rewrite is `InsertStatement.RewriteNulls`.
- Generic facts about filtering an ordered map live in `ValuesMap`. They include the map view, soundness, completeness, order preservation and uniqueness of the filter's result.
- `Scenarios` restates the library's tests for this container on the model. Its methods build `Insert` nodes through the verified contracts.

The central asymmetry is proved in `InsertStatement.NullPolicies`. For a null entry, `setValues` drops the key. The duplicate-key clause keeps the key as `VALUES(col)`, and the literal-only getter then excludes it.

## Model

| member | source | states |
|---|---|---|
| `Creational.CreationalQuery.constructor` | src/Manipulation/AbstractCreationalQuery.php:29-38 | the table is the given one (None when none is given); an absent or empty map leaves the values empty; otherwise the values are exactly what setValues would store; the object invariant holds |
| `Creational.CreationalQuery.SetValues` | src/Manipulation/AbstractCreationalQuery.php:67-74 | the new map is the non-null part of the argument alone (the old map is replaced, not merged), the table is unchanged, the invariant (unique keys, no null) holds, and the same object is returned for chaining |
| `Creational.CreationalQuery.GetValues` | src/Manipulation/AbstractCreationalQuery.php:43-52 | the loop returns exactly the stored entries that are not function calls, in stored order, and changes nothing |
| `Creational.CreationalQuery.GetValuesWithFunctions` | src/Manipulation/AbstractCreationalQuery.php:57-60 | returns the stored map itself, unchanged, with its unique keys and no null value |
| `Creational.StoredMapIsNonNullPart` | src/Manipulation/AbstractCreationalQuery.php:69-71 | after setValues(m) no null is stored; an entry is stored iff it is a non-null entry of m; relative order is kept; every key maps to its old value, or to nothing if that value was null; and no other ordered map has all of these properties |
| `Creational.GetValuesIsLiteralPart` | src/Manipulation/AbstractCreationalQuery.php:43-52 | getValues holds an entry iff the stored map holds it with a literal value; it is an order-preserving sub-map of getValuesWithFunctions; under each key it agrees with the stored map, except that keys bound to a function call are absent |
| `Creational.GetValuesAfterSetValues` | src/Manipulation/AbstractCreationalQuery.php:43-52 | after setValues(m), getValues is exactly the literal entries of m in order, so neither nulls nor function calls reach it |
| `Creational.SetValuesIdempotent` | src/Manipulation/AbstractCreationalQuery.php:57-71 | storing a null-free map (such as getValuesWithFunctions) again leaves it unchanged |
| `ValuesMap.Filter` | src/Manipulation/AbstractCreationalQuery.php:69-71 | the filtered map is no longer than its input, and each of its entries is an input entry that passes the test |
| `ValuesMap.FilterComplete` | src/Manipulation/AbstractCreationalQuery.php:69-71 | every input entry that passes the test survives the filter |
| `ValuesMap.FilterIsSubsequence` | src/Manipulation/AbstractCreationalQuery.php:69-71 | the filter only deletes entries and never reorders the survivors |
| `ValuesMap.FilterDistinct` | src/Manipulation/AbstractCreationalQuery.php:69-71 | filtering a map with unique keys yields a map with unique keys |
| `ValuesMap.FilterKeepsAll` | src/Manipulation/AbstractCreationalQuery.php:69-71 | a filter that every entry passes returns its input unchanged |
| `ValuesMap.FilterAppend` | src/Manipulation/AbstractCreationalQuery.php:47-50 | one loop step of the copying foreach appends the entry exactly when it passes the test |
| `ValuesMap.FilterLookup` | src/Manipulation/AbstractCreationalQuery.php:69-71 | as a map, the filtered result has a key's old value when that value passes the test, and no entry for the key otherwise |
| `ValuesMap.FilterUnique` | src/Manipulation/AbstractCreationalQuery.php:69-71 | an order-preserving sub-map that holds exactly the passing entries must be the filter's result |
| `ValuesMap.FilterFilter` | src/Manipulation/AbstractCreationalQuery.php:43-52 | filtering by one test and then another equals filtering once by both tests |
| `InsertStatement.Insert.constructor` | src/Manipulation/AbstractCreationalQuery.php:29-38 | a new Insert has the inherited constructor's table and values and no duplicate-key clause |
| `InsertStatement.Insert.PartName` | src/Manipulation/Insert.php:29-32 | the statement keyword is always INSERT |
| `InsertStatement.Insert.GetColumns` | src/Manipulation/Insert.php:37-42 | one column per stored key in map order: each column is named by its key and owned by the Insert's table |
| `InsertStatement.RewriteNulls` | src/Manipulation/Insert.php:46-51 | the rewritten map has the same keys in the same order and no null; a null under key k becomes the call VALUES(column k of the table); every other value is kept; unique keys stay unique |
| `InsertStatement.RewriteNullsLookup` | src/Manipulation/Insert.php:46-51 | as a map, the rewrite changes exactly the keys bound to null, each into VALUES of its own column, and adds or removes no key |
| `InsertStatement.Insert.OnDuplicateKeyUpdate` | src/Manipulation/Insert.php:44-54 | the in-place loop leaves a fresh clause on the Insert's table whose map is the null-rewritten argument with every key kept; the Insert's own table and values are unchanged; a second call replaces the clause |
| `InsertStatement.DuplicateKeyMapKeepsEveryKey` | src/Manipulation/Insert.php:53 | the null filter of the clause's setValues drops nothing, so its keys are exactly the argument's keys |
| `InsertStatement.NullPolicies` | src/Manipulation/Insert.php:44-54 | for a key bound to null, setValues drops the key; the duplicate-key clause stores VALUES(col) under it; the clause's literal-only getter leaves the key out |
| `InsertStatement.Insert.GetOnDuplicateKeyUpdate` | src/Manipulation/Insert.php:59-62 | returns the attached clause itself, so null exactly when none is attached; an attached clause is a well-formed query distinct from the Insert's own part |
| `InsertStatement.Insert.GetOnDuplicateKeyUpdateValues` | src/Manipulation/Insert.php:67-70 | forwards to the clause's getValues (every VALUES(col) rewrite and other call excluded); None exactly when no clause is attached |
| `InsertStatement.Insert.GetOnDuplicateKeyUpdateValuesWithFunctions` | src/Manipulation/Insert.php:75-78 | when a clause is attached, returns that clause's stored map unchanged, with unique keys and no null; None exactly when no clause is attached |
| `Scenarios.MixedValuesGetValues` | tests/Builder/GenericBuilderTest.php:340-370 | for id, two NOW() entries and is_admin, setValues stores all four and getValues yields only id and is_admin |
| `Scenarios.TableAndValuesForInsert` | tests/Builder/GenericBuilderTest.php:146-159 | an Insert on user with keys id, role lists the columns user.id, user.role |
| `Scenarios.ValuesOnDuplicateKeyUpdate` | tests/Builder/GenericBuilderTest.php:338-370 | on an Insert on user, setValues with two NOW() entries and then a clause {updated_at: NOW()} leave getValues at id and is_admin, and the clause's full map is {updated_at: NOW()} |
| `Scenarios.ValuesOnDuplicateKeyUpdateWithNull` | tests/Builder/GenericBuilderTest.php:374-388 | on an Insert on user, the clause {updated_at: NOW(), is_admin: null, count: 100} stores VALUES(user.is_admin) under is_admin, and its literal-only getter yields only count |
| `Scenarios.DuplicateKeyWithNull` | tests/Builder/GenericBuilderTest.php:387-388 | is_admin => null becomes VALUES(user.is_admin) and the other entries stay; only count remains as a literal to bind; plain setValues would drop is_admin |

## Left out

- SQL text rendering and placeholder numbering (`write`, `writeFormatted`, `:vN` tokens) are not part of this model, because the renderer's source is not among the modelled files.
- `SyntaxFactory::createColumn` and `createColumns` normalise names and aliases. They are modelled as pairing a name with the table name, so column aliases and the `[name, alias]` input form are not modelled.
- `AbstractBaseQuery` is not part of this model. This leaves out `setTable`/`getTable`, `Table` objects, builder injection and stringification. The table is a plain optional name, and `getTable()` and `$this->table` are taken to be the same value.
- PHP arrays with unique keys are the only possible input. For that reason, `SetValues`, `OnDuplicateKeyUpdate` and the constructors require `DistinctKeys`. PHP's conversion of numeric-string keys to integers is not modelled.
- Literals are integers, strings and booleans; floating-point literals are left out.
- `InsertStatement.Insert.GetOnDuplicateKeyUpdateValues`: in the source, a call with no clause attached invokes a method on null and fails. The model returns None for that case instead.
- `InsertStatement.Insert.GetOnDuplicateKeyUpdateValuesWithFunctions`: in the source, a call with no clause attached fails. The model returns None for that case.
- The class hierarchy and the builder's factory methods are object wiring and are not modelled; UPDATE is represented by `Creational.CreationalQuery`.
