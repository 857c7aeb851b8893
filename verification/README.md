# bpModAbstractDBobj — a functional model

`bpModAbstractDBobj` is the generic base class of the BP-Moderation plugin. It maps one row of
one database table to an object. A subclass names the table, a hook prefix (`obj_name`), the
primary-key column (`id_field`) and a per-column format map (`fields_format`, column name →
`%s` / `%d`). The object holds the primary key in `__id` and every other column in `__data`.

The model states this object as an immutable record (`DBObject.DBObj`). It gives each operation
as a pure function of that record:

- `populate($id)` (`DBObject.Populate`) and the constructor (`DBObject.Construct`);
- `save()` (`DBObject.Save`): per-field filtering, the format list, the choice between INSERT
  and UPDATE, and how `__id` changes with the driver's answer;
- `__set` / `__get` (`DBObject.SetField` / `DBObject.GetField`): route the primary-key name to
  `__id` and every other name to `__data`;
- `get($r)` (`Query.Get`): merges the arguments over defaults, whitelists the SELECT columns,
  filters the WHERE keys, and picks `get_results` (many rows) or `get_var` (one value).

PHP arrays with string keys are ordered association lists (`OrderedMap`). Order matters in
several places:

- the SELECT whitelist follows `array_keys(fields_format)` (lines 187-193);
- the WHERE conditions follow the caller's `where` order (lines 214-218);
- `__data` takes the fetched row's column order (line 88);
- the written data and the format list follow `__data` (lines 105-126).
PHP's `empty()`, boolean coercion and `isset()` are stated on a small value type
(`PhpValues.Value`).

The database driver (`$wpdb`) and the hook dispatcher are not modelled. They are parameters:

- `getRow` answers populate's single-row SELECT;
- `exec` performs save's INSERT or UPDATE and returns the driver's result;
- `insertId` is the key the driver generated;
- `filter` is the per-field "before save" filter.

`get()` returns the statement as tokens and says which driver call it makes. It does not return
SQL text.

`get()` picks the driver call from the *validated* `select` list (line 224). It calls
`get_results` when that list is exactly `['*']` or has more than one entry, and `get_var`
otherwise. So an explicitly empty `select` builds `SELECT *` but calls `get_var`
(`Query.GetEmptySelect`). And a primary key that is also a `fields_format` key is selected
twice when requested (`Query.GetIdFieldTwice`).

## Model

| member | source | states |
|---|---|---|
| `OrderedMap.Lookup` | classes/bpModAbstractDBobj.php:261-263 | reading a key finds a value exactly when the key is present, and the value is the one stored with it |
| `OrderedMap.LookupEntry` | classes/bpModAbstractDBobj.php:261-263 | in an array without duplicate keys, every entry is what a read of its key returns |
| `OrderedMap.Put` | classes/bpModAbstractDBobj.php:245 | `$a[$k] = $v`: the key then reads `v`, every other key reads as before, an existing key keeps its position and a new key is appended |
| `OrderedMap.PutKeepsDistinct` | classes/bpModAbstractDBobj.php:245 | assigning a key never creates a duplicate key |
| `OrderedMap.Remove` | classes/bpModAbstractDBobj.php:87 | `unset($a[$k])`: the key no longer reads, every other key reads as before, the remaining keys are the old ones minus `k`, in their old order, and an absent key changes nothing |
| `OrderedMap.RemoveKeepsDistinct` | classes/bpModAbstractDBobj.php:87 | unsetting keeps keys distinct and removes exactly one entry when the key was present |
| `DBObject.Populate` | classes/bpModAbstractDBobj.php:79-90 | when the fetched row has a non-empty id column, `__id` becomes that value and `__data` holds every other column of the row in the row's column order, but not the id column; in every other case the object is unchanged; the configuration never changes |
| `DBObject.PopulateKeepsValid` | classes/bpModAbstractDBobj.php:85-88 | populate keeps the invariants: distinct keys, and the primary key never appears in `__data` |
| `DBObject.PopulateThenGet` | classes/bpModAbstractDBobj.php:85-88 | after a successful populate, reading any column name gives that column of the fetched row, or null if the row lacks it |
| `DBObject.Construct` | classes/bpModAbstractDBobj.php:66-71 | a zero id gives a blank object; a non-zero id gives exactly what populate makes of a blank object, so the object either holds a truthy id or is still blank |
| `DBObject.ConstructFromRow` | classes/bpModAbstractDBobj.php:66-71 | a constructed object keeps the invariants, and when the row is found, every property reads that column of the row, or null if the row lacks it |
| `DBObject.Formats` | classes/bpModAbstractDBobj.php:105-116 | one format per data field, in data order: the field's declared format when it is non-empty, otherwise `%s` |
| `DBObject.FormatsDependOnKeys` | classes/bpModAbstractDBobj.php:105-116 | the format list depends only on the data's columns and their order, never on the values |
| `DBObject.FormatsComeFromMap` | classes/bpModAbstractDBobj.php:109-115 | every format save passes to the driver is `%s` or a format the format map declares |
| `DBObject.FilterData` | classes/bpModAbstractDBobj.php:105-107 | the filter keeps the columns and their order, and replaces each value by the filter applied to column, value and current id |
| `DBObject.Save` | classes/bpModAbstractDBobj.php:98-141 | UPDATE keyed on `id_field = __id` with `%d` iff `__id` is truthy, otherwise INSERT. The write carries the filtered data and the format list. On a falsy driver result save returns false and leaves `__id` as it was. On success it returns the driver's result. After an INSERT `__id` is the generated key, and a truthy id is never overwritten |
| `DBObject.SaveKeepsValid` | classes/bpModAbstractDBobj.php:105-107 | save keeps the invariants, because filters change values but never columns |
| `DBObject.SaveAfterInsertUpdates` | classes/bpModAbstractDBobj.php:121-135 | after a successful INSERT whose generated key is non-zero, a second save issues an UPDATE keyed on that key, with the same format list |
| `DBObject.SetField` | classes/bpModAbstractDBobj.php:238-247 | writing the primary-key name changes only `__id`. Writing any other name changes only that entry of `__data`, which keeps its position or is appended |
| `DBObject.GetField` | classes/bpModAbstractDBobj.php:256-269 | the primary-key name reads `__id`; another name reads its stored value in `__data`, or null when it is not stored (a stored null reads as null either way) |
| `DBObject.SetFieldKeepsValid` | classes/bpModAbstractDBobj.php:238-247 | `__set` keeps the invariants: the primary key never lands in `__data` |
| `DBObject.GetAfterSet` | classes/bpModAbstractDBobj.php:238-269 | reading a name right after writing it returns the written value, null included |
| `DBObject.SetLeavesOtherFields` | classes/bpModAbstractDBobj.php:238-269 | writing one name leaves every other name's reading unchanged |
| `DBObject.SetTwice` | classes/bpModAbstractDBobj.php:238-269 | writing a name twice reads the same as writing only the second value |
| `Query.IntersectCounts` | classes/bpModAbstractDBobj.php:187-193 | a requested name survives as often as it occurs in the allowed list; a name not requested never survives |
| `Query.IntersectDistributes` | classes/bpModAbstractDBobj.php:187-193 | the surviving names follow the allowed list's order: the survivors of a concatenation are the concatenated survivors |
| `Query.IntersectIgnoresRequestOrder` | classes/bpModAbstractDBobj.php:187-193 | the order and repetition of the requested names play no part, only which names were requested |
| `Query.MergeDefaults` | classes/bpModAbstractDBobj.php:178-181 | a missing `select` becomes `['*']` and a missing `where` becomes empty; a given argument is kept as the caller passed it |
| `Query.SelectColumns` | classes/bpModAbstractDBobj.php:195-204 | the columns after `SELECT` are never empty and only name whitelisted columns or `*` |
| `Query.SelectList` | classes/bpModAbstractDBobj.php:185-199 | the validated `select` only holds whitelisted names or `*` |
| `Query.WhereCondsSpec` | classes/bpModAbstractDBobj.php:212-219 | every condition comes from a caller entry whose key the format map knows, with that key's format. Every such caller entry yields its condition, so there are never more conditions than entries |
| `Query.WhereCondsDistributes` | classes/bpModAbstractDBobj.php:214-218 | conditions keep the caller's key order |
| `Query.BuildGet` | classes/bpModAbstractDBobj.php:183-228 | for any whitelist, the statement reads the object's table, selects at least one column, names only whitelisted columns or `*`, and its WHERE conditions are exactly those the caller's `where` yields against the format map |
| `Query.Get` | classes/bpModAbstractDBobj.php:175-229 | the statement reads the object's table, selects at least one column, only names `fields_format` keys, `*` or `id_field`, and its WHERE conditions are exactly the caller's `fields_format`-known keys in the caller's order, as `Query.WhereCondsSpec` and `Query.WhereCondsDistributes` describe |
| `Query.GetDefaultSelect` | classes/bpModAbstractDBobj.php:178-204 | without `select` the statement is `SELECT *` and a result set is fetched |
| `Query.GetEmptySelect` | classes/bpModAbstractDBobj.php:185-228 | an explicitly empty `select` builds `SELECT *` yet calls `get_var` |
| `Query.GetNoColumnSurvives` | classes/bpModAbstractDBobj.php:195-204 | a non-empty request with no allowed name falls back to `SELECT *`, resets `select` to `['*']` and fetches a result set |
| `Query.GetValidatedSelect` | classes/bpModAbstractDBobj.php:187-228 | a request with an allowed name selects exactly the requested allowed names in whitelist order. It fetches a result set iff that list is `['*']` or has more than one entry |
| `Query.GetSingleValueIff` | classes/bpModAbstractDBobj.php:224-228 | `get_var` is called iff `select` was given empty, or it validates to exactly one entry other than `*` |
| `Query.GetIdFieldTwice` | classes/bpModAbstractDBobj.php:187-228 | when `id_field` is also a `fields_format` key, asking for it alone selects it twice and fetches a result set |
| `Query.GetIdFieldOnce` | classes/bpModAbstractDBobj.php:187-228 | when `id_field` is not a `fields_format` key, asking for it alone selects it once and calls `get_var` |
| `Query.GetNoWhereIff` | classes/bpModAbstractDBobj.php:210-222 | there is no WHERE clause iff no caller key is a `fields_format` key |
| `Query.GetWhereDropsIdField` | classes/bpModAbstractDBobj.php:214-216 | the primary key never constrains the query unless `fields_format` lists it |
| `Query.IdOnlyRequestReturnsRows` | classes/bpModAbstractDBobj.php:187-193 | concrete witness: with `content_id` in both `id_field` and `fields_format`, `select => ['content_id']` builds `SELECT content_id,content_id` and calls `get_results` |
| `Query.DedupAllowedColumns` | classes/bpModAbstractDBobj.php:189-190 | corrected whitelist: it allows exactly the names the original whitelist allows |
| `Query.GetDedup` | classes/bpModAbstractDBobj.php:175-229 | `get()` over the corrected whitelist: same table and WHERE conditions as the original, at least one column, and only whitelisted columns. It is the original `get()` whenever `fields_format` does not list the primary key, and `Query.GetDedupDiffers` proves the converse |
| `Query.GetDedupDiffers` | classes/bpModAbstractDBobj.php:187-228 | the converse: when `fields_format` lists the primary key, asking for that key alone gives a different call under the corrected whitelist than under the original |
| `Query.GetDedupSingleColumn` | classes/bpModAbstractDBobj.php:224-228 | with the corrected whitelist, asking for one allowed column other than `*` selects exactly that column and calls `get_var` |

## Left out

- `delete()` (lines 150-155) is a one-line pass-through to the driver's query method, with no logic of its own.
- The database driver is not modelled: statement preparation and escaping, `get_row`, `get_results`, `get_var`, `insert`, `update`, `query` and `insert_id`. Each appears as a parameter or as the kind of call made. SQL text is given as tokens: a column list, a table and conditions.
- The hook dispatcher is a parameter. The filter hook `<obj_name>_data_<field>_before_save` is one function of field, value and current id. Its name depends only on the field, because `obj_name` is fixed per object.
- DBObject.Save: ignores the `_data_before_save` and `_data_after_save` actions. The first receives the object by reference and could change it before the write; the model assumes it does not.
- DBObject.Construct: takes the id as an integer. PHP's `(int)` casts (lines 68 and 83) on strings and other values are not modelled. `DBObject.Populate` also takes an integer id.
- DBObject.SetField: compares names with string equality. PHP's loose `==` (lines 240 and 258) would also equate numeric strings such as `"1"` and `"01"`.
- DBObject.GetField: models the magic method itself. PHP does not call `__get` / `__set` for names the class declares as properties (`__table`, `__id`, `__data`, …).
- Query.GetDefaultSelect: assumes no column is literally named `*` and `id_field` is not `*`. Otherwise the default `select` validates to several `*` entries.
- Query.Get: assumes `select` and `where` are arrays of strings and string-keyed arrays. Loose typing of other argument kinds is not modelled, nor are the other keys `array_merge` would carry.
- Values are null, booleans, integers and strings. Floats and nested arrays are not modelled.

## Findings

| source | as written | input that shows it | evidently intended | confidence | as-written member | corrected member |
|---|---|---|---|---|---|---|
| classes/bpModAbstractDBobj.php:187-193 | `id_field` is appended to the SELECT whitelist even when `fields_format` already lists it, so `array_intersect` keeps it twice | `fields_format = ['content_id' => '%d', 'item_type' => '%s']`, `id_field = 'content_id'`, `get(['select' => ['content_id']])` builds `SELECT content_id,content_id` and calls `get_results` | each column is whitelisted once, so one requested column gives `SELECT content_id` and a single value via `get_var` | medium; not executed | `Query.IdOnlyRequestReturnsRows` | `Query.GetDedupSingleColumn` |
