# sqlalchemy_query_helpers: row normalisation, key partitioning, upsert columns and insert-ignore

`DB` in sqlalchemy_query_helpers wraps a SQLAlchemy session with insert, update and upsert
helpers for MySQL. Every helper first hands its rows to a small core, and this project models
that core:

- **Row normalisation** (`DB.__to_dict`, `DB.clean_values`), module `Rows` with `Text`. A row
  can come in four shapes:
  - a dict keyed by strings;
  - a dict keyed by model attributes;
  - a list or tuple zipped with a field list;
  - a single string with one field.

  Each shape becomes one canonical dict from column name to value. Every string value is
  stripped as Python's `str.strip()` does, and a string that strips to nothing becomes `None`.
  Shape errors are `Err` values.
- **Key partitioning** (`DB.__check_modelkeys`), module `Partition`. A canonical row splits
  into the entries that locate a record and the entries to write.
- **Upsert column choice** (the `update_dict` of `DB.upsert`), module `Upsert`. This chooses
  the columns of the `ON DUPLICATE KEY UPDATE` clause. The current version can drop unique and
  primary-key columns, and it sends nothing when no column is left. The older version in
  `database.py` updates every column.
- **Insert-ignore** (`DB.insert_ignore_many`, `DB.insert_ignore`), module `InsertIgnore`. A
  loop adds each row in a nested transaction, and a row that fails with an integrity error is
  skipped. `Database` is a class whose committed and pending records the loop updates. The
  storage is a parameter: a function that tells, for the records already in the session, whether
  adding a record is accepted, fails with an `IntegrityError`, or fails otherwise.

`Scenarios` follows one example dict row through the pieces. The row is
`{'date': '2024-01-01', 'product_id': 5, 'value': ' 3.5 '}`.

The helpers in `database.py` are the same text as those in
`src/sqlalchemy_query_helpers/main.py`, so they are defined once. The table cites them from
both files.

Python values are modelled as follows:
- A dict is a `map<string, Value>`.
- A dict row keeps its entries in insertion order. When two keys rename to the same column,
  the later entry wins, as in a dict comprehension.
- A `Value` is a string, `None`, or an opaque other object.
- A model attribute is a `Field` with its `.key` and its `.name`.

## Model

| member | source | states |
|---|---|---|
| Text.SkipLeading | src/sqlalchemy_query_helpers/main.py:100 | the left scan of `strip()` stops at the first non-whitespace character and skips only whitespace |
| Text.SkipTrailing | database.py:95 | the right scan of `strip()` stops after the last non-whitespace character and never crosses the left one |
| Text.Strip | src/sqlalchemy_query_helpers/main.py:100 | the result is a slice of the input; everything cut off is whitespace; the result neither starts nor ends with whitespace; it is empty exactly when the input is all whitespace |
| Text.StripUnique | database.py:95 | any slice with those properties is the result of `strip()`, so they determine it |
| Text.StripIdempotent | src/sqlalchemy_query_helpers/main.py:100 | stripping twice is stripping once |
| Text.StripUnpadded | database.py:95 | a string without leading or trailing whitespace is returned unchanged |
| Rows.CleanValue | src/sqlalchemy_query_helpers/main.py:100 | a string becomes `None` exactly when it is blank, and otherwise its stripped form; every other value is unchanged; the result is always clean |
| Rows.CleanValues | src/sqlalchemy_query_helpers/main.py:98-101 | the key set is kept, every value is cleaned, and the result is a clean dict |
| Rows.CleanValuesUpdate | database.py:93-96 | cleaning works entry by entry: changing one entry of the input changes only that entry of the output |
| Rows.CleanValueFixed | src/sqlalchemy_query_helpers/main.py:100 | a clean value is left unchanged by cleaning |
| Rows.CleanValuesFixed | database.py:93-96 | a clean dict is returned unchanged |
| Rows.CleanValuesIdempotent | src/sqlalchemy_query_helpers/main.py:98-101 | cleaning a cleaned dict changes nothing |
| Rows.ToMap | src/sqlalchemy_query_helpers/main.py:93 | the dict built from key/value pairs has exactly the keys of the pairs |
| Rows.ToMapLast | database.py:88 | when a key repeats, the dict holds the value of its last pair |
| Rows.ToDict | src/sqlalchemy_query_helpers/main.py:70-96 | a dict row fails exactly when it mixes attribute and plain keys, and otherwise has one key per renamed key; a non-dict row without fields fails with "unknown type"; a non-list, non-string row with fields fails the type assert; a list fails exactly when its length differs from the field count; a string fails exactly when there is not one field; a positional result has exactly the field names as keys; every result is clean |
| Rows.DictRowValue | src/sqlalchemy_query_helpers/main.py:78-84 | each value of a dict row lands, cleaned, under its key's name unless a later entry takes that name |
| Rows.AttrDictRenamed | src/sqlalchemy_query_helpers/main.py:79-83 | an attribute-keyed dict is re-keyed by `.key` with `use_orm_keys` and by `.name` without it, and it never fails; values are cleaned |
| Rows.PositionalRowValue | src/sqlalchemy_query_helpers/main.py:87-94 | a list row of the right length maps each field name to the cleaned value at the same position unless a later field repeats the name; `.key` is used whenever `use_mfield_keys` is set, whatever `use_orm_keys` says |
| Rows.StrRowIsSingleton | src/sqlalchemy_query_helpers/main.py:90-92 | a string row with one field normalises as the list `[row]`, to a one-entry dict |
| Rows.DistinctNamesCount | src/sqlalchemy_query_helpers/main.py:87 | pairwise different field names give as many names as fields |
| Rows.PositionalRowSize | database.py:80-91 | with pairwise different field names, a list row of matching length becomes a dict with one entry per field |
| Rows.NormalizeIdempotent | database.py:73-79 | normalising the canonical dict of any row again, as a plain dict row, gives it back unchanged, whatever the fields and flags |
| Rows.AllOk | database.py:226 | a list of results gives all values in order exactly when none is an error, and otherwise the first error |
| Rows.NormalizeAll | src/sqlalchemy_query_helpers/main.py:229 | the list comprehension succeeds exactly when every row normalises, with one record per row in order; otherwise it fails with the first failing row's error |
| Partition.CheckModelKeys | src/sqlalchemy_query_helpers/main.py:57-68 | the two parts share no key, together make up the row, the first has only cause-field keys and the second none |
| Partition.PartitionUnique | database.py:60-63 | any two maps with those properties are exactly the pair returned |
| Partition.PartitionStable | database.py:52-63 | splitting either part again leaves it whole on its own side |
| Upsert.UpdateColumns | src/sqlalchemy_query_helpers/main.py:232-236 | with the filter, a name is chosen exactly when a table column has it and a mapper column of that name is neither unique nor primary key; without it, every table column is chosen |
| Upsert.PlanUpsert | src/sqlalchemy_query_helpers/main.py:228-239 | fails exactly when some row fails to normalise, with the first failing row's error; sends no statement exactly when no column is left to update; otherwise the statement holds one normalised record per row and updates exactly the chosen columns, only updatable ones when filtered |
| Upsert.PlanLegacyUpsert | database.py:225-229 | fails exactly when some row fails to normalise, with the first failing row's error; otherwise every table column is updated, keys included |
| Upsert.KeyColumnsNotUpdated | src/sqlalchemy_query_helpers/main.py:233-234 | with the filter, a unique or primary-key column of the mapper is never updated |
| Upsert.UnfilteredIsLegacy | database.py:228 | with the filter off, the current `upsert` sends the older version's statement whenever the table has a column |
| Upsert.OnlyKeyColumnsIsNoOp | src/sqlalchemy_query_helpers/main.py:237-238 | when every matching mapper column is unique or a primary key, the filtered `upsert` returns without a statement |
| InsertIgnore.IgnoreAll | src/sqlalchemy_query_helpers/main.py:130-139 | a run adds at most one record per row |
| InsertIgnore.IgnoreAllAppend | database.py:125-134 | a run over two lists of rows is the run over the first, then, if that ended normally, the run over the second from the session it left |
| InsertIgnore.IgnoreAllPrefix | src/sqlalchemy_query_helpers/main.py:131-139 | one more row extends a normal run when accepted, leaves it as it is when rejected, and ends the whole run when it raises |
| InsertIgnore.RejectedRowSkipped | src/sqlalchemy_query_helpers/main.py:137-139 | a row rejected with an integrity error, wherever it stands, changes nothing: the run is the one without it |
| InsertIgnore.AddedComeFromRows | database.py:126-129 | every record added is the normalisation of one of the rows |
| InsertIgnore.AddedIffSomeAccepted | database.py:123-136 | a run adds something exactly when the storage accepts some row it reaches |
| InsertIgnore.NoFailureWhenAllAdmissible | database.py:127-134 | when every row normalises and the storage fails only with integrity errors, the run does not raise |
| InsertIgnore.Database.InsertIgnoreMany | src/sqlalchemy_query_helpers/main.py:128-141 | on success it returns whether any row was added, and it commits the pending records and the run's; when it raises, nothing is committed and the records added so far stay pending |
| InsertIgnore.Database.InsertIgnoreOne | src/sqlalchemy_query_helpers/main.py:124-126 | one row: a bad row raises and changes nothing; an accepted row is committed and gives True; a rejected one gives False; any other failure raises |
| Scenarios.ExampleDict | src/sqlalchemy_query_helpers/main.py:82 | the example dict row, with plain keys, is taken as it is |
| Scenarios.ExampleValuesCleaned | src/sqlalchemy_query_helpers/main.py:100 | `'2024-01-01'` is kept and `' 3.5 '` becomes `'3.5'` |
| Scenarios.ExampleCleaned | database.py:95 | cleaning the example dict strips its padded value only |
| Scenarios.ExampleRowNormalized | src/sqlalchemy_query_helpers/main.py:78-84 | the example row normalises to the cleaned record with either key flavour |
| Scenarios.ExamplePartition | src/sqlalchemy_query_helpers/main.py:65-68 | with cause fields `date` and `product_id`, the cleaned record splits into those two entries and `value` |
| Scenarios.ExampleKeyOnlyUpsert | src/sqlalchemy_query_helpers/main.py:232-238 | on a table of only a primary key and a unique column, the filtered upsert sends nothing and the unfiltered one updates both keys |
| Scenarios.UniqueOnNull | database.py:127-133 | in a table unique on a column, a record that is `NULL` there is always accepted |
| Scenarios.UniqueOnSelf | database.py:127-133 | in a table unique on a column, a record with a non-`NULL` value there is accepted when the table is empty and clashes with itself |
| Scenarios.InsertTwice | src/sqlalchemy_query_helpers/main.py:124-141 | inserting the same row twice into a table unique on one of its columns, non-`NULL` in the row, gives True, then False, and stores the record once |
| Scenarios.InsertNullTwice | src/sqlalchemy_query_helpers/main.py:124-141 | when the row is `NULL` in the unique column, both inserts give True and the record is stored twice |
| Scenarios.InsertExampleTwice | database.py:119-136 | the example row inserted twice with `product_id` unique gives True, then False, and stores its cleaned record once |

## Left out

- Engine and session setup is not modelled: `__init__`, `__del__`, `create_all` and `make_engine_str`. These are environment reads and library resource handling.
- InsertIgnore.Database: assumes a live session. In `src/sqlalchemy_query_helpers/main.py` the line that opens it in `__init__` is commented out, so `DB.session` stays `None` and `insert_ignore_many` raises `AttributeError` unless the caller assigns a session first; `database.py` opens one.
- `get_predefined_table` and `get_predifined_table` do database reflection.
- The execution of statements is not modelled: `execute`, `commit` and `rollback`, in `upsert` and in the other statement helpers. `upsert` swallows and rolls back a failing commit; that too is error handling around a library call.
- `update`, `update_with_select` (its own comment says it does not work) and `upsert_with_select` are not modelled. They are query construction over the library. Only the re-normalisation `upsert_with_select` relies on is stated, as `Rows.NormalizeIdempotent`.
- `insert`, `insert_many`, `insert_one`, `insert_ignore_core`, `insert_ignore_many_core`, `insert_ignore_instanses` and `execute_sqls` are not modelled. They stage or execute statements and decide nothing themselves.
- Upsert.PlanUpsert: the `update_dict` values (the `inserted` column objects) are kept only as their names. The names determine them.
- Upsert.PlanUpsert: an empty `rows` list is passed on as it is. What the library does with an `INSERT` of no rows is not modelled.
- InsertIgnore.IgnoreAll: what the library does when it adds a record is a parameter (`Storage`), not modelled. This covers building the model object, flushing the savepoint and the database's constraint checks.
- The `assert`s of `__to_dict` are modelled as enabled. Under `python -O` they are skipped, and a length mismatch would silently zip to the shorter side.
- Dict keys of types other than `str` and model attributes are not modelled (`Key` has only those two). Without attribute keys such keys pass through unchanged; mixed with attribute keys they raise `AttributeError` unless they have `.key`/`.name`.
- Python values other than `str` and `None` are opaque (`Value.Other`): nothing looks inside them.
- Whitespace is Python's `str.isspace` character table, written out. It is not derived from the Unicode database.
