# PySimpleSQL core, modelled in Dafny

PySimpleSQL binds PySimpleGUI windows to SQLite tables. A `Form` holds one
`Query` per table. Each query keeps the table's rows in memory, with an index
for the record the user is on. The form also holds the `Relationship`s
between tables: a child's foreign key pointing at a parent's primary key.
Relationships marked `requery_table` make the child follow the parent's
current record.

This project models the parts of that library that compute:

- **Record cursor.** The `current_index` setter and the navigation that uses
  it: `first`, `last`, `next`, `previous`, `set_by_index`, `set_by_pk`, and
  the wrap-around `search`.
- **Readers.** `get_current`, `get_current_row`, `get_current_pk`,
  `get_keyed_value` and `get_description_for_pk`.
- **Callback registry.** `set_callback` and its aliases.
- **SQL clauses.** The JOIN, WHERE and query strings built from the form's
  relationships.
- **Form lookups.** `get_relationships_for_table`,
  `get_cascaded_relationships`, `get_parent`, the event map
  (`map_event`, `replace_event`) and the tally `save_records` makes.
- **`table_values`.** It shows a parent's description in place of a foreign key.
- **Element keys.** The generator (`keygen` and its resets), `strip`,
  `get_record_info`, the `table.column?where_column=where_value` convention
  and the label that `record` derives.
- **`Template`.** The placeholder renderer of the multi-database example.

Modules:

| file | module | contents |
|---|---|---|
| values.dfy | `Values` | `Option`, `Result`, the raised errors, cell values and Python's `str()` of them |
| strings.dfy | `Strings` | `in`, `lower`, `capitalize`, `replace`, `split` on strings, with their laws |
| elementkeys.dfy | `ElementKeys` | `strip`, `get_record_info`, element key parsing, record labels |
| keygen.dfy | `KeyGen` | the `_keygen` dictionary as class `KeyGenerator` |
| records.dfy | `Records` | index clamping, current row and value, key lookup, the search scan as functions |
| relationships.dfy | `Relationships` | `Relationship`, join and where clause specifications, `table_values` |
| query.dfy | `Cursor` | class `Query`: cursor, search, callbacks, clause generation |
| form.dfy | `Forms` | class `Form`: relationships, event map, save tally |
| template.dfy | `Templates` | class `Template` |

Each imperative operation is a method on its class. Its `ensures` ties the
result or the new state to a specification function in `Records` or
`Relationships`. The properties the library promises are proved as lemmas
about those functions.

Python exceptions are `Err` results:

| Python exception | `Err` value |
|---|---|
| `IndexError` of an sqlite3 row on a missing column | `MissingColumn` |
| `KeyError` on a missing query | `MissingQuery` |
| `KeyError` on a missing key | `MissingKey` |
| `IndexError` | `RowIndex` or `NoField` |
| a tuple unpacking `ValueError` | `Unpack` |
| `RuntimeError` for an unknown callback | `UnsupportedCallback` |

Things the library reads from outside become parameters:

- the window's element values;
- the answers of the `before_search` and `after_search` callbacks;
- the rows a query fetches;
- the result codes of saving each table.

Where the documentation and the code disagree, the model follows the code:

- `get_parent` returns `None`, not `''`, when the table has no parent.
- The where clause reads the parent's key with `get_current(pk, 0)`, so a
  parent without rows contributes `=0`.
- `set_by_pk` and `get_keyed_value` raise on a row without the key column.
  They raise before a later row is looked at.
- `generate_query` is documented as building the query from the relationships,
  with its flags switching auto-generated clauses on. The code appends the
  query's stored join, where and order clauses, and never looks at the
  relationships.

## Model

| member | source | states |
|---|---|---|
| ElementKeys.Strip | pysimplesql/pysimplesql.py:66-70 | the result is the longest colon-free prefix: a prefix of the input, no ':', and either the whole input or followed by ':' |
| ElementKeys.GetRecordInfo | pysimplesql/pysimplesql.py:1943-1949 | the parts are dot-free, at least one, and joined by '.' give the record back |
| ElementKeys.RecordInfoOfColumn | pysimplesql/pysimplesql.py:1943-1949 | `table.column` with dot-free names splits into exactly `[table, column]` |
| ElementKeys.ParseFormat | pysimplesql/pysimplesql.py:1417-1426 | every well-formed key written as `table.column[?where_column=where_value]` parses back to itself |
| ElementKeys.FormatParse | pysimplesql/pysimplesql.py:1417-1426 | every key that parses is well formed and is the convention written out for what it parsed to |
| ElementKeys.ParseElementKey | pysimplesql/pysimplesql.py:1417-1426 | the parsed table and column hold no '.', the where column and value no '='; every failure is a two-part unpacking that got another number of parts |
| ElementKeys.LabelShape | pysimplesql/pysimplesql.py:2081-2087 | a label ends in ':', has no '_', does not start with a lower-case letter and has no capital after the first character |
| ElementKeys.LabelText | pysimplesql/pysimplesql.py:2081-2088 | a derived label ends in ':'; failures are the missing field of a too-short split or a two-part unpacking that got another number of parts |
| ElementKeys.CapitalizedShape | pysimplesql/pysimplesql.py:2081-2087 | `capitalize()` keeps text free of '_' and leaves no capital after the first character |
| ElementKeys.ParsedKeyHasLabel | pysimplesql/pysimplesql.py:2081-2087 | every key the element mapper accepts gets the label of its where value, or of its column when it has none |
| KeyGen.KeyName | pysimplesql/pysimplesql.py:1921-1930 | a key handed out for the first time is the key itself; later ones are longer and start with the key |
| KeyGen.Requests | pysimplesql/pysimplesql.py:1921-1930 | n successive requests hand out n keys |
| KeyGen.RequestsAt | pysimplesql/pysimplesql.py:1921-1930 | the i-th of successive requests is the key tagged with the count before the requests plus i |
| KeyGen.FreshRequests | pysimplesql/pysimplesql.py:1921-1930 | for a fresh or reset key the first request gives the bare key and request i+1 gives key + separator + str(i) |
| KeyGen.KeyNameInjective | pysimplesql/pysimplesql.py:1921-1930 | different counts never give the same key |
| KeyGen.RequestsDistinct | pysimplesql/pysimplesql.py:1921-1930 | successive requests for one key never hand out the same key twice |
| KeyGen.StripGeneratedKey | pysimplesql/pysimplesql.py:66-70 | `strip` of any key generated from a colon-free key with ':' is the original key |
| KeyGen.KeysOfDifferentRequestsCanCollide | pysimplesql/pysimplesql.py:1921-1930 | uniqueness is per requested key: two different requested keys can get the same name (the second "a" and the first "a:1") |
| KeyGen.KeyGenerator.constructor | pysimplesql/pysimplesql.py:1920 | the dictionary starts empty |
| KeyGen.KeyGenerator.Generate | pysimplesql/pysimplesql.py:1921-1930 | returns the key for the current count and increments that count only |
| KeyGen.KeyGenerator.Reset | pysimplesql/pysimplesql.py:1931-1933 | removes the key; fails with a missing key exactly when it was not there, then changing nothing |
| KeyGen.KeyGenerator.ResetAllOf | pysimplesql/pysimplesql.py:1934-1937 | resets the keys in order; succeeds iff each key is still present when reached; a failure names the first key that is missing when reached, and only the keys before it are gone |
| KeyGen.KeyGenerator.ResetEverything | pysimplesql/pysimplesql.py:1939-1941 | the dictionary is empty afterwards |
| Records.Clamp | pysimplesql/pysimplesql.py:243-250 | with rows the stored index is the valid index closest to the value; without rows it is -1 for a value from 0 on and 0 below |
| Records.ClampInBounds | pysimplesql/pysimplesql.py:243-250 | the setter always stores an index that is in bounds (or -1/0 without rows) |
| Records.ClampIdempotent | pysimplesql/pysimplesql.py:243-250 | storing a stored index again changes nothing while there are rows |
| Records.ClampFlipsOnEmpty | pysimplesql/pysimplesql.py:243-250 | without rows the setter alternates between -1 and 0 |
| Records.ListIndex | pysimplesql/pysimplesql.py:784-790 | Python list indexing: valid exactly for -n <= i < n, negative indices count from the end, otherwise IndexError |
| Records.Cell | pysimplesql/pysimplesql.py:1018 | a row lookup succeeds exactly when the column is present, with its value |
| Records.CurrentRow | pysimplesql/pysimplesql.py:784-790 | no rows gives None; an in-bounds index gives that row; a stale negative index gives the row that many from the end; an index out of Python's range raises |
| Records.CurrentValue | pysimplesql/pysimplesql.py:742-758 | no rows gives the default; for the row Python's index selects (from the end for a stale negative index) a missing column raises, an empty text gives the default, any other cell is returned; an index past the rows raises |
| Records.FindRow | pysimplesql/pysimplesql.py:719-740 | the first row holding the key, or None when every row lacks it, or the missing-column error of the first row without the column |
| Records.FindRowAt | pysimplesql/pysimplesql.py:719-740 | after passing i non-matching rows the scan ends at the end, at a row without the column, or at a matching row i |
| Records.KeyedValue | pysimplesql/pysimplesql.py:760-763 | None when no row holds the key, otherwise the value column of the first such row; a missing key column raises |
| Records.KeyedValueOfFirstKey | pysimplesql/pysimplesql.py:997-1001 | with complete rows, the value beside the first occurrence of the key |
| Records.KeyedValueOfAbsentKey | pysimplesql/pysimplesql.py:997-1001 | with complete rows and no row holding the key, None |
| Records.DescriptionForPk | pysimplesql/pysimplesql.py:997-1001 | the description column of the first row whose primary key is the key, None when no row has it, and the row lookups' errors |
| Records.Range | pysimplesql/pysimplesql.py:689 | `list(range(lo, hi))`: its length and its elements |
| Records.ScanOrder | pysimplesql/pysimplesql.py:689 | the positions after the current one and those before it, as many as there are, and never the current one |
| Records.ScanOrderVisitsOthers | pysimplesql/pysimplesql.py:689 | from a stored index the scan visits every other row exactly once and never the current one |
| Records.ScanOrderWraps | pysimplesql/pysimplesql.py:689 | the k-th position visited is (cur + 1 + k) mod n |
| Records.Matches | pysimplesql/pysimplesql.py:690-692 | a match needs a present, truthy cell; an empty term matches every such cell |
| Records.ScanColumn | pysimplesql/pysimplesql.py:689-692 | the first visited row whose cell is present, truthy and contains the term regardless of case; a position past the rows raises |
| Records.SearchIn | pysimplesql/pysimplesql.py:687-709 | the columns are the outer loop: the first column that finds (or raises) decides, and all earlier ones found nothing |
| Records.SearchHit | pysimplesql/pysimplesql.py:687-709 | a found row is a row index among the positions the scan visits |
| Records.ScanFindsMatch | pysimplesql/pysimplesql.py:689-692 | a position a scan finds is a visited row whose cell matches |
| Records.ScanMissesAll | pysimplesql/pysimplesql.py:689-692 | a scan that finds nothing saw no match at any visited position |
| Records.SearchHitInRows | pysimplesql/pysimplesql.py:687-709 | a found row is one of the rows |
| Records.SearchNeverFails | pysimplesql/pysimplesql.py:687-709 | from a stored index the search never raises |
| Records.ScanColumnInRange | pysimplesql/pysimplesql.py:689-692 | a scan over row indices never raises |
| Records.SearchSound | pysimplesql/pysimplesql.py:687-709 | a found row is not the current one and matches in some search column |
| Records.SearchComplete | pysimplesql/pysimplesql.py:687-709 | nothing is found iff no other row matches in any search column |
| Records.SearchPrefersEarlierColumns | pysimplesql/pysimplesql.py:687-709 | the found row matches in some search column c, and no column before c matches any row other than the current one |
| Relationships.JoinPieceIsSpacedString | pysimplesql/pysimplesql.py:167-171 | a join piece is a blank and the relationship's string with blanks around its '=' |
| Relationships.ToString | pysimplesql/pysimplesql.py:167-171 | with no '=' in the names, the string splits at its one '=' into the join side and the parent's key |
| Relationships.ForTable | pysimplesql/pysimplesql.py:1264-1274 | exactly the relationships whose child is the table |
| Relationships.AutoJoin | pysimplesql/pysimplesql.py:508-511 | the generated join is the join pieces of exactly the table's own relationships, in order |
| Relationships.JoinClause | pysimplesql/pysimplesql.py:499-512 | a user join wins; otherwise the pieces of the table's relationships |
| Relationships.NoRelationshipNoJoin | pysimplesql/pysimplesql.py:508-512 | a table that is no relationship's child gets an empty generated join |
| Relationships.ParentValue | pysimplesql/pysimplesql.py:527 | for the parent row Python's index selects: its key as text, or "0" when the parent has no rows or the key is empty text; a missing parent query, key column or row raises |
| Relationships.WhereBecomesAnd | pysimplesql/pysimplesql.py:528 | a later condition's " WHERE " becomes " AND " |
| Relationships.AutoWhere | pysimplesql/pysimplesql.py:522-529 | raises exactly when a cascading relationship's parent lookup raises, with the first such error; is empty exactly when no relationship cascades; otherwise starts with " WHERE " |
| Relationships.AutoWhereIsConjunction | pysimplesql/pysimplesql.py:522-529 | for conditions not spelling WHERE, the generated part is " WHERE c1 AND c2 ..." over the cascading relationships, or their first error |
| Relationships.AutoWhereErrPrefix | pysimplesql/pysimplesql.py:522-529 | the first failing relationship decides the error |
| Relationships.NoCascadeOwnWhere | pysimplesql/pysimplesql.py:531-533 | without cascading relationships the where clause is the query's own |
| Relationships.WhereClause | pysimplesql/pysimplesql.py:514-538 | raises exactly when a parent lookup raises; is the query's own clause without cascading relationships; otherwise starts with " WHERE " |
| Relationships.CascadeWhere | pysimplesql/pysimplesql.py:534-536 | with cascading relationships the own clause follows after a blank, its WHERE turned into AND |
| Relationships.RequeryTables | pysimplesql/pysimplesql.py:1276-1288 | exactly the parents and children of requerying relationships |
| Relationships.ParentOf | pysimplesql/pysimplesql.py:1290-1299 | None iff no relationship requeries the table; otherwise the parent of the first that does |
| Relationships.FirstWithFk | pysimplesql/pysimplesql.py:1012-1017 | the first relationship whose foreign key is the column |
| Relationships.CellValue | pysimplesql/pysimplesql.py:1011-1018 | a row without the column never gives a value; the only errors are missing columns and missing parent queries |
| Relationships.CellValueOfPlainColumn | pysimplesql/pysimplesql.py:1018 | a column that no relationship has as its foreign key shows the row's own cell |
| Relationships.CellValueOfMissingParent | pysimplesql/pysimplesql.py:1012-1014 | a foreign key whose parent query the form does not hold raises |
| Relationships.CellValueOfForeignKey | pysimplesql/pysimplesql.py:1012-1014 | a foreign key shows the description of the first parent row whose primary key is the cell's value |
| Relationships.CellValueOfUnknownKey | pysimplesql/pysimplesql.py:1012-1014 | a foreign key that no parent row holds shows None |
| Relationships.RowValues | pysimplesql/pysimplesql.py:1009-1019 | a row's list has one value per column |
| Relationships.RowValuesCells | pysimplesql/pysimplesql.py:1009-1019 | each value of a row's list is that column's cell value, in column order |
| Relationships.RowValuesError | pysimplesql/pysimplesql.py:1009-1019 | a row's values raise only the error of one of its cells |
| Relationships.RowValuesTotal | pysimplesql/pysimplesql.py:1009-1019 | a row whose every cell can be shown gives a list |
| Relationships.TableValues | pysimplesql/pysimplesql.py:1003-1020 | the table's list has one entry per row |
| Relationships.TableValuesRows | pysimplesql/pysimplesql.py:1003-1020 | each entry of the table's list is that row's list, in row order |
| Relationships.TableValuesError | pysimplesql/pysimplesql.py:1003-1020 | the table's values raise only the error of one of its rows |
| Relationships.TableValuesTotal | pysimplesql/pysimplesql.py:1003-1020 | a table whose every row can be shown gives a list |
| Relationships.PlainTableValues | pysimplesql/pysimplesql.py:1003-1020 | without foreign keys among the columns, the values are the cells themselves |
| Relationships.RowValuesErrPrefix | pysimplesql/pysimplesql.py:1009-1019 | the first failing column decides the error |
| Relationships.TableValuesErrPrefix | pysimplesql/pysimplesql.py:1005-1020 | the first failing row decides the error |
| Cursor.CanonicalCallback | pysimplesql/pysimplesql.py:318-326 | unsupported names have no slot; `before_update`/`after_update` map to the save slots; other names to themselves |
| Cursor.CanonicalCallbackIdempotent | pysimplesql/pysimplesql.py:324-326 | a stored name is its own canonical name |
| Cursor.UpdateAliasesSave | pysimplesql/pysimplesql.py:324-326 | the update aliases name the save slots |
| Cursor.SearchEffect | pysimplesql/pysimplesql.py:672-709 | a refusing before_search cancels first; an empty term ends it next; a refusing after_search sets the clamped old index back; a find that stands moves to the found row; every other outcome keeps the index |
| Cursor.SearchEffectInBounds | pysimplesql/pysimplesql.py:659-709 | a search from a stored index never raises, keeps the index in bounds, only moves to another matching row, and otherwise keeps the index |
| Cursor.SearchEffectNotFound | pysimplesql/pysimplesql.py:687-709 | a search that runs returns False iff no other row matches in any search column |
| Cursor.FoundPkIsCurrent | pysimplesql/pysimplesql.py:765-770 | after `set_by_pk` found its row, the current pk is the key (or '' for an empty text key) |
| Cursor.Query.constructor | pysimplesql/pysimplesql.py:205-231 | default query `SELECT * FROM table`, default order by the description, index 0, everything else empty |
| Cursor.Query.SetCurrentIndex | pysimplesql/pysimplesql.py:243-250 | stores the clamped value |
| Cursor.Query.Load | pysimplesql/pysimplesql.py:575-578 | the fetched rows replace the rows; with select_first the first record is selected |
| Cursor.Query.First | pysimplesql/pysimplesql.py:591-606 | index 0, or -1 without rows |
| Cursor.Query.Last | pysimplesql/pysimplesql.py:608-622 | the last index, or 0 without rows |
| Cursor.Query.Next | pysimplesql/pysimplesql.py:624-639 | moves by exactly +1 iff not at the last row, else stays |
| Cursor.Query.Previous | pysimplesql/pysimplesql.py:641-657 | moves iff the index is positive, by exactly -1 from a stored index, else stays |
| Cursor.Query.SetByIndex | pysimplesql/pysimplesql.py:714-717 | stores the clamped index |
| Cursor.Query.SetByPk | pysimplesql/pysimplesql.py:719-740 | the first row holding the key becomes current; no match or a missing column leaves the index |
| Cursor.Query.Search | pysimplesql/pysimplesql.py:659-709 | the outcome and new index are those of the specification: cancel, empty term, revert or not found keep the index; a find moves to the first match |
| Cursor.Query.SearchColumnsOf | pysimplesql/pysimplesql.py:687-709 | the outer loop over the search columns computes the specified search |
| Cursor.Query.ScanColumnOf | pysimplesql/pysimplesql.py:689-692 | the inner scan computes the specified first match |
| Cursor.Query.SetSearchOrder | pysimplesql/pysimplesql.py:282-293 | stores the order |
| Cursor.Query.SetJoinClause | pysimplesql/pysimplesql.py:347-359 | stores the clause |
| Cursor.Query.SetWhereClause | pysimplesql/pysimplesql.py:361-373 | stores the clause |
| Cursor.Query.SetCallback | pysimplesql/pysimplesql.py:295-329 | supported names store the function under the canonical name; unknown ones raise with the callbacks unchanged |
| Cursor.Query.GetKeyedValue | pysimplesql/pysimplesql.py:760-763 | computes the specified keyed value |
| Cursor.Query.GetDescriptionForPk | pysimplesql/pysimplesql.py:997-1001 | the description column of the first row with the key, or None |
| Cursor.Query.GenerateJoinClause | pysimplesql/pysimplesql.py:499-512 | the stored join when set, else the pieces of the table's relationships |
| Cursor.Query.GenerateWhereClause | pysimplesql/pysimplesql.py:514-538 | computes the specified where clause, including its errors |
| Cursor.Query.GenerateQuery | pysimplesql/pysimplesql.py:553-557 | starts with the query, is three blanks and the switched-on clauses long, holds the stored join right after the first blank, and is the query and three blanks with every flag off |
| Cursor.Query.UnsetClausesAddNothing | pysimplesql/pysimplesql.py:553-557 | a flag whose stored clause is empty does not change the query |
| Cursor.Query.StoredJoinOnly | pysimplesql/pysimplesql.py:540-557 | with no stored join the query holds no join even when the table's relationships give one |
| Cursor.Query.TableValuesOf | pysimplesql/pysimplesql.py:1003-1020 | computes the specified table values over the column names or the given columns |
| Cursor.Query.RowValuesOf | pysimplesql/pysimplesql.py:1007-1019 | computes one row's specified values |
| Cursor.Query.CellOf | pysimplesql/pysimplesql.py:1009-1018 | computes one cell's specified value |
| Forms.ReplacedEntry | pysimplesql/pysimplesql.py:1466-1470 | other events unchanged; the event's entry gets the new function and the new table unless none is given |
| Forms.ReplacedEntryIdempotent | pysimplesql/pysimplesql.py:1466-1470 | replacing twice is replacing once |
| Forms.SaveMessage | pysimplesql/pysimplesql.py:1575-1581 | the problem message iff a failure; nothing-to-update iff no failure and no success |
| Forms.Form.constructor | pysimplesql/pysimplesql.py:1117-1118 | no event entries and no relationships |
| Forms.Form.AddRelationship | pysimplesql/pysimplesql.py:1246-1262 | appends the relationship |
| Forms.Form.GetRelationshipsForTable | pysimplesql/pysimplesql.py:1264-1274 | the relationships whose child is the table, in order |
| Forms.Form.GetCascadedRelationships | pysimplesql/pysimplesql.py:1276-1288 | each name once, exactly the parents and children of requerying relationships |
| Forms.Form.GetParent | pysimplesql/pysimplesql.py:1290-1299 | the parent of the first requerying relationship of the table, or None |
| Forms.Form.MapEvent | pysimplesql/pysimplesql.py:1457-1464 | appends the entry |
| Forms.Form.ReplaceEvent | pysimplesql/pysimplesql.py:1466-1470 | every entry is replaced as specified, in place, and the map keeps its length |
| Forms.Form.SaveRecords | pysimplesql/pysimplesql.py:1561-1581 | the counts of each result code, and the message: problem iff a failure, nothing iff no failure and no success |
| Templates.Placeholder | examples/orders_multiple_databases.py:85 | `{{` key `}}`: four characters longer than the key |
| Templates.Rendered | examples/orders_multiple_databases.py:81-88 | an empty context leaves the template unchanged |
| Templates.RenderWithoutPlaceholders | examples/orders_multiple_databases.py:81-88 | a template without a brace renders to itself |
| Templates.PassReplacesEveryOccurrence | examples/orders_multiple_databases.py:85-86 | a pass replaces every occurrence of its placeholder by the value's text |
| Templates.RenderFillsPlaceholder | examples/orders_multiple_databases.py:81-88 | the placeholder of a one-entry context is filled with the value's text |
| Templates.OtherPlaceholderAbsent | examples/orders_multiple_databases.py:85-86 | a different brace-free key's placeholder does not occur around a placeholder |
| Templates.UnknownPlaceholderStays | examples/orders_multiple_databases.py:81-88 | a placeholder whose key is not in the context is left as it is |
| Templates.RenderedAppend | examples/orders_multiple_databases.py:84-86 | passes run in context order, each over the previous output |
| Templates.Template.constructor | examples/orders_multiple_databases.py:78-79 | stores the template string, which is constant afterwards |
| Templates.Template.Render | examples/orders_multiple_databases.py:81-88 | computes the specified rendering |

## Left out

- The GUI is not modelled: windows, elements, popups, and `update_elements`. `prompt_save` and its dialog are left out too, as are the `record_changed` callback's effects.
- All SQLite work is left out, because it goes through a database connection: the connection, `execute`, `save_record`, `insert_record`, `delete_record`, `get_max_pk`, and `requery`'s query. `Query.Load` models only `requery`'s effect on the rows and the index.
- `requery_dependents` is not modelled. After navigation it requeries other queries through the database.
- `requery` with `filtered=False` reads the local names `join` and `where` before assigning them, so it raises `UnboundLocalError`. The model covers only the filtered path, through `GenerateJoinClause` and `GenerateWhereClause`.
- `Cursor.Query.Search` takes the window's element values and the callbacks' answers as parameters. The callbacks themselves are not run.
- `Forms.Form.SaveRecords` takes the per-table result codes as a parameter. It does not model choosing the tables. That choice is either the cascaded names or all queries, and the order of Python's `set` is not defined.
- Forms.Form.GetCascadedRelationships: returns the names in first-seen order, while Python returns them in the unspecified order of a `set`. The contract states the names and their uniqueness, not their order.
- `escape`, `get_related_table_for_column`, the `Row` class, `quick_editor`, the selectors and the auto-mapping of queries, relationships and events are not modelled.
- Floats and blobs are not modelled: cell values are `None`, integers or text.
- Case-insensitive matching lowers ASCII letters only. Python's Unicode case mapping is not modelled.
- Relationships.AutoWhereIsConjunction: requires that no condition contains the text "WHERE". Python's `replace('WHERE', 'AND')` also rewrites such text inside key values, and the lemma does not cover that case.
- Records.Cell: looks a column up by its exact name. An sqlite3 row also finds a name that differs in ASCII case, so a lookup the model reports as a missing column can succeed in Python.
- Relationships.CascadeWhere: requires that no condition contains the text "WHERE", as `AutoWhereIsConjunction` does, because `replace` also rewrites such text inside key values.
- Templates.RenderFillsPlaceholder: proved only when the text before and after the placeholder holds no '{'. Such a brace could combine with the placeholder's own braces, so the general claim is not proved.
- Templates.UnknownPlaceholderStays: proved for a template with one such placeholder and brace-free surroundings and keys. The general claim is not proved, because a replacement can create or split placeholders.
- Templates.PassReplacesEveryOccurrence: proved for brace-free text between the occurrences. Overlapping occurrences are not covered.
- Cursor.Query.Previous: from an index beyond the rows, which only a `requery` without `select_first` can leave, it moves to the clamped index rather than by one.
- `Query.set_query`, `set_order_clause` and `set_description_column` are not modelled. They only assign a field; `Cursor.Query.constructor` fixes those fields' initial values.
- `keygen_reset_from_form` walks the form's element map. `KeyGen.KeyGenerator.ResetAllOf` takes the element keys as a sequence instead.
- `pysimplesql/language_pack.py`, the docker helpers and the packaging files are not part of this model.
