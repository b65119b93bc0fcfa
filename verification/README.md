# NDB chemistry query and reshape — a Dafny model

This project models the data path of `get_chemistry_values` in the NIVA
database viewer (`ndbview/ndb_queries.py`). It also models the selection
guards and placeholder lists of `get_project_stations` and
`get_station_parameters`.

The function takes the selected station ids, parameter ids and a date window.
It checks that the selections are not empty and builds the query's placeholder
lists and bind dictionary. It then cleans the fetched rows:

- it drops exact duplicates;
- it reports rows that share an identity key (station, date, depth1, depth2,
  parameter name, unit) but differ in flag or value;
- it keeps the last such row.

Finally it names each column `parameter_name + "_" + unit`, optionally merges
the detection-limit flag into the value text, and unstacks the rows into a wide
table. That table has one row per (station, date, depth1, depth2) and one
column per parameter-unit.

Modules:

- `Wrappers`: `Option` and `Result`.
- `Orders`: lexicographic order, a sort, and the sorted set of distinct values
  that `unstack` produces.
- `Seqs`: boolean-mask selection, subsequences, and exact `drop_duplicates`.
- `Records`: the fetched row, its keys and their orders, and column naming.
- `Selection`: the empty-selection guards, the `:i` placeholder lists, the bind
  dictionary, and named versus positional binding.
- `Reconcile`: the conflict report, last-wins resolution, and their
  combination.
- `Pivot`: the flag merge and `unstack`.
- `Chemistry`: the whole call, with the fetched rows as an input.

Modelling choices:

- Rows are records in fetch order.
- A date is an `int`, because only its order matters.
- A value is a `real`.
- The float-to-text conversion is a function parameter `render`.
- Null depths and flags are `Option`s. Pandas treats two nulls as equal when
  it compares rows or keys, and `Option` equality does the same.
- Where a null depth sorts depends on the step. The conflict report's
  `sort_values` puts nulls after every number (`na_position='last'`).
  `unstack` factorises each index level and gives null the lowest code, so in
  the wide table a null depth comes before every number.
- Strings compare by code point.

## Model

| member | source | states |
|---|---|---|
| `Seqs.DropDuplicates` | ndbview/ndb_queries.py:248 | exact dedupe leaves no repeated row, loses no distinct row, and keeps the rest in their original order |
| `Seqs.DropDuplicatesKeepsFirst` | ndbview/ndb_queries.py:248 | dedupe equals the independent first-occurrence definition: the first copy of each row survives |
| `Seqs.DropDuplicatesIdempotent` | ndbview/ndb_queries.py:248 | deduping twice is the same as deduping once |
| `Seqs.Select` | ndbview/ndb_queries.py:251 | boolean-mask indexing yields exactly the rows whose mask entry is true, in order |
| `Seqs.SelectByValue` | ndbview/ndb_queries.py:251 | under a mask decided by row contents, each kept row occurs as often as in the input and every other row vanishes |
| `Orders.Sort` | ndbview/ndb_queries.py:257-262 | the result is ordered by the key and is a permutation of the input |
| `Orders.LexStrictTotal` | ndbview/ndb_queries.py:257-262 | sorting by several columns is lexicographic order, which is a strict total order when each column's order is one |
| `Records.IdentityKeyLessTotal` | ndbview/ndb_queries.py:257-262 | the six-column key order, with nulls last, is a strict total order |
| `Records.NullDepthPlacement` | ndbview/ndb_queries.py:257-296 | for every key, a null first depth sorts after a numeric one in the report's key order and before it in the wide table's row order, all other columns equal |
| `Records.SameKeyDiffersInFlagOrValue` | ndbview/ndb_queries.py:250-251 | two different rows with the same identity key differ in flag or in value |
| `Reconcile.ConflictReport` | ndbview/ndb_queries.py:251-262 | the report is sorted by key and contains each row of a shared key as often as the input does, and no other row |
| `Reconcile.ConflictReportMembers` | ndbview/ndb_queries.py:251-256 | a row is reported if and only if it is in the input and its key occurs at least twice |
| `Reconcile.EmptyReportMeansUniqueKeys` | ndbview/ndb_queries.py:264 | an empty report means every identity key is already unique |
| `Reconcile.ReportedRowsDisagree` | ndbview/ndb_queries.py:247-262 | after exact dedupe, each reported row has a partner with the same key and a different flag or value |
| `Reconcile.LastWithKey` | ndbview/ndb_queries.py:272-278 | the last row with a given key: absent exactly when no row has the key |
| `Reconcile.KeepLast` | ndbview/ndb_queries.py:272-278 | keys become unique, no key is lost, each survivor is the last row with its key and sits at that row's position, so survivors follow the order of those last positions |
| `Reconcile.KeepLastExample` | ndbview/ndb_queries.py:272-278 | for `[a, b, a]` with different keys, keep-last gives `[b, a]` |
| `Reconcile.KeepLastOfUnique` | ndbview/ndb_queries.py:272-278 | keep-last does nothing when keys are already unique |
| `Reconcile.ResolveIsKeepLast` | ndbview/ndb_queries.py:264-278 | skipping the keyed dedupe when the report is empty gives the same rows as always running it |
| `Reconcile.ReconcileRows` | ndbview/ndb_queries.py:247-278 | unique keys, the fetched key set, last wins among the exact-deduped rows, the survivors a subsequence of the exact-deduped rows (so their order is kept), and a report sorted by key, listing each conflicting row exactly once |
| `Reconcile.DropRepeatedFirst` | ndbview/ndb_queries.py:248 | exact dedupe of `[a, b, a]` keeps `[a, b]` |
| `Reconcile.LastCountedAfterDedupe` | ndbview/ndb_queries.py:248-278 | for `[a, b, a]` with one key, `b` wins, because "last" is counted after exact dedupe removed the second `a` |
| `Reconcile.ReconcileOfUniqueKeys` | ndbview/ndb_queries.py:247-278 | rows with distinct keys pass reconciliation unchanged |
| `Records.ColumnNameExamples` | ndbview/ndb_queries.py:281 | sample concatenations of the Python expression, including an empty unit giving a trailing `_` |
| `Records.ColumnNameCollides` | ndbview/ndb_queries.py:281 | `("a_b", "c")` and `("a", "b_c")` give the same column name |
| `Records.ColumnNameInjective` | ndbview/ndb_queries.py:281 | when no unit contains `_`, the column name determines parameter name and unit |
| `Pivot.CellOf` | ndbview/ndb_queries.py:285-291 | with flags the cell is text that is exactly the flag (empty when null) followed by the value's text; without flags it is the number |
| `Pivot.LodMergeExamples` | ndbview/ndb_queries.py:285-291 | `<` with 0.5 gives `<0.5`, a null flag with 12.0 gives `12.0`, and flags off keep the number |
| `Pivot.LodMergeRecoverable` | ndbview/ndb_queries.py:285-288 | for `<`, `>` or no flag, the merged text splits back into flag and value text |
| `Pivot.Unstack` | ndbview/ndb_queries.py:294-302 | fails exactly when two rows aim at one cell; otherwise rows (null depths first) and columns are sorted and distinct and cover exactly the input's keys and column names |
| `Pivot.UnstackCells` | ndbview/ndb_queries.py:294-296 | a cell is empty exactly when no input row aims at it, and otherwise holds that row's value |
| `Pivot.UnstackPlacesEveryRow` | ndbview/ndb_queries.py:294-296 | every input row lands in a cell, found under its row key and column, holding its value |
| `Pivot.UnstackDistinct` | ndbview/ndb_queries.py:294-296 | one output row per distinct row key and one column per distinct parameter-unit, so each input row's cell is unique |
| `Pivot.UnstackHeader` | ndbview/ndb_queries.py:294-302 | the header is the four key columns in order, then every distinct parameter-unit name exactly once |
| `Selection.DecimalRoundTrip` | ndbview/ndb_queries.py:235-237 | `'%d' % i` reads back as i |
| `Selection.DecimalInjective` | ndbview/ndb_queries.py:235-237 | different numbers give different bind keys |
| `Selection.SplitJoin` | ndbview/ndb_queries.py:204-208 | a comma join of comma-free parts splits back into the same parts |
| `Selection.BindListReadsBack` | ndbview/ndb_queries.py:204-208 | the placeholder list for `lo..hi-1` names `:lo` to `:hi-1`, each once, in order |
| `Selection.NumberedBindsKeys` | ndbview/ndb_queries.py:235-237 | the enumerated dictionary has exactly the keys `offset` to `offset+n-1` |
| `Selection.NumberedBindsAt` | ndbview/ndb_queries.py:235-237 | key i of the enumerated dictionary holds id i-offset: no entry overwrites another |
| `Selection.NumeralKeysDisjoint` | ndbview/ndb_queries.py:235-239 | station and parameter key ranges do not overlap, so the second update does not overwrite the first |
| `Selection.ChemistryQueryOf` | ndbview/ndb_queries.py:189-197 | no stations fails first, then no parameters; success exactly when both selections are non-empty |
| `Selection.BindParamsKeys` | ndbview/ndb_queries.py:233-239 | the bind dictionary holds the two date keys and one numeral key per station and parameter |
| `Selection.BindParamsDates` | ndbview/ndb_queries.py:233-239 | the date keys keep their dates after both updates |
| `Selection.BindParamsStation` | ndbview/ndb_queries.py:235-239 | key i below n holds station i after both updates |
| `Selection.BindParamsParameter` | ndbview/ndb_queries.py:236-239 | key n+k holds parameter k |
| `Selection.ChemistryQueryBindsSelection` | ndbview/ndb_queries.py:204-239 | binding each placeholder of both lists by name gives back the selected ids, position by position |
| `Selection.ProjectStationsQuery` | ndbview/ndb_queries.py:89-94 | fails with the project message exactly when no project is selected |
| `Selection.StationParametersQuery` | ndbview/ndb_queries.py:138-143 | fails with the station message exactly when no station is selected |
| `Selection.ListQueryBindsIds` | ndbview/ndb_queries.py:89-94 | one placeholder per id, and positional binding gives the id at the same position |
| `Chemistry.GetChemistryValues` | ndbview/ndb_queries.py:189-302 | the selection errors in order, any other failure is the reshape's, and the returned duplicates are exactly the fetched rows whose key is shared after dedupe, each once, sorted by key |
| `Chemistry.LongCollisionMeansNameClash` | ndbview/ndb_queries.py:281-296 | after reconciliation, a reshape collision needs two different (name, unit) pairs of one wide row with the same column name |
| `Chemistry.PlainUnitsUnstack` | ndbview/ndb_queries.py:281-296 | rows with distinct identity keys and no `_` in any unit always unstack without a collision |
| `Chemistry.PlainUnitsNeverCollide` | ndbview/ndb_queries.py:271-296 | when no unit contains `_`, the call never fails once stations and parameters are selected |
| `Chemistry.ClashingNamesFail` | ndbview/ndb_queries.py:281-296 | for any fetch, two fetched rows of one wide row whose pairs join to one column name make the call fail |
| `Chemistry.ClashingSurvivorsCollide` | ndbview/ndb_queries.py:264-296 | reconciliation keeps a row for each of two clashing keys, and those rows aim at the same cell |
| `Chemistry.ClashingRowsCollide` | ndbview/ndb_queries.py:281-296 | two clashing rows given to the reshape aim at the same cell |
| `Chemistry.CallFailsIffNamesClash` | ndbview/ndb_queries.py:247-296 | with both selections made, the call fails exactly when two fetched rows of one wide row clash on their column name |
| `Chemistry.ClashingNamesExample` | ndbview/ndb_queries.py:281-296 | `("a_b", "c")` and `("a", "b_c")` at one station and date make the call fail |
| `Chemistry.RowHasItsCell` | ndbview/ndb_queries.py:281-296 | each row given to the reshape has a cell under its row key and column name, holding its merged value |
| `Chemistry.EveryFetchedRowHasItsCell` | ndbview/ndb_queries.py:247-296 | each fetched row's wide row and column exist, and the cell holds the merged value of the last deduped row with its key |
| `Chemistry.ReversedDatesGiveEmptyTable` | ndbview/ndb_queries.py:199-240 | a start date after the end date is not rejected: it yields an empty table and an empty report |

## Left out

- The SQL text, `pd.read_sql` and the database itself. The fetched rows are an
  input. `FetchedBy` states what the WHERE clause guarantees of them: the
  station is selected and the date is in the window.
- The parameter filter `b.parameter_id IN (...)` and `c.approved = 1`. The
  fetched rows carry no parameter id or approval column, so neither condition
  can be stated of them.
- `value * conversion_factor` is computed in the database. The fetched value is
  taken as given.
- Latin-1 decoding of text columns. Strings are already sequences of
  characters here.
- `strptime` parsing of the date strings. Dates are taken as already parsed,
  and a malformed date string is outside the model.
- The console warning (`print`) and the `print df.head()`.
- Float formatting of `astype(str)`. It is the `render` parameter.
- `Pivot.CellOf`: says nothing about the exact digits of the value's text.
  They depend on that float formatting.
- Null parameter names, units and values. The row fields `parameterName`,
  `unit` and `value` are never null here. In the source, a null name or unit
  makes the `par_unit` column null rather than a string. The database stores an
  empty string as null, so a unitless parameter arrives with a null unit. The
  example `"pH", ""` in `Records.ColumnNameExamples` is the Python expression,
  not a row the database can return.
- `Orders.Sort`: does not state that equal keys keep their input order. The
  source does not request a stable sort.
- `unstack` of an empty frame. The model returns an empty table, which matches
  the empty case but not the exact pandas column layout.
- The `drop_duplicates(inplace=True)` on the selected id column.
  - Whether it deduplicates the ids read on the next line depends on how the
    pandas version caches and writes back the column.
  - The model takes the id lists as given, duplicates or not.
  - Only membership in the lists reaches the fetch. Repeated ids repeat
    placeholders and bind entries, but select the same rows.
- Project and station table rows returned by `get_project_stations` and
  `get_station_parameters`. Only their guards and bind lists are modelled.
- The Flask endpoints in `ndbview/ndbview.py` are not part of this model.
- Date-range validation, station-name alias collapsing, and tie-breaking
  by entry date do not exist in the code, so they are not modelled. Reversed
  dates give an empty result (`Chemistry.ReversedDatesGiveEmptyTable`).

## Behaviour worth noting

No defect is claimed. Two behaviours deserve a reader's attention:

- The column name is not injective. Two different (name, unit) pairs can clash
  (`Records.ColumnNameCollides`), and such a clash makes the whole call fail
  (`Chemistry.ClashingNamesExample`).
- "Last" is counted after exact dedupe, not in fetch order
  (`Reconcile.LastCountedAfterDedupe`).

Whether either was intended cannot be told from the code.
