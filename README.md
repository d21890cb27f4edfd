# Lookup Automator, modelled in Dafny

Lookup Automator is a small Streamlit application that does in the browser what a
spreadsheet VLOOKUP/XLOOKUP does. The user uploads a base file and a lookup file
(CSV or Excel). Each is loaded into a table whose repeated column names are
discarded. The user then picks a key column in each file, the columns to fetch,
and where the fetched columns should go. The base table is then left-joined to the
lookup table. Each base row receives the values of the first lookup row with the
same key, or missing values when there is none. The fetched columns are then moved
to the chosen place.

This project models the data-handling core of `app.py` as pure Dafny functions
over an explicit table type, and proves the properties that core promises:

- `Tables`: cells, tables, and the pandas column and row selections (by
  position, by boolean mask, by name).
- `Loader`: `load_spreadsheet`. It chooses the parser from the lower-cased file
  extension, refuses unsupported and empty files, and keeps the first column of
  each name.
- `Merge`: `merge_frames`. It filters the requested columns, trims the lookup
  table, drops repeated keys (first row wins) and left-joins. A fetched column
  whose name a base column has gets the `_lookup` suffix, and a merge whose
  suffixes would repeat an incoming name is refused. The reference key column
  is dropped.
- `Ordering`: `order_columns`. It computes the insertion index from
  "(At beginning)", "(At end)" or an anchor column, and splices the new columns
  in as one block.
- `Pipeline`: the "Run lookup" action (app.py lines 101-106). It merges,
  computes the new columns, orders them and selects them from the merged table.
- `Seqs` and `Wrappers`: sequence facts (first index, filter, mask positions)
  and `Option`/`Result`.

The main results are these:
- `Merge.MergeFramesSpec` reads the merge against an independent reference
  definition. That definition (`Merge.Fetched`) takes the first matching row
  straight from the untrimmed, undeduplicated lookup table.
- `Pipeline.RunLookupSpec` states the whole action's result. Each base row has
  its own cells unchanged and in order, with what its key fetches spliced in at
  the insertion index.
- Loading is idempotent.

## Model

| member | source | states |
|---|---|---|
| Loader.FormatOf | app.py:14-20 | the CSV parser is chosen exactly when the last four characters, lower-cased, are ".csv". The Excel parser is chosen exactly when the last five are ".xlsx" or the last four are ".xls". Every other name is unsupported |
| Loader.IsEmpty | app.py:22 | a table is empty exactly when no row holds a cell, that is, it has no rows or no columns |
| Loader.FormatIgnoresCase | app.py:14-17 | a file name and its lower-case form select the same parser: the extension test ignores case |
| Loader.FormatByExtension | app.py:14-18 | a name ending in ".csv" or ".CSV" goes to the CSV parser; one ending in ".xlsx" or ".XLS" goes to the Excel parser |
| Loader.LoadSpreadsheet | app.py:8-29 | no upload gives neither table nor message. An unsupported extension gives exactly the "Unsupported file type" message. A parser failure gives "Could not read file: " plus its message. A parsed table gives "Uploaded file has no rows." exactly when it has no rows or no columns. A supported, parsed, non-empty upload loads that parsed table with repeated names dropped. A loaded table has at least one row and one column, and distinct names |
| Loader.DropDuplicateColumns | app.py:25-26 | the result has pairwise distinct column names and as many rows as the input. It keeps at least one column when there was one |
| Loader.DropDuplicateColumnsSpec | app.py:26 | every name survives, and no other; survivors are in first-occurrence order; each survivor holds the cells of the first column with its name |
| Loader.DropDuplicateColumnsIdempotent | app.py:26 | dropping repeated names a second time changes nothing |
| Loader.RepeatedNameExample | app.py:25-27 | a parsed table with columns A, B, A and cells 1, 2, 3 loads as A, B with cells 1, 2. Dropping repeated names again returns it unchanged |
| Merge.LookupColumns | app.py:34 | the fetched columns are the requested columns that the lookup table has, other than its key. Request order and multiplicity are kept, and the key is never among them |
| Merge.TrimReference | app.py:38 | the trimmed lookup table has the key column, then the fetched columns, with their cells, row for row |
| Tables.SelectByName | app.py:106 | selecting names that all label columns gives those names as columns, in that order. Row i holds, for each name, row i's cell in the first column with that name |
| Merge.DropDuplicateKeys | app.py:38 | after dropping repeated keys the columns are unchanged, no row is added, every kept row is a row of the input, and every key occurs once |
| Merge.DropDuplicateKeysSpec | app.py:38 | looking any key up after the drop finds the same row as in the full table: the first occurrence wins |
| Merge.Suffixed | app.py:39 | an incoming name keeps its name exactly when no base column has it; otherwise it gets the "_lookup" suffix |
| Merge.LeftJoin | app.py:39 | the join keeps every base row, in order: the base columns and each base row's cells come first, unchanged, followed by one column per reference column |
| Merge.DropColumn | app.py:41 | dropping a name removes every column with that name and keeps every other name; the number of rows is unchanged |
| Merge.Merged | app.py:38-41 | the join has one row per base row and keeps every base column. The reference key is absent when it is not a base column name |
| Merge.DropReferenceKey | app.py:40-41 | corrected drop: the reference key column is removed unless a base column has its name, and every base column survives |
| Merge.MergeFrames | app.py:32-42 | fails with the message "No valid lookup columns selected." exactly when nothing can be fetched. Fails with a suffix collision exactly when the keys exist and the suffixes repeat an incoming name. Fails exactly when one of these happens or a key column is missing. On success: as many rows as the base table, every base column present, reference key absent |
| Merge.KeyNotSuffixed | app.py:39 | when the suffixes do not collide, no suffixed lookup column takes the reference key's name |
| Merge.SuffixCollisionExample | app.py:39 | a base table with K, x and a reference table with RK, x, x_lookup: fetching x and x_lookup is refused, since both would arrive as "x_lookup" |
| Merge.KeyCollisionExample | app.py:39 | a reference table keyed on "x_lookup", fetching a column x the base table also has, is refused |
| Merge.MatchedIsFetched | app.py:38-39 | trimming and deduplicating the lookup table does not change what a key fetches: the first lookup row with that key, or missing values |
| Merge.MergedSpec | app.py:38-41 | the join's columns are the base columns followed by the fetched names, suffixed where a base column has the name. Row i is base row i unchanged, followed by what its key fetches |
| Merge.MergeFramesSpec | app.py:32-42 | a successful merge equals that reference definition: base columns and rows unchanged and in order, each row extended by the first matching lookup row's values |
| Merge.MergeFirstMatchWins | app.py:38-39 | when lookup row p is the first whose key equals base row i's key, row i receives row p's values, whatever later rows with that key hold |
| Merge.MergeUnmatchedMissing | app.py:39 | a base row whose key no lookup row has receives a missing value in every fetched column |
| Merge.MergeRenamesCollisions | app.py:39 | a fetched column whose name a base column has arrives as that name plus "_lookup", and the name still labels the base column at its original position |
| Ordering.InsertionIndex | app.py:47-52 | "(At beginning)" gives 0 and "(At end)" gives the number of base columns. Otherwise the index exists exactly when the anchor is a base column, and it points just past the anchor's first occurrence. A missing anchor is reported |
| Ordering.OrderColumns | app.py:45-53 | the new columns appear as one intact block at the insertion index. Taking the block out restores the base columns, and the result is a permutation of base plus new columns |
| Ordering.OrderAfterExample | app.py:51-53 | inserting X, Y after A in A, B, C gives A, X, Y, B, C |
| Ordering.OrderMissingAnchorExample | app.py:52 | an anchor that names no base column is refused |
| Pipeline.NewColumns | app.py:104 | the new columns are exactly the merged names that are not base names, in merged order, each as often as it occurs in the merged names |
| Tables.SelectNamed | app.py:106 | selecting names succeeds exactly when every name labels a column. It then yields those columns in that order, each cell taken from the first column with its name. Otherwise the names that label no column are reported |
| Pipeline.ArrangeColumns | app.py:103-106 | with a known anchor, arranging succeeds exactly when every base column is still in the merged table. Otherwise it reports precisely the missing base names. On success the columns are the ordering of the base and new columns, and each cell is the merged table's cell in the same row under that name |
| Pipeline.RunLookup | app.py:101-106 | a merge failure is passed on. After a successful merge, the action fails exactly when the anchor is unknown. On success the result has one row per base row |
| Pipeline.RunLookupSpec | app.py:102-106 | with k the insertion index, the result's columns are the base columns with the fetched names inserted at k. Row i is base row i with what its key fetches inserted at k |
| Pipeline.OfferedAnchorNeverFails | app.py:92-98 | an anchor taken from the offered choices ("(At beginning)", the base columns, "(At end)") never makes the action fail; only the merge can |
| Pipeline.KeyNameClashFails | app.py:40-41 | as written, when the reference key's name is also a base column name, the drop removes that base column whatever the join produced. The final selection then fails, naming it |
| Pipeline.GuardedDropKeepsBase | app.py:40-41 | with the corrected drop, the action succeeds exactly when the anchor exists. The reference key's name appears in the result only as a base column |

## Findings

| source | as written | input that shows it | evidently intended | confidence | as-written member | corrected member |
|---|---|---|---|---|---|---|
| app.py:40-41 | `merged.drop(columns=[right_key])` removes every column labelled `right_key`, including a base column with that name | both files keyed on a column called "ID": the base "ID" column is dropped, then `merged[ordered_columns]` (app.py:106) asks for "ID" and raises `KeyError`, so "Run lookup" fails | remove only the reference table's copy of its key; every base column stays | medium; not executed | Pipeline.KeyNameClashFails | Merge.DropReferenceKey |

The as-written lemma quantifies over every joined table. It therefore holds
however pandas names or coalesces the two key columns. The corrected drop
(`Merge.DropReferenceKey`) is the one `Merge.Merged` uses.
`Pipeline.GuardedDropKeepsBase` proves the intended outcome for any join that
keeps the base column names, as a left merge with suffixes ("", "_lookup") does.
With distinct key names that are both base columns, the reference key's renamed
copy ("ID_lookup") would stay among the fetched columns under the correction.

## Left out

- Parsing: `pd.read_csv` and `pd.read_excel` are not modelled. An upload carries
  the outcome of each parser (a table or an error message), and the loader
  consults the one its extension selects.
- Exception text: the message of a parser exception is an opaque string. The
  text of pandas' `KeyError` is not modelled; the missing names are returned
  instead. Nor is the text of its `MergeError`.
- Loader.Lower: lower-cases ASCII letters only, where Python's `str.lower` is
  Unicode-aware.
- Cell values: pandas dtype inference and coercion are not modelled. A cell is
  missing, text, a number or a flag. Missing keys match each other in the join,
  as NaN keys do in pandas. A key whose dtypes differ between the two files
  (pandas raises) is not modelled.
- Merge.MergeFrames: requires that the reference key's name is not a base
  column name. How pandas names or coalesces the two key columns in that case
  is library behaviour that is not modelled. The finding above covers what the
  drop does there, for any naming.
- Merge.MergeFrames: the suffix collision failure follows pandas 2, which
  checks the incoming columns only. pandas 1 merely warned and returned the
  repeated names.
- Pipeline.RunLookupSpec: assumes that the base names and the fetched,
  suffixed names are pairwise distinct. pandas does not check names across the
  two sides: a base column "x_lookup" beside a fetched "x" gives a merged table
  with two "x_lookup" columns. Selecting a repeated label then returns every
  column carrying it, which the model does not follow (see Tables.SelectByName).
- Tables.SelectByName: picks the first column of each name. pandas returns
  every column with a repeated label. The model only selects from tables whose
  names are distinct in the cases its lemmas cover.
- The Streamlit interface is not modelled: page layout, widgets, the disabled
  button, the success message with the row count, the CSV download
  (`to_csv`), and the "Lookup failed:" prefix on displayed errors.
