# csv_utils, modelled in Dafny

`csv_utils` is a small Python 2 helper library. It converts between nested
dictionaries and flat rows whose field names are dotted paths (`"a.b.c"`), and
it reads, writes and appends tab-separated files. This project models the part
of `csv_utils/csv_utils.py` that holds real logic and proves what it does:

- **Path flattening** (`set_deep`, `unflatten`, `dict_to_flat_pairs`,
  `flatten_obj`), module `PathFlattener`.
  - A nested value is the closed type `Leaf(scalar) | Nested(entries)`.
  - A dictionary is an ordered list of key/value pairs (`Dicts`), so iteration
    order, and with it "the last write wins", can be stated.
  - `key.split('.')` and `'.'.join(path)` are modelled exactly in `Strings`.
- **Row tabulation** (`rows_to_tuples`), module `RowTabulator`.
  - The inferred header is the sorted union of the row keys, using Python's
    string order.
  - Each tuple is aligned with the header, with `None` for a missing field.
- **Loading rows** (`load_csv_rows`, `load_csv`), module `CsvLoader`.
  - The input is the file's lines, already split into cells.
  - Covered: the `drop_odds` parity toggle, the `no_nones` width and `'None'`
    filter, the "not uniform width" error, zipping cells with the header, and
    the per-column lists of `load_csv`.
- **Writing and appending** (`write_csv`, `write_csv_columns`,
  `write_csv_rows`, `write_csv_headers_rows`, `append_csv_rows`), module
  `CsvFiles`.
  - The file is a `CsvFile` object: whether it exists, plus its lines.
  - Each write method states the whole new content of the file.
  - `append_csv_rows` has three branches: the file is missing, the new names
    are a subset of the old header, or a new name forces a rewrite.

How the model stands in for the parts of Python it cannot run:

- A cell is decoded by `float()`. The float parser is the parameter
  `parse: string -> Option<real>`, where `None` stands for `ValueError`.
- A float is written back by the csv writer as its `repr`. That conversion is
  the parameter `show: real -> string`. `None` is written as the empty field,
  and text is written as it is.
- Every exception the code can raise on these paths is an `Error` value in the
  result (`Errors.Error`). A crash becomes a result, not a precondition.

## Model

| member | source | states |
|---|---|---|
| Strings.Split | csv_utils/csv_utils.py:19 | `key.split('.')`: at least one token, and no token contains a '.' |
| Strings.JoinSplit | csv_utils/csv_utils.py:19 | joining the tokens of any key with '.' gives the key back |
| Strings.SplitJoin | csv_utils/csv_utils.py:34 | splitting the '.'-join of a non-empty path of dot-free tokens gives the path back |
| Strings.JoinInjective | csv_utils/csv_utils.py:34 | two non-empty dot-free paths with the same '.'-join are equal |
| Strings.StrictlySortedUnique | csv_utils/csv_utils.py:123 | a strictly sorted list is determined by its set of elements |
| Cells.Decode | csv_utils/csv_utils.py:52-55 | a cell is a number exactly when `float()` accepts it, and that number; otherwise the unchanged text |
| Dicts.LookupNone | csv_utils/csv_utils.py:10-13 | a lookup misses (the `KeyError` branch) exactly when the key is absent |
| Dicts.PutLookup | csv_utils/csv_utils.py:7 | after `obj[k] = v`, k maps to v and every other key keeps its value |
| Dicts.PutShape | csv_utils/csv_utils.py:13 | assigning a new key appends it at the end; an existing key keeps its position and the size |
| Dicts.CollectLast | csv_utils/csv_utils.py:34 | in a dict comprehension a key holds the value of its last pair |
| Dicts.CollectAbsent | csv_utils/csv_utils.py:34 | a key that no pair carries is not in the comprehension's result |
| Dicts.CollectFresh | csv_utils/csv_utils.py:34 | with no repeated key, the comprehension keeps every pair, in order |
| Dicts.CollectAgreeing | csv_utils/csv_utils.py:34 | when every pair with a key carries the same value, the comprehension maps the key to that value |
| Dicts.PutEntries | csv_utils/csv_utils.py:7 | after `obj[k] = v`, every entry is the new one or an old one |
| PathFlattener.SetDeepOk | csv_utils/csv_utils.py:5-14 | set_deep succeeds exactly when no proper prefix of the path already leads to a scalar |
| PathFlattener.WalkAfterSetDeep | csv_utils/csv_utils.py:5-14 | after set_deep, the path leads to the value; paths off that path are unchanged; prefixes still lead to records |
| PathFlattener.FoldUnder | csv_utils/csv_utils.py:10-14 | setting paths under an existing record `k` equals setting them inside that record and putting it back |
| PathFlattener.FoldUnderNew | csv_utils/csv_utils.py:12-13 | setting paths under a missing key `k` builds a fresh `{}` there first |
| PathFlattener.FoldKeeps | csv_utils/csv_utils.py:16-20 | unflatten leaves every path unrelated to the keys' paths as it was |
| PathFlattener.FoldReaches | csv_utils/csv_utils.py:16-20 | with prefix-free paths, every path leads to its own value afterwards |
| PathFlattener.UnflattenReaches | csv_utils/csv_utils.py:16-20 | when no key is a proper dotted prefix of another, unflatten succeeds and walking `k.split('.')` reaches `x[k]` for every key |
| PathFlattener.Unflatten | csv_utils/csv_utils.py:16-20 | the loop over the keys gives the specified result, and reaches every key when the keys are prefix-free |
| PathFlattener.RebuildFrom | csv_utils/csv_utils.py:16-34 | unflattening the pairs of a record's remaining entries appends exactly those entries |
| PathFlattener.PairsSound | csv_utils/csv_utils.py:22-31 | every pair of dict_to_flat_pairs starts with the root, and its path leads to its scalar |
| PathFlattener.PairsComplete | csv_utils/csv_utils.py:22-31 | every path that leads to a scalar appears as a pair |
| PathFlattener.PairsShape | csv_utils/csv_utils.py:22-31 | for flattenable records, the paths are dot-free, start with the root (strictly longer below a record), and are pairwise distinct |
| PathFlattener.PairsRoot | csv_utils/csv_utils.py:22-31 | a longer root only prefixes every path, in the same order |
| PathFlattener.PairsNonEmpty | csv_utils/csv_utils.py:22-31 | a non-empty flattenable record contributes at least one pair |
| PathFlattener.FlattenObjLastWins | csv_utils/csv_utils.py:33-34 | flatten_obj maps a joined path to the value of the last pair with that joined path |
| PathFlattener.FlattenObjMissing | csv_utils/csv_utils.py:33-34 | flatten_obj has no key other than the joins of the paths |
| PathFlattener.FlattenObjCollision | csv_utils/csv_utils.py:33-34 | `{"a.b": 1, "a": {"b": 2}}` flattens to `{"a.b": 2}`: the earlier value is lost |
| PathFlattener.RoundTrip | csv_utils/csv_utils.py:16-34 | a record with dot-free keys and no empty sub-record survives unflatten(flatten_obj(r)) unchanged |
| PathFlattener.SetDeepProper | csv_utils/csv_utils.py:5-14 | set_deep of a scalar keeps every level of the record free of repeated keys |
| PathFlattener.SetDeepLeaves | csv_utils/csv_utils.py:5-14 | after set_deep, a scalar sits only at the path just set or where a scalar sat before |
| PathFlattener.FoldProper | csv_utils/csv_utils.py:16-20 | the unflatten loop keeps every level free of repeated keys |
| PathFlattener.FoldLeaves | csv_utils/csv_utils.py:16-20 | after the unflatten loop, a scalar sits only at one of the keys' split paths or where one sat before |
| PathFlattener.UnflattenedPair | csv_utils/csv_utils.py:16-31 | with prefix-free keys, every pair flattened out of unflatten(x) is an entry of x with its key split on '.' |
| PathFlattener.FlattenUnflatten | csv_utils/csv_utils.py:16-34 | when no key is a dotted prefix of another, flatten_obj(unflatten(x)) equals x as Python compares dicts: every key has the same value or is absent from both |
| RowTabulator.AllKeysMember | csv_utils/csv_utils.py:119-122 | a name is in the union of the keys exactly when some row has it |
| RowTabulator.SortedKeys | csv_utils/csv_utils.py:123 | `sorted(list(keys))` is strictly ascending and holds exactly the keys |
| RowTabulator.RowsToTuples | csv_utils/csv_utils.py:115-130 | given headers are used as they are; otherwise the header is the sorted union of all keys; one tuple per row, in order, holding `row.get(h)` for each header name |
| RowTabulator.InferredHeaderKeepsFields | csv_utils/csv_utils.py:119-130 | with the inferred header, no name repeats and every field of every row lands at its name's position |
| RowTabulator.InferredHeaderUnique | csv_utils/csv_utils.py:123 | the inferred header is fully determined by the rows |
| CsvLoader.KeptIndices | csv_utils/csv_utils.py:71-80 | every kept row passes the `drop_odds` parity test and the `no_nones` filter |
| CsvLoader.KeptComplete | csv_utils/csv_utils.py:71-80 | every row that passes both tests is kept |
| CsvLoader.KeptIncreasing | csv_utils/csv_utils.py:71-88 | kept rows stay in file order |
| CsvLoader.KeptAll | csv_utils/csv_utils.py:71-75 | with no filter, every row is kept |
| CsvLoader.KeptOdd | csv_utils/csv_utils.py:71-75 | with `drop_odds` alone, exactly the 2nd, 4th, ... data rows are kept; the first is dropped |
| CsvLoader.NoNonesRows | csv_utils/csv_utils.py:76-80 | with `no_nones`, loading cannot fail, and every kept row has the header's width and no `'None'` cell |
| CsvLoader.ZipRowKeys | csv_utils/csv_utils.py:81-87 | a row's dictionary has exactly the header names of the positions the row fills |
| CsvLoader.ZipRowAt | csv_utils/csv_utils.py:81-87 | a name maps to the decoded cell of its last position in the row |
| CsvLoader.RowDict | csv_utils/csv_utils.py:81-87 | the loop builds the zipped dictionary, or fails at `header[i]` when the row is longer than the header |
| CsvLoader.LoadedOk | csv_utils/csv_utils.py:65-89 | loading succeeds exactly when every kept row fits the header; otherwise the error is the `header[i]` failure |
| CsvLoader.LoadedRows | csv_utils/csv_utils.py:71-88 | on success, the result is one zipped dictionary per kept row, in order |
| CsvLoader.LoadedAll | csv_utils/csv_utils.py:71-88 | with no filter and fitting rows, every data row is zipped, in order |
| CsvLoader.LoadedErrPrefix | csv_utils/csv_utils.py:71-88 | a failure in the first rows is the failure of the whole file |
| CsvLoader.LoadRows | csv_utils/csv_utils.py:71-89 | the loop with its `odd` toggle gives the specified result |
| CsvLoader.LoadCsvRows | csv_utils/csv_utils.py:65-89 | the first line is the header unless one is given; an empty file without a header fails |
| CsvLoader.CleanRows | csv_utils/csv_utils.py:49-50 | load_csv keeps exactly the rows with no `'None'` cell |
| CsvLoader.AddRowKeys | csv_utils/csv_utils.py:51-59 | adding a row creates a list for each header name the row fills |
| CsvLoader.AddRowOther | csv_utils/csv_utils.py:56-59 | adding a row leaves the list of any other name unchanged |
| CsvLoader.AddRowCol | csv_utils/csv_utils.py:56-59 | with a duplicate-free header, adding a row appends the decoded cell to its column's list |
| CsvLoader.AddCells | csv_utils/csv_utils.py:51-59 | the inner loop gives the specified column update |
| CsvLoader.ColumnsOk | csv_utils/csv_utils.py:46-48 | load_csv succeeds exactly when every row has the header's width; otherwise "not uniform width" |
| CsvLoader.ColumnsKeys | csv_utils/csv_utils.py:46-59 | the result has every header name, or none when no row survives the `'None'` filter |
| CsvLoader.ColumnsAre | csv_utils/csv_utils.py:46-59 | each column is the decoded cells at its position across the surviving rows, in order |
| CsvLoader.ColumnsErrPrefix | csv_utils/csv_utils.py:46-48 | a width error in the first rows is the error of the whole file |
| CsvLoader.LoadColumns | csv_utils/csv_utils.py:46-59 | the row loop gives the specified columns or error |
| CsvLoader.LoadCsv | csv_utils/csv_utils.py:40-63 | the first line is the header unless one is given; an empty file without a header fails |
| CsvFiles.Shortest | csv_utils/csv_utils.py:108 | `izip` stops at the shortest column (no columns: no rows) |
| CsvFiles.ChoiceAsWritten | csv_utils/csv_utils.py:98-104 | as written, write_csv never writes rows: only columns, or a failure |
| CsvFiles.Choice | csv_utils/csv_utils.py:98-104 | columns win; rows alone are written as rows; neither is refused |
| CsvFiles.ChoiceFinding | csv_utils/csv_utils.py:102 | the written and the intended dispatch differ exactly when only rows are given |
| CsvFiles.UnionHeader | csv_utils/csv_utils.py:149 | the union header has no name twice and holds exactly the old and the new names |
| CsvFiles.Reloaded | csv_utils/csv_utils.py:154 | reloading a file whose lines fit its header gives one dictionary per data line |
| CsvFiles.RewriteKeepsOldCells | csv_utils/csv_utils.py:153-159 | in the rewrite, every old cell is written again under its own column name, as `float()` reads it back |
| CsvFiles.CsvFile.WriteHeadersRows | csv_utils/csv_utils.py:91-96 | the file now exists and holds the header line and then one line per tuple |
| CsvFiles.CsvFile.AppendLines | csv_utils/csv_utils.py:161-165 | the old lines stay, and the tuples' lines follow them |
| CsvFiles.CsvFile.WriteCsvRows | csv_utils/csv_utils.py:111-113 | the file holds the header of rows_to_tuples and one line per row under it |
| CsvFiles.CsvFile.WriteCsvColumns | csv_utils/csv_utils.py:106-109 | the header is the column names; line i holds the i-th value of every column, up to the shortest column |
| CsvFiles.CsvFile.WriteCsv | csv_utils/csv_utils.py:98-104 | columns are written if given; otherwise rows; with neither it fails and the file is unchanged |
| CsvFiles.CsvFile.AppendCsvRows | csv_utils/csv_utils.py:132-165 | missing file: written fresh. Subset of the old names: old lines kept, new rows appended under the old header. New name: union header, then the reloaded old rows and the new rows. Every failure leaves the file unchanged |

## Left out

- Real file I/O is not modelled: `open`, `os.path.exists`, the csv reader and
  writer, the tab delimiter, and quoting. A file is its lines, already split
  into cells.
- Float parsing and float printing are parameters (`parse`, `show`), not
  floating point.
- The numpy branch of `load_csv` (lines 60-62) is left out. It is a foreign
  library. `to_np` is taken to be false.
- `write_mongo_collection` (lines 36-38) is left out. It only passes the rows of
  an external store's `find` through `flatten_obj` and `write_csv_rows`, and
  both of those are modelled.
- `setup.py` has no logic and is not part of this model.
- PathFlattener.SetDeep: does not model the in-place update of nested
  dictionaries and the aliasing it allows. It is a function from the old record
  to the new one, and a step into a scalar, where Python raises `TypeError`, is
  the `Conflict` error.
- Python 2 dictionaries have no guaranteed iteration order. The model fixes one
  (insertion order), so "the last pair wins" and the round trip's "order
  included" are with respect to that order.
- PathFlattener.FlattenUnflatten: states `flatten_obj(unflatten(x)) == x` key
  by key, as Python's dict equality does. The order of the entries is not
  promised: unflatten groups them by their first token.
- Cells.Decode: `parse` returns a real, so the values `float()` gives for
  "nan", "inf" and "infinity" are not representable. Such a cell decodes to
  text, or to whatever real `parse` is taken to give.
- CsvFiles.CsvFile.WriteCsvRows: a row value is a `Cell` (a float or text), so
  a caller's int, bool or `None` value cannot be expressed. Python writes those
  as "1", "True" and "", while the model can only write `show(1.0)` for 1.
- CsvFiles.CsvFile.WriteCsv: its rows carry the same narrowing of row values
  to `Cell` as `WriteCsvRows`.
- CsvFiles.CsvFile.AppendCsvRows: its new rows carry the same narrowing of row
  values to `Cell` as `WriteCsvRows`.
- CsvFiles.UnionHeader: promises a duplicate-free list of exactly the old and
  new names, and not an order. `list(old_set | new_set)` has no specified order.
  The model happens to keep the old header first.
- CsvFiles.CsvFile.AppendCsvRows: the rewrite branch states the header as any
  such union order, as `UnionHeader` does.
- CsvFiles.CsvFile.WriteCsv: uses the corrected dispatch (see Findings). The
  as-written dispatch is `ChoiceAsWritten`.
- `load_csv_rows` without `no_nones` accepts a row shorter than the header and
  gives a partial dictionary. Only a longer row fails, at `header[i]`. A
  general "width mismatch is an error" rule would be stricter than this code,
  and the model follows the code. `load_csv` does reject every width mismatch.
- When both columns and rows are given, `write_csv` writes the columns and
  ignores the rows. It does not refuse the call, and the model follows the code.
- `append_csv_rows` on an existing file with `headers=None` fails at
  `set(None)`. This is the `HeadersRequired` error, and the file is unchanged.
- `append_csv_rows` on an existing empty file fails at `reader.next()`
  (`EmptyFile`), and the file is unchanged.
- The partial write that an interrupted append can leave is not modelled.

## Findings

| source | as written | input that shows it | evidently intended | confidence | as-written member | corrected member |
|---|---|---|---|---|---|---|
| csv_utils/csv_utils.py:102 | `write_csv_rows(fname, columns)` in the branch where `columns is None` | `write_csv(fname, rows=[{"a": 1}])`: `rows_to_tuples` calls `list(None)`, which raises `TypeError`, so rows can never be written | `write_csv_rows(fname, rows)` | not executed | CsvFiles.ChoiceAsWritten | CsvFiles.Choice |
