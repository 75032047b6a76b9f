# tabler core, modelled in Dafny

`tabler` opens a CSV, JSON or Excel file and shows it as a table in the
terminal. This project models the logic between the file parsers and the
table printer, and proves properties of it:

- **Extension classifier** (`FileExtension`, file_extension.dfy). A file name
  is sorted into `Json`, `Csv` or `Excel` by the lower-cased text after its
  last `.`. Any other text is refused with `Unsupported file extension : `
  followed by that text.
- **JSON flattener** (`ReadJson`, read_json.dfy). The nested `iterate` walks
  a parsed JSON tree depth first. It builds a dotted path through object keys
  and keeps the path unchanged through arrays. Each scalar leaf becomes its
  own one-key row. The column step then collects every row key exactly once.
- **Row builders** (`ReadRecords`, read_records.dfy). These are the record
  loops of `read_csv` and `read_excel`. Field `i` of a record is filed under
  header `i`, and each record gives one row, in order.
- **Table layout** (`TableStructure`, table_structure.dfy). `design` takes the
  column list as the title row. It projects each row onto the columns, with
  `"NaN"` for a missing cell, and prints the first ten table rows.
  `Display` (display.dfy) links the readers' rows to that projection.
- **Column filter** (`ColumnFilter`, column_filter.dfy). This is the block of
  `main` that splits a column request into matched and misspelled names and
  reassigns the dataframe's columns.

`Frame` (frame.dfy) holds the shared `DataFrame`, `Row`, `Option` and `Result`
types.

Parsed input stands in for the files. A JSON document is a `Json` tree. A CSV
file is its header plus a sequence of records, each either parsed fields or
the parser's error. A workbook sheet is the sequence of its range rows as cell
texts.

Three behaviours of the code are worth stating up front, because the model
follows them as written:

- `read_excel` takes the range's first row as the header
  (src/file_extension/mod.rs:138). Its loop then visits every row of the range
  (src/file_extension/mod.rs:142), so the header row is also the first data
  row (`ReadRecords.HeaderRowMapsToItself`).
- In `read_csv` a record error aborts the whole read through `result?`
  (src/file_extension/mod.rs:72). No record is skipped (`ReadRecords.ReadCsv`).
- `main` gathers a row count, a default-rows flag, an indent flag and a sheet
  name (src/main.rs:14-22, src/main.rs:28, src/main.rs:57-62). The `read_excel`
  shown always opens `"Sheet1"` (src/file_extension/mod.rs:136). The `design`
  shown takes only the dataframe, uses indent 30 and prints `slice(..10)`
  (src/file_extension/table_structure.rs:12, src/file_extension/table_structure.rs:43,
  src/file_extension/table_structure.rs:47).

## Model

| member | source | states |
|---|---|---|
| FileExtension.Split | src/file_extension/mod.rs:30 | `split` always yields at least one piece; no piece holds the separator; a name without a separator is one piece, the name itself |
| FileExtension.JoinSplit | src/file_extension/mod.rs:30 | splitting loses nothing: joining the pieces with the separator gives the name back |
| FileExtension.LastSegment | src/file_extension/mod.rs:30-31 | the segment holds no `.`, ends the name, and is either the whole name or preceded by a `.`: it is the text after the last `.` |
| FileExtension.LastPieceIsTail | src/file_extension/mod.rs:30-31 | the last piece ends the name, holds no separator, and is either the whole name or follows a separator, so it is exactly the text after the last `.` |
| FileExtension.NoDotWholeName | src/file_extension/mod.rs:30-31 | with no `.` the whole name is the segment matched on |
| FileExtension.SegmentAfterLastDot | src/file_extension/mod.rs:30-32 | whatever precedes the last `.` has no influence on the segment |
| FileExtension.ToLower | src/file_extension/mod.rs:32 | ASCII lower-casing: keeps the length and leaves no ASCII capital; the last two ensures define the per-character mapping (every non-capital kept, each capital moved to its small letter) |
| FileExtension.ToLowerIdempotent | src/file_extension/mod.rs:32 | lower-casing an already lower-cased name changes nothing |
| FileExtension.GetFileExtension | src/file_extension/mod.rs:29-56 | `json` gives Json, `csv` gives Csv, `xlsx`/`xls` give Excel (compared lower-cased), each in both directions; on success the file name is returned unchanged; otherwise the error message is the fixed prefix followed by the lower-cased segment |
| FileExtension.ClassifiedByLastSegment | src/file_extension/mod.rs:29-56 | a name classifies exactly as its last segment alone does: same success, same family, same error message |
| FileExtension.NoDotErrorNamesWholeName | src/file_extension/mod.rs:54 | a refused name without `.` is named whole, lower-cased, in the error |
| FileExtension.UpperCaseExample | src/file_extension/mod.rs:31-39 | `report.JSON` is a JSON file with its name unchanged |
| FileExtension.LastSegmentExample | src/file_extension/mod.rs:54 | `data.csv.bak` is refused with a message naming `bak` |
| FileExtension.NoDotExample | src/file_extension/mod.rs:54 | `README` is refused with a message naming `readme` |
| ReadJson.Iterate | src/file_extension/mod.rs:97-119 | the recursive walk appends to the given rows exactly the rows of the flattening of the value under the prefix: object entries under `key` or `prefix.key`, array elements under the unchanged prefix, one `{prefix: text}` row per leaf |
| ReadJson.IterateEntries | src/file_extension/mod.rs:99-107 | the loop over an object's entries appends exactly the rows of flattening every entry in order, each under `key` when the prefix is empty and `prefix.key` otherwise |
| ReadJson.IterateElements | src/file_extension/mod.rs:108-112 | the loop over an array's elements appends exactly the rows of flattening every element in order, each under the unchanged prefix |
| ReadJson.Flatten | src/file_extension/mod.rs:97-119 | the rows `iterate` appends for a value: exactly one per scalar leaf of the tree |
| ReadJson.FlattenChildren | src/file_extension/mod.rs:99-112 | the rows appended for the first n children: exactly one per scalar leaf below them |
| ReadJson.FlattenShape | src/file_extension/mod.rs:97-119 | the flattening has exactly one row per leaf; every row has exactly one key; every key is the prefix or lies below it in the dotted path (with the empty prefix this last part holds of every key; the exact dotted path of each leaf comes from the definition of `Flatten` and is shown by `ArrayOfLeaves` and the two examples) |
| ReadJson.FlattenChildrenShape | src/file_extension/mod.rs:99-112 | the same for the rows of the first n entries of an object or elements of an array |
| ReadJson.ArrayOfLeaves | src/file_extension/mod.rs:108-116 | an array of n scalars gives n separate rows, row i being `{prefix: text_i}`; the index is never part of the key |
| ReadJson.NestedObjectExample | src/file_extension/mod.rs:99-106 | `{"a":{"b":1,"c":2}}` gives the rows `{"a.b":"1"}` and `{"a.c":"2"}` |
| ReadJson.ArrayOfRecordsExample | src/file_extension/mod.rs:108-111 | `{"a":[{"x":1},{"x":2}]}` gives two separate rows, both keyed `a.x`; the array is not merged into records |
| ReadJson.CollectColumns | src/file_extension/mod.rs:121-123 | the column list holds no duplicate, and a name is in it if and only if it is a key of some row |
| ReadJson.FromJson | src/file_extension/mod.rs:94-130 | `read_json` after parsing: the rows are the flattening from the empty prefix, one per leaf, each with exactly one key; the columns are duplicate-free, exactly the row keys, and every row key is a column |
| ReadRecords.InsertFields | src/file_extension/mod.rs:73-78 | the inner loop builds the map that files field i under `columns[i]` for every field of the record |
| ReadRecords.RecordRow | src/file_extension/mod.rs:76-78 | a record's row has as keys exactly the header names of its fields, so a subset of the columns |
| ReadRecords.RecordRowLastWins | src/file_extension/mod.rs:76-78 | under a repeated header name the row keeps the last field filed under it |
| ReadRecords.RecordRowAt | src/file_extension/mod.rs:76-78 | with distinct header names, field i sits under `columns[i]` |
| ReadRecords.ReadCsv | src/file_extension/mod.rs:65-86 | fails if and only if some record failed to parse, and then with the error of a record preceded only by parsed ones; otherwise the columns are the header, there is one row per record in record order, as the inner loop builds it, and every row key is a column |
| ReadRecords.ReadExcel | src/file_extension/mod.rs:138-156 | the columns are the first range row; every range row, the header row included, gives one row in order, as the inner loop builds it; every row key is a column |
| ReadRecords.RecordRowsWithinColumns | src/file_extension/mod.rs:71-80 | rows built record by record never have a key outside the columns |
| ReadRecords.HeaderRowMapsToItself | src/file_extension/mod.rs:138-149 | the header row kept as data maps each distinct header name to itself |
| TableStructure.Cell | src/file_extension/table_structure.rs:25 | its two ensures define `unwrap_or("NaN")`: the row's value for the column when the row has the column, `NaN` when it does not. The facts about cells are `ProjectIgnoresOtherKeys`, `ProjectByName`, `Display.RecordRoundTrip` and `Display.JsonRowShowsOneCell` |
| TableStructure.ProjectRow | src/file_extension/table_structure.rs:24-26 | a projected row has exactly one cell per column |
| TableStructure.ProjectIgnoresOtherKeys | src/file_extension/table_structure.rs:25 | row keys that are not columns never show |
| TableStructure.ProjectByName | src/file_extension/table_structure.rs:24-26 | a cell depends only on the column's name, not its position, so filtering the columns keeps what a retained column shows |
| TableStructure.Table.constructor | src/file_extension/table_structure.rs:13 | a new table has no titles and no rows |
| TableStructure.Table.SetTitles | src/file_extension/table_structure.rs:16-20 | sets the title row and leaves the rows alone |
| TableStructure.Table.AddRow | src/file_extension/table_structure.rs:29-32 | appends one row and leaves the titles alone |
| TableStructure.Table.Slice | src/file_extension/table_structure.rs:47 | the first n rows of the table, in order |
| TableStructure.Design | src/file_extension/table_structure.rs:12-48 | the titles are the columns in order; the printed rows are the first ten dataframe rows in order; each has one cell per column, cell j being the row's value for column j or `NaN` when the row lacks it |
| Display.RecordRoundTrip | src/file_extension/table_structure.rs:24-26 | with distinct header names a CSV or Excel record is displayed as its own fields followed by `NaN` for each header it was too short to reach. This is more general than either reader needs: the csv reader is not built `flexible`, so a record of another length than the header is an error, and calamine rows span the full range width, so no padding occurs in practice |
| Display.JsonRowShowsOneCell | src/file_extension/table_structure.rs:24-26 | a flattened JSON row shows its leaf text in exactly one column and `NaN` in all others |
| ColumnFilter.SplitRequest | src/main.rs:33-42 | the loop pushes exactly the requested names that are columns onto the first list and the others onto the second, in request order |
| ColumnFilter.Matched | src/main.rs:36-42 | the matched list is never longer than the request, and every name in it is a column |
| ColumnFilter.Misspelled | src/main.rs:36-42 | the misspelled list is never longer than the request, and no name in it is a column |
| ColumnFilter.MatchedConcat | src/main.rs:36-42 | the loop handles the request name by name: matching a request split in two gives the two matched lists one after the other |
| ColumnFilter.MisspelledConcat | src/main.rs:36-42 | the same for the misspelled list |
| ColumnFilter.Rearrangement | src/main.rs:36-42 | every requested name lands on exactly one of the two lists, as often as it was requested: together they are a rearrangement of the request |
| ColumnFilter.Partition | src/main.rs:36-42 | a name is in the matched list if and only if it was requested and is a column, and in the misspelled list if and only if it was requested and is not a column |
| ColumnFilter.Occurrences | src/main.rs:36-42 | a name occurs in the matched list as often as it was requested if it is a column and never otherwise, and the other way round for the misspelled list, so repeats are kept |
| ColumnFilter.OrderKept | src/main.rs:36-42 | when every requested name is a column the matched list is the request itself, and when none is the misspelled list is |
| ColumnFilter.SelectColumns | src/main.rs:31-56 | rows are never changed and every resulting column was a column before; with no request nothing changes and nothing is reported; otherwise the misspelled names are reported exactly when there are some, and the columns become the matched names, or stay as they were when none matched |

## Left out

- File I/O and the parsers are not modelled: `File::open`, the `csv` reader, `serde_json::from_reader` and calamine's `open_workbook`, `worksheet_range("Sheet1")` and `headers`. Their results are inputs, and their errors are not modelled except as the per-record errors `ReadRecords.ReadCsv` receives.
- Leaf and cell texts are not computed. They come from the `Display` formatting of serde_json and calamine values, and the model takes them as given strings.
- `HashMap` and `HashSet` iteration order is unspecified. `ReadJson.CollectColumns` takes keys out of the set in an arbitrary order and states only set facts. The order of a JSON object's entries is whatever order the `Json` value lists them in.
- FileExtension.GetFileExtension: lower-cases ASCII letters only, where `str::to_lowercase` handles all of Unicode. The outcome of the classification is the same, because no non-ASCII character lower-cases to a letter of `json`, `csv`, `xlsx` or `xls`. The error text for a segment with non-ASCII capitals can differ.
- FileExtension.ToLower: ASCII only. `str::to_lowercase` also lower-cases non-ASCII capitals and can change the length (one capital can become two characters). The classification is unaffected, because no non-ASCII character lower-cases to a letter of `json`, `csv`, `xlsx` or `xls`; only the error text for a segment with non-ASCII capitals can differ.
- TableStructure.Table.Slice: on a table with fewer than ten rows the model keeps all rows. prettytable's `slice(..10)` probably panics there, since it slices its row vector with an out-of-range end; that library code is not part of this model.
- prettytable styling, colours, borders, padding, the fixed indent of 30 and `printstd` are rendering and are not modelled.
- The misspelling diagnostic is modelled as the list it prints. Its `eprintln!` text and the printing of errors in `main` are not modelled.
- Argument handling with clap (`arguments`, `parse_args`) is command-line plumbing and is not modelled. `get_df` is dispatch glue, and its `unwrap` panics are not modelled either.
- `main` calls `get_df` and `design` with arguments that the shown definitions do not take. Only the column-filter block of `main` is modelled.
- Panics are preconditions. `columns[i]` panics on a record longer than the header, so `ReadRecords.InsertFields`, `ReadRecords.ReadCsv` and `ReadRecords.ReadExcel` require records no longer than the header. `ReadCsv` requires this only of the records its loop reaches. `headers().unwrap()` panics on an empty range, so `ReadExcel` requires a non-empty range.
