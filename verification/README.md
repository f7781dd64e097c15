# KodaSQL storage engine in Dafny

This project models the storage-engine core of KodaSQL. KodaSQL is a small SQL server written in Rust that keeps every table as a CSV data file, a JSON schema file and JSON index files. The model covers the deterministic logic between the parsed SQL statement and the files:

- **Byte-offset indexing.** A row index holds the byte offset of every line of the data file. Each indexed column has an index holding the offset of its field in every row. The model computes these offsets when rows are appended, reads the field at an offset, and updates the indexes after INSERT and DELETE. It proves that a field read at its computed offset is the field that was written.
- **Filters.** A WHERE tree of `AND`, `OR`, `=` and parentheses is evaluated over full records and over rows restricted to the filter's columns. Filter columns are collected, and the index path is chosen when every filter column is indexed.
- **SELECT.** The AST is unwrapped, validated, read through the index or a full scan, sorted stably on the bytes of one column, limited, and formatted as one map per row.
- **INSERT and UPDATE validation.** Integer and boolean literals are type-checked. Absent values are completed from DEFAULT, NULL and NOT NULL. UNIQUE and PRIMARY KEY values are checked against stored and batch values, foreign-key values against the referenced columns, and column lists are transposed into rows.
- **Catalog and DDL.** Tables are looked up in the default schema, and headers come out in column order. The catalog is loaded and reloaded by replace-or-append. The model also covers the on-disk path convention, CREATE TABLE/SCHEMA, DROP TABLE/SCHEMA, ALTER TABLE dispatch and CREATE TRIGGER.

There is one Dafny module per source file, named after it (`OffsetCounter` for `offset_counter.rs`, `FilterChecker` for `filter_checker.rs`, and so on). `Types` holds the catalog records and the engine's error type. `Ast` holds the part of the SQL syntax tree the engine inspects. `Wrappers` and `Seqs` are small shared helpers.

The engine reads and writes files, takes a global mutex and parses floats. Each of these becomes an input or an output of the model:

- The data file is a `seq<byte>`.
- Index contents are value lists.
- Schema, index and configuration files that would be read are function-valued parameters returning a `Result`: `readSchema`, `loadTable`, `indexedValues`, `Stores`.
- A file write is a parameter returning an `Outcome` (`append`), or the value the write would store.
- The catalog mutex is a `loaded: Result<Database>` input, or a `lockPoisoned` flag.
- Float parsing is the predicate `parsesAsFloat`.
- The database root directory is the parameter `root`.

Errors are the engine's `Error` variants, carried in `Result`/`Outcome` values.

## Model

| member | source | states |
|---|---|---|
| OffsetCounter.ComputeInsertionOffsets | src/storage_engine/index/offset_counter.rs:4-28 | one offset list per column and one row offset per inserted row; row k's offset is the end-of-file offset plus the serialized bytes of rows 0..k, so the last one is the end-of-file offset plus all appended bytes; column j's list is the reference layout `ColumnOffsets` (rows must not have more fields than columns) |
| OffsetCounter.LayOutRow | src/storage_engine/index/offset_counter.rs:10-21 | the per-row loop: the row's byte length is the length of its serialized line (fields, commas, newline) and field j is pushed at the row start plus the field offset |
| OffsetCounter.ComputeHeadersOffset | src/storage_engine/index/offset_counter.rs:30-35 | the offset is the length of the header line including a newline, at least 1, and exactly 1 for a table without columns |
| OffsetCounter.RowStartsIncrease | src/storage_engine/index/offset_counter.rs:21-24 | a later row starts strictly after an earlier one |
| OffsetCounter.RowOffsetsIncrease | src/storage_engine/index/offset_counter.rs:13-24 | the pushed row offsets are strictly increasing and all lie after the end-of-file offset |
| OffsetCounter.ColumnOffsetsOfCompleteRows | src/storage_engine/index/offset_counter.rs:12-19 | when every row has field j, column j gets exactly one offset per row, the row start plus the earlier fields' bytes plus one comma each |
| OffsetCounter.ColumnOffsetsBounded | src/storage_engine/index/offset_counter.rs:17-23 | every column offset lies inside the appended bytes |
| OffsetCounter.FieldOffsetMonotone | src/storage_engine/index/offset_counter.rs:12-18 | field offsets within a row do not decrease |
| OffsetCounter.ColumnOffsetRoundTrip | src/storage_engine/index/offset_counter.rs:12-19 | round trip: after the rows are appended to any file, reading at the k-th offset of column j yields the UTF-8 bytes of row k's field j |
| DataFile.FieldOffsetIsSum | src/storage_engine/index/offset_counter.rs:12-18 | the field offset in closed form: the earlier fields' byte lengths plus one comma per earlier field |
| DataFile.FieldOffsetStep | src/storage_engine/index/offset_counter.rs:13-18 | stepping to the next field skips the field's bytes and one comma |
| DataFile.RowLength | src/storage_engine/index/offset_counter.rs:10-21 | a serialized row's length is its field bytes, n-1 commas and the newline |
| DataFile.JoinFieldsEncodesJoin | src/storage_engine/index/offset_counter.rs:31-34 | the joined field bytes are the UTF-8 encoding of the comma-joined text |
| DataFile.RowsBytesAppend | src/storage_engine/index/offset_counter.rs:9-25 | serializing a concatenation of row lists concatenates the serializations |
| DataFile.RowStartStep | src/storage_engine/index/offset_counter.rs:23-24 | the next row starts where the current row's line ends |
| DataFile.JoinFieldsHasNoNewline | src/storage_engine/index/index_reader.rs:62-66 | a line of plain fields contains no newline byte before its end |
| DataFile.ReadFieldInRow | src/storage_engine/index/index_reader.rs:35-41 | reading at field j's offset inside a row yields exactly field j's bytes |
| DataFile.ReadLineOfRow | src/storage_engine/index/index_reader.rs:62-68 | reading a line at a row's start yields its joined fields without the newline |
| DataFile.ReadFieldInFile | src/storage_engine/index/index_reader.rs:28-44 | in a file of rows after any prefix, the read at row k's field-j offset yields field j |
| DataFile.ReadLineInFile | src/storage_engine/index/index_reader.rs:55-71 | in a file of rows after any prefix, the line read at row k's start yields row k's joined fields |
| DataFile.ReadLineOfAsciiRow | src/storage_engine/index/index_reader.rs:62-70 | for ASCII rows, the byte-as-character line read gives back the comma-joined text |
| Bytes.Utf8 | src/storage_engine/index/offset_counter.rs:18 | `as_bytes` gives each character 1 to 4 bytes, so the encoding is at least as long as the text and at most four times as long |
| Bytes.Utf8Append | src/storage_engine/index/offset_counter.rs:18 | encoding distributes over concatenation |
| Bytes.PlainFieldHasNoDelimiter | src/storage_engine/index/index_reader.rs:37 | a field without ',' and '\n' encodes to bytes none of which stops the reader |
| Bytes.AsciiRoundTrip | src/storage_engine/index/index_reader.rs:40 | the reader's byte-to-character conversion inverts UTF-8 encoding on ASCII text |
| IndexReader.RowsIndexPath | src/storage_engine/index/index_reader.rs:15-16 | the rows index is the column-index path of the reserved name "row_offsets" |
| IndexReader.ReadRowsIndex | src/storage_engine/index/index_reader.rs:15-20 | the stored row index when the file exists, an I/O error otherwise |
| IndexReader.ReadColumnIndex | src/storage_engine/index/index_reader.rs:8-13 | the stored index of the named column when it exists, an I/O error otherwise |
| IndexReader.ReadFieldIsMaximalRun | src/storage_engine/index/index_reader.rs:35-41 | a field read is the maximal delimiter-free run starting at the offset, stopped by ',', '\n' or the end; empty at or past the end |
| IndexReader.ReadLineIsMaximalRun | src/storage_engine/index/index_reader.rs:62-68 | a line read is the maximal newline-free run starting at the offset; empty at or past the end |
| IndexReader.GetColumnValuesFromIndex | src/storage_engine/index/index_reader.rs:22-47 | one value per offset, in offset order, as long as the field read there; "" for offsets at or past the end |
| IndexReader.ColumnValuesHaveNoDelimiter | src/storage_engine/index/index_reader.rs:37-40 | no value read through an index contains ',' or '\n' |
| IndexReader.GetRowsFromRowOffsets | src/storage_engine/index/index_reader.rs:49-74 | one line per offset; "" for offsets at or past the end |
| IndexReader.ReadFieldShift | src/storage_engine/index/index_reader.rs:29 | the seek makes the bytes before the offset irrelevant |
| IndexReader.ReadFieldStops | src/storage_engine/index/index_reader.rs:37-38 | a read inside a delimiter-free run stops at the delimiter after it |
| IndexReader.ReadLineShift | src/storage_engine/index/index_reader.rs:56 | line reads ignore the bytes before the offset |
| IndexReader.ReadLineStops | src/storage_engine/index/index_reader.rs:64-65 | a line read inside a newline-free run stops at the newline after it |
| IndexUpdater.EndOfFileOffset | src/storage_engine/index/index_updater.rs:9-12 | the insert anchor is the last row-index entry, or 0 for an empty row index |
| IndexUpdater.AddIndexOffsetsOnInsert | src/storage_engine/index/index_updater.rs:7-39 | a missing row index is an I/O error and nothing changes; otherwise the row index grows by one offset per row with its old entries kept; only indexed columns' indexes change, each extended by its computed offsets; a missing column index fails with an I/O error |
| IndexUpdater.ExtendColumnIndexes | src/storage_engine/index/index_updater.rs:22-36 | positions past the schema and non-indexed columns are skipped; every indexed column's index is its old offsets followed by the new ones; the first missing index file stops the loop with an I/O error |
| IndexUpdater.UpdateIndexesOnDelete | src/storage_engine/index/index_updater.rs:41-71 | the row index is replaced by the recomputed offsets; every indexed column's index is overwritten with its name as key and its recomputed offsets; other indexes are untouched |
| IndexUpdater.OverwriteColumnIndexes | src/storage_engine/index/index_updater.rs:52-68 | the column-index loop of the delete path: indexed positions overwritten, others untouched |
| IndexUpdater.AnchorIsEndOfFile | src/storage_engine/index/index_updater.rs:9-12 | when the row index describes the file, the anchor is the file's length |
| IndexUpdater.InsertKeepsRowIndex | src/storage_engine/index/index_updater.rs:14-17 | if the row index described the file before the insert (header offset plus one entry per row end), it describes the file with the new rows appended |
| IndexUpdater.InsertKeepsColumnIndex | src/storage_engine/index/index_updater.rs:22-33 | the old column offsets followed by the offsets computed from the anchor are the column offsets of the extended file |
| IndexUpdater.IndexedReadReturnsField | src/storage_engine/index/index_updater.rs:33 | reading the data file at the k-th offset of column j's index yields row k's field j |
| IndexUpdater.RowStartAppend | src/storage_engine/index/index_updater.rs:14-17 | rows appended after others start after the earlier rows' bytes |
| IndexManager.IndexStrategy | src/storage_engine/index/index_manager.rs:25-27 | a column is indexed exactly when its constraints contain PrimaryKey or Unique |
| IndexManager.IndexableNames | src/storage_engine/index/index_manager.rs:6-7 | exactly the names of the columns the strategy selects |
| IndexManager.CreateIndexes | src/storage_engine/index/index_manager.rs:5-23 | the row index is the single header offset; an empty index keyed by its name exists exactly for each column the strategy selects |
| IndexManager.CreatedIndexesDescribeEmptyTable | src/storage_engine/index/index_manager.rs:12-20 | a fresh table's indexes describe the empty data file: one row-index entry, no column offsets |
| FilterChecker.Trim | src/storage_engine/filters/filter_checker.rs:15 | `trim`: the longest middle part of the text that neither starts nor ends with whitespace, with only whitespace cut off either side; text already without edge whitespace is unchanged |
| FilterChecker.GetValue | src/storage_engine/filters/filter_checker.rs:12-24 | absent exactly when the column is not among the headers or its first position is past the row; otherwise the value at the first header position, trimmed for a full record and verbatim for a restricted row |
| FilterChecker.ApplyFilters | src/storage_engine/filters/filter_checker.rs:26-59 | no filter admits every row; otherwise the expression's value |
| FilterChecker.EvalEvaluatesBothOperands | src/storage_engine/filters/filter_checker.rs:36-46 | AND and OR succeed exactly when both operands do; an error of the left operand, or else of the right one, is the result even when the left already decides it; the verdict is the conjunction or the disjunction |
| FilterChecker.HandleEq | src/storage_engine/filters/filter_checker.rs:62-75 | succeeds exactly for `identifier = number` or `identifier = 'string'`; other literals give UnsupportedValueType, other shapes UnsupportedSelectClause; the verdict is true exactly when the row's value equals the literal's text; a column missing from the headers compares false |
| FilterChecker.EvalSucceedsIff | src/storage_engine/filters/filter_checker.rs:31-56 | evaluation succeeds exactly on AND/OR/parenthesis trees over `column = literal` leaves whose literals are numbers or strings, whatever the row: since both operands are always evaluated, an error anywhere surfaces |
| FilterChecker.EvalDependsOnlyOnLeafValues | src/storage_engine/filters/filter_checker.rs:36-54 | two rows that agree on the leaf columns' values get the same verdict (the basis of evaluating on restricted rows) |
| FilterColumnFinder.UseIndexes | src/storage_engine/filters/filter_column_finder.rs:5-23 | false for no columns; otherwise true exactly when every listed column's first schema match exists and is indexed |
| FilterColumnFinder.AllIndexed | src/storage_engine/filters/filter_column_finder.rs:10-21 | the loop holds exactly when every name is an indexed column |
| FilterColumnFinder.FindFilterColumns | src/storage_engine/filters/filter_column_finder.rs:25-32 | no filter gives no columns; the only errors are UnsupportedFilter and UnsupportedSelectClause |
| FilterColumnFinder.IdentifyColumns | src/storage_engine/filters/filter_column_finder.rs:34-60 | keeps what was collected as a prefix; other operators give UnsupportedFilter and other shapes UnsupportedSelectClause |
| FilterColumnFinder.HandleEq | src/storage_engine/filters/filter_column_finder.rs:62-72 | succeeds exactly for `identifier = literal`, else UnsupportedFilter; the column is appended only when it is new |
| FilterColumnFinder.IdentifyColumnsIsDedup | src/storage_engine/filters/filter_column_finder.rs:34-72 | collection succeeds exactly on the shapes the evaluator supports and yields the first-seen deduplication of the collected list followed by the leaves' columns |
| FilterColumnFinder.FindFilterColumnsSpec | src/storage_engine/filters/filter_column_finder.rs:25-72 | the result has no repetitions, holds exactly the leaves' columns, and lists them in the order of first occurrence |
| FilterColumnFinder.UseIndexesCoversFilter | src/storage_engine/filters/filter_column_finder.rs:5-23 | when the index path is chosen, every column the filter compares is an indexed column of the table |
| FilterManager.ReadFilterColumns | src/storage_engine/filters/filter_manager.rs:22-24 | succeeds exactly when every filter column has an index file (else an I/O error) and gives each column's indexed values |
| FilterManager.GetRestrictedRows | src/storage_engine/filters/filter_manager.rs:15-35 | a row index with at least one entry is required; one row per data row (entries minus one), one cell per filter column; cell [r][c] is the r-th value of column c's index, or "" when the index has fewer values |
| FilterManager.RestrictedRowsProjectTable | src/storage_engine/filters/filter_manager.rs:15-35 | when the indexes describe the data file, the restricted rows are exactly the filter columns' fields of every data row |
| FilterManager.IndexedCellIsField | src/storage_engine/filters/filter_manager.rs:27-30 | one cell of that projection is the row's field |
| TableReaderWithIndex.MatchingIndicesAreTheAcceptedRows | src/storage_engine/select/table_reader_with_index.rs:21-26 | the reference selection holds the positions of exactly the rows the filter admits, strictly increasing, so at most one per row |
| TableReaderWithIndex.AllEvaluateAgree | src/storage_engine/select/table_reader_with_index.rs:21-25 | row lists on which the filter agrees row by row either both evaluate everywhere or both hit an error |
| TableReaderWithIndex.SelectRowOffsets | src/storage_engine/select/table_reader_with_index.rs:19-26 | the loop succeeds exactly when the filter evaluates on every restricted row (with the filter columns as headers); the first failing row's error aborts it; otherwise the row offsets of the passing rows, in row order |
| TableReaderWithIndex.ReadTable | src/storage_engine/select/table_reader_with_index.rs:15-28 | a missing row index is an I/O error; on success the answer is the lines at the selected offsets; it succeeds whenever the restricted rows can be built and every one evaluates |
| TableReaderWithIndex.MatchingIndicesAgree | src/storage_engine/select/table_reader_with_index.rs:21-25 | row lists on which the filter agrees row by row select the same positions |
| TableReaderWithIndex.RestrictedRowAgreesWithRecord | src/storage_engine/select/table_reader_with_index.rs:21-22 | a restricted row and the full record it was cut from get the same verdict when every leaf column is a filter column and its values carry no edge whitespace |
| TableReaderWithIndex.IndexPathMatchesScan | src/storage_engine/select/table_reader_with_index.rs:15-26 | when the indexes describe the data file, the index path selects exactly the rows a scan of the full records would, and errs exactly when the scan does |
| TableReaderWithIndex.SelectedLinesAreRows | src/storage_engine/select/table_reader_with_index.rs:28 | the lines read at the selected row offsets are the selected rows' comma-joined fields |
| TableReaderWithIndex.ReadTableSelected | src/storage_engine/select/table_reader_with_index.rs:8-35 | the whole of `read_table` on the index path: the same errors and success condition as the reading part, and on success each read line split into fields and projected onto the selected positions |
| TableReaderWithIndex.SelectedRecordsAreProjectedRows | src/storage_engine/select/table_reader_with_index.rs:28-32 | when the indexes describe the data file, the records answered are the selected rows' fields projected onto the selected positions |
| SelectHandler.OrderAndLimit | src/storage_engine/select/select_handler.rs:38-45 | as written, with the ORDER BY position taken from the full headers: an ORDER BY column missing from the headers gives ColumnDoesNotExist; otherwise at most `limit` records, none invented; without ORDER BY a prefix of the records |
| SelectHandler.OrderAndLimitKeepsTopRecords | src/storage_engine/select/select_handler.rs:38-45 | sorting precedes the limit: the kept records are a prefix of the stably sorted records and no dropped record sorts before a kept one |
| SelectHandler.HandleSelect | src/storage_engine/select/select_handler.rs:8-48 | unwrap errors, catalog errors and a table missing from the default schema come first; an answer implies the query validated and the filter's columns were found, and has at most `limit` rows |
| SelectHandler.ValidatedOrderColumnIsAHeader | src/storage_engine/select/select_handler.rs:38-41 | after validation the ORDER BY column is among the headers, so the lookup cannot fail |
| SelectHandler.OnlyTheChosenReaderMatters | src/storage_engine/select/select_handler.rs:27-35 | the index reader is used exactly when `use_indexes` holds, the scan otherwise: the unused reader does not affect the answer |
| SelectHandler.OrderThenProject | src/storage_engine/select/select_handler.rs:38-45 | corrected order: sort and limit the full records at the ORDER BY column's header position, then project; the same ColumnDoesNotExist error, at most `limit` records, each the projection of an input record |
| SelectHandler.CorrectedOrderSortsSelectedColumn | src/storage_engine/select/select_handler.rs:38-45 | when the ORDER BY column is selected at projected position q, the corrected answer is ordered by field q ascending or descending as requested |
| SelectHandler.HandleSelectCorrected | src/storage_engine/select/select_handler.rs:8-48 | the SELECT handler with the corrected order: the same error cases and row bound as `HandleSelect` |
| SelectHandler.OrderByOnProjectionSortsWrongField | src/storage_engine/select/select_handler.rs:38-41 | on rows (1, b), (2, a) and `SELECT name, id ORDER BY id` the as-written order answers (a, 2) first, out of id order |
| SelectHandler.CorrectedOrderOnDemo | src/storage_engine/select/select_handler.rs:38-41 | on the same query the corrected order answers (b, 1) first, in id order |
| SelectHandler.AscendingOrderOfTwo | src/storage_engine/select/select_handler.rs:38-45 | two records with different keys, sorted ascending without a limit, come out smaller key first, whatever their input order |
| SelectHandler.SelectSucceedsWhenReaderDoes | src/storage_engine/select/select_handler.rs:22-48 | for a valid query whose filter has a supported shape, the answer is the formatted, ordered and limited records of the chosen reader |
| RecordHandler.FieldOrEmpty | src/storage_engine/select/record_handler.rs:9-10 | a field beyond the record's end reads as the empty string, any other is the record's field |
| RecordHandler.SortRecords | src/storage_engine/select/record_handler.rs:7-18 | the sorted records are a permutation of the input |
| RecordHandler.ComparisonIsTotalPreorder | src/storage_engine/select/record_handler.rs:8-17 | the comparison handed to the sort, ascending or descending, is total and transitive, so the sort's guarantees apply |
| RecordHandler.TiesAreEqualKeys | src/storage_engine/select/record_handler.rs:8-17 | two records compare equal under the sort exactly when their key fields are byte-for-byte equal |
| RecordHandler.SortRecordsSpec | src/storage_engine/select/record_handler.rs:7-18 | the output is a permutation of the input whose keys never decrease (ascending) or never increase (descending), and records with equal keys keep their input order |
| RecordHandler.FormatResponse | src/storage_engine/select/record_handler.rs:21-37 | one map per row, in row order, each the row's map of header names to field values |
| RecordHandler.RowMapUpToContents | src/storage_engine/select/record_handler.rs:24-31 | a name is a key of a row's map exactly when some present field is written under it, and then it holds the last field written under that name |
| RecordHandler.RowMapOfDistinct | src/storage_engine/select/record_handler.rs:26-29 | with distinct headers and distinct positions, each present field is found under its own header |
| StableSort.Sort | src/storage_engine/select/record_handler.rs:8 | the sort returns a permutation of its input |
| StableSort.SortIsSorted | src/storage_engine/select/record_handler.rs:8 | under a total preorder the output is sorted |
| StableSort.SortIsStable | src/storage_engine/select/record_handler.rs:8 | under a total preorder each class of equal elements appears in the output in input order |
| StableSort.SortOfSorted | src/storage_engine/select/record_handler.rs:8 | an input that is already sorted comes back unchanged |
| SelectUtils.AllPositions | src/storage_engine/select/utils.rs:3 | the positions 0 to n - 1, in order |
| SelectUtils.KnownPositions | src/storage_engine/select/utils.rs:5 | no more positions than requested names, each a valid header position whose header was requested |
| SelectUtils.GetColumnIndices | src/storage_engine/select/utils.rs:1-7 | a `*` anywhere selects every header position in order; otherwise the positions of the known names; every position is within the headers |
| SelectUtils.KnownPositionsOfKnownNames | src/storage_engine/select/utils.rs:5 | unknown names drop out and change nothing else: the positions are those of the known names, in request order |
| SelectUtils.SelectFields | src/storage_engine/table_reader.rs:94-98 | one trimmed field per requested position, in request order, when every position is within the record; never more fields than positions |
| SelectUtils.SelectFieldsSkipsMissing | src/storage_engine/table_reader.rs:96 | positions past the record's end only drop out |
| SelectUtils.SplitFields | src/storage_engine/select/table_reader_with_index.rs:28 | a read line as a record: at least one field, none containing a comma |
| SelectUtils.SplitJoinRoundTrip | src/storage_engine/select/table_reader_with_index.rs:28 | splitting comma-joined fields that hold no comma gives the fields back |
| SelectUtils.JoinSplitRoundTrip | src/storage_engine/select/table_reader_with_index.rs:28 | joining the split fields with commas gives the line back |
| SelectUtils.KnownPositionsExact | src/storage_engine/select/utils.rs:5 | when every requested name is a header there is exactly one position per name, its first header position |
| SelectValidator.ValidateSelectQuery | src/storage_engine/select/validator.rs:6-32 | a missing table gives TableDoesNotExist; otherwise a ColumnDoesNotExist for that table; it passes exactly when the table exists and, unless `*` is projected, every projected column and any ORDER BY column is a column of it |
| AstUnwrapper.PartValues | src/storage_engine/utils/ast_unwrapper.rs:50 | one string per identifier of the name, its value, in order |
| AstUnwrapper.GetTableNameFromFrom | src/storage_engine/utils/ast_unwrapper.rs:41-57 | an empty FROM gives MissingTableName, a first relation that is not a named table gives GenericUnsupported; it succeeds exactly otherwise |
| AstUnwrapper.TableNameOfSimpleName | src/storage_engine/utils/ast_unwrapper.rs:48-52 | a one-part name is the table name itself |
| AstUnwrapper.TableNameOfQualifiedName | src/storage_engine/utils/ast_unwrapper.rs:48-52 | a two-part name is joined with a dot |
| AstUnwrapper.GetColumns | src/storage_engine/utils/ast_unwrapper.rs:59-68 | at most one column per projection item, each the name an identifier or wildcard item contributes |
| AstUnwrapper.GetColumnsAppend | src/storage_engine/utils/ast_unwrapper.rs:59-68 | the items are handled one at a time: the columns of a concatenation are the concatenation of the columns |
| AstUnwrapper.GetColumnsOfIdentifiers | src/storage_engine/utils/ast_unwrapper.rs:63 | a projection of plain identifiers yields exactly their names, in order |
| AstUnwrapper.GetOrdering | src/storage_engine/utils/ast_unwrapper.rs:70-82 | no ORDER BY gives no column and ascending; a column only when the first ORDER BY expression is an identifier, and then ascending unless DESC is written |
| AstUnwrapper.GetLimit | src/storage_engine/utils/ast_unwrapper.rs:84-99 | no LIMIT gives none; an error, InvalidLimit carrying the literal's text, exactly when a numeric literal does not parse as a usize; a parsed limit fits in a usize |
| AstUnwrapper.GetLimitRoundTrip | src/storage_engine/utils/ast_unwrapper.rs:87-89 | the decimal literal of any usize is accepted as that limit |
| AstUnwrapper.UnwrapSelectQuery | src/storage_engine/utils/ast_unwrapper.rs:5-39 | a body other than SELECT is UnsupportedSelectClause; a table-name error comes first; then it succeeds exactly when the limit does, and the parameters are the table name, columns, filter, ordering and limit the helpers give |
| ColumnTypes.ValidateValueType | src/storage_engine/validation/column_types.rs:21-49 | a value passes exactly when its column's type accepts it (Integer: parses as an i64; Float: the float parser accepts it; Text: always; Boolean: exactly "true" or "false"); a failure is ColumnTypeDoesNotMatch for that column |
| ColumnTypes.RenderedValuesAreAccepted | src/storage_engine/validation/column_types.rs:23-45 | the decimal rendering of any i64 passes an Integer column and the rendering of any boolean passes a Boolean column |
| ColumnTypes.FindColumn | src/storage_engine/validation/column_types.rs:7 | none exactly when no column has the name; otherwise the first column that has it |
| ColumnTypes.CheckCell | src/storage_engine/validation/column_types.rs:7-14 | a cell passes exactly when its column exists and accepts the value; an unknown column is ColumnDoesNotExist for the table, a rejected value ColumnTypeDoesNotMatch |
| ColumnTypes.Flatten | src/storage_engine/validation/column_types.rs:5-6 | every cell of every row is among the flattened cells and nothing else is |
| ColumnTypes.CheckCells | src/storage_engine/validation/column_types.rs:6-15 | passes exactly when every cell does; a failure is the first failing cell's |
| ColumnTypes.ValidateColumnTypes | src/storage_engine/validation/column_types.rs:4-19 | passes exactly when every cell of every row passes; a failure is an unknown column or a type mismatch |
| ColumnTypes.CheckCellsOfRows | src/storage_engine/validation/column_types.rs:5-16 | checking the row-major list of cells passes exactly when every cell of every row passes |
| ColumnTypes.FlattenAppend | src/storage_engine/validation/column_types.rs:5-6 | flattening distributes over concatenation of row lists |
| ColumnTypes.CheckCellsAppend | src/storage_engine/validation/column_types.rs:6-15 | the check of a concatenation is the first list's failure if it fails, the second list's check otherwise |
| ValidationCommon.AnyTableNamed | src/storage_engine/validation/common.rs:8 | true exactly when some table has the name |
| ValidationCommon.DoesTableExist | src/storage_engine/validation/common.rs:3-11 | false when the default schema is missing; otherwise true exactly when the default schema has a table of that name |
| ValidationCommon.DoesTableExistAgreesWithFind | src/storage_engine/validation/common.rs:3-11 | the existence test agrees with the catalog's table lookup in the default schema |
| ValidationCommon.ValidateTableExists | src/storage_engine/insert/validator.rs:16 | passes exactly when the catalog lookup finds the table; otherwise TableDoesNotExist |
| ValidationCommon.ValidateColumnExists | src/storage_engine/select/validator.rs:21 | passes exactly when the table has a column of that name; otherwise ColumnDoesNotExist for the table |
| ValidationCommon.ValidateColumnsExist | src/storage_engine/select/validator.rs:20-22 | passes exactly when every name is a column; a failure reports the first missing one |
| Numbers.DigitChar | src/storage_engine/validation/column_types.rs:24 | the character of a digit is a digit of that value |
| Numbers.Decimal | src/storage_engine/utils/ast_unwrapper.rs:88 | a non-empty run of digits without a leading zero |
| Numbers.DecimalValue | src/storage_engine/utils/ast_unwrapper.rs:88 | reading the decimal rendering back gives the number |
| Numbers.ParseI64 | src/storage_engine/validation/column_types.rs:24 | a parsed value is within the i64 range |
| Numbers.ParseUsize | src/storage_engine/utils/ast_unwrapper.rs:88 | a parsed value fits in a 64-bit usize |
| Numbers.ParseBool | src/storage_engine/validation/column_types.rs:40 | exactly "true" and "false" parse, to the matching value |
| Numbers.BoolToString | src/storage_engine/validation/column_types.rs:40 | the rendering of a boolean parses back to it |
| Numbers.ParseI64RoundTrip | src/storage_engine/validation/column_types.rs:24 | the decimal rendering of any i64 parses back to it |
| Numbers.ParseUsizeRoundTrip | src/storage_engine/utils/ast_unwrapper.rs:88 | the decimal rendering of any usize parses back to it |
| Numbers.NoDigitsIsNoNumber | src/storage_engine/validation/column_types.rs:24 | an empty string or a bare sign is not a number |
| ColumnConstraints.DefaultOf | src/storage_engine/validation/column_constraints.rs:45-51 | none exactly when the column has no DEFAULT constraint; otherwise the value of its first one |
| ColumnConstraints.CompleteValue | src/storage_engine/validation/column_constraints.rs:55-70 | a present value is kept; a missing one takes the default, else "Null", except that a NOT NULL column without default gives ColumnNotNull |
| ColumnConstraints.ValidateNullAndDefault | src/storage_engine/validation/column_constraints.rs:41-75 | succeeds exactly when every value can be completed, with one completed value per input value; the error is ColumnNotNull for the column |
| ColumnConstraints.CompletionIsIdempotent | src/storage_engine/validation/column_constraints.rs:54-72 | completing an already completed column changes nothing |
| ColumnConstraints.PresentValues | src/storage_engine/validation/column_constraints.rs:16 | exactly the values that are present, no more of them than inputs |
| ColumnConstraints.PresentValuesOfFullColumn | src/storage_engine/validation/column_constraints.rs:13-17 | on a column every row supplies, completing and keeping the present values agree |
| ColumnConstraints.ForeignKeyOf | src/storage_engine/validation/column_constraints.rs:80 | none exactly when no foreign key lists the column locally; otherwise the first that does |
| ColumnConstraints.CheckForeignColumns | src/storage_engine/validation/column_constraints.rs:83-91 | passes exactly when every referenced column reads and contains every value; a failure is ForeignKeyConstraintNotSatisfied or a read error |
| ColumnConstraints.ValidateForeignKey | src/storage_engine/validation/column_constraints.rs:79-95 | a column under no foreign key passes; otherwise it passes exactly when every referenced column reads and contains every value |
| ColumnConstraints.FirstRepeat | src/storage_engine/validation/column_constraints.rs:111-115 | none exactly when the values are distinct; otherwise the first value that repeats an earlier one |
| ColumnConstraints.FirstClash | src/storage_engine/validation/column_constraints.rs:118-122 | none exactly when no stored value is among the new values; otherwise a value that is both |
| ColumnConstraints.ValidateUniqueness | src/storage_engine/validation/column_constraints.rs:98-127 | a column that is neither UNIQUE nor PRIMARY KEY passes; otherwise it passes exactly when the stored values read, the new values are distinct and none of them is stored; a read error is passed on, any other failure is ColumnUniquenessNotSatisfied naming a new value |
| ColumnConstraints.Cells | src/storage_engine/validation/column_constraints.rs:24-29 | one named cell per value, in order |
| ColumnConstraints.ColumnValues | src/storage_engine/validation/column_constraints.rs:10-17 | with completion the completed values of the column, without it only the present ones |
| ColumnConstraints.CheckColumn | src/storage_engine/validation/column_constraints.rs:10-31 | one column succeeds exactly when its values can be gathered and pass the foreign-key and uniqueness checks, giving the values as cells |
| ColumnConstraints.CheckColumns | src/storage_engine/validation/column_constraints.rs:9-32 | succeeds exactly when every column does, one list per column in schema order; a failure is the first failing column's error |
| ColumnConstraints.ColumnListLengths | src/storage_engine/validation/column_constraints.rs:13-17 | a completed column has one value per row, an uncompleted one at most that many |
| ColumnConstraints.ValidateColumnConstraints | src/storage_engine/validation/column_constraints.rs:6-38 | succeeds exactly when every column passes its checks; a failure is the first failing column's error |
| ColumnConstraints.CompletedRowsHoldEveryColumn | src/storage_engine/validation/column_constraints.rs:6-38 | with completion, each inserted row comes back holding every column of the table in schema order with its completed value |
| InsertUtils.ValueToString | src/storage_engine/insert/utils.rs:36-43 | a number gives its digits, a quoted string its text, a boolean text that parses back to it, anything else the empty string |
| InsertUtils.ExprToString | src/storage_engine/insert/utils.rs:14-17 | a literal gives its value's text, any other expression the empty string |
| InsertUtils.ExtractRow | src/storage_engine/insert/utils.rs:12-28 | fails with GenericUnsupported exactly when the row has more values than there are column names; otherwise the i-th value is named by the i-th column name |
| InsertUtils.ExtractRows | src/storage_engine/insert/utils.rs:11-29 | succeeds exactly when no row is longer than the column list, one extracted row per row |
| InsertUtils.ExtractInsertedRows | src/storage_engine/insert/utils.rs:6-34 | no source or a body other than VALUES gives no rows; otherwise the extracted rows |
| InsertUtils.FirstValueOf | src/storage_engine/insert/utils.rs:50 | none exactly when no cell has the name; otherwise the first such cell's value |
| InsertUtils.ColumnValuesOf | src/storage_engine/validation/column_constraints.rs:10 | one optional value per row, the row's first value for the column |
| InsertUtils.GetInsertedColumnValuesFromRows | src/storage_engine/insert/utils.rs:46-58 | succeeds exactly when every row has the column, with each row's first value for it; otherwise ColumnDoesNotExist with an empty table name |
| InsertUtils.StrictValuesAgreeWithOptional | src/storage_engine/insert/utils.rs:46-58 | the strict reading succeeds exactly when no row lacks the column, and then agrees with the optional reading |
| InsertUtils.ExtractedColumnReadsBack | src/storage_engine/insert/utils.rs:6-58 | extraction then read-back: with distinct column names and full rows, column c reads as the text of value c of every row |
| SharedUtils.Transposed | src/shared/utils.rs:1-17 | an empty matrix or first row gives the empty result; otherwise one row per entry of the first row, entry [j][i] being matrix[i][j], or the filler matrix[0][0] where row i is short |
| SharedUtils.TransposeMatrix | src/shared/utils.rs:1-17 | the loop fills exactly the transposed matrix |
| SharedUtils.TransposeInvolution | src/shared/utils.rs:1-17 | transposing a non-empty rectangular matrix twice gives it back |
| SharedUtils.ShortRowsArePadded | src/shared/utils.rs:8 | a short row is padded with the first entry of the matrix |
| InsertValidator.ValidateInsertInto | src/storage_engine/insert/validator.rs:10-40 | a missing table name, a missing table and an unknown column are reported in that order; an accepted INSERT names an existing table and only its columns, its rows extracted and type-checked, and the rows returned are the ones the constraint checks completed for the default schema |
| InsertValidator.ValidInsertIsAccepted | src/storage_engine/insert/validator.rs:10-40 | conversely, an INSERT into an existing table naming only its columns, whose rows extract, type-check and pass the constraint checks, is accepted |
| InsertValidator.AcceptedRowsAreComplete | src/storage_engine/insert/validator.rs:33-39 | every accepted row holds every column of the table in schema order, completed from the row's value, the column's default or "Null" |
| InsertValidator.CompletionFillsEveryCell | src/storage_engine/validation/column_constraints.rs:54-72 | each completed cell is named after its column and completed as the NULL and DEFAULT rules say |
| InsertInto.ValidateColumnUniqueness | src/storage_engine/insert/insert_into.rs:145-163 | passes exactly when the inserted values are distinct and none is among the stored values; the error names the column and no value |
| InsertInto.UniquenessChecksAgree | src/storage_engine/insert/insert_into.rs:145-163 | this check and the constraint validator's uniqueness check accept exactly the same values |
| InsertInto.CheckUniqueColumn | src/storage_engine/insert/insert_into.rs:126-136 | a column that is neither UNIQUE nor PRIMARY KEY passes; otherwise it passes exactly when its index reads, every row supplies it, and the values are unique |
| InsertInto.ValidateRowsConstraints | src/storage_engine/insert/insert_into.rs:125-143 | passes exactly when every column of the table passes its uniqueness check |
| InsertInto.CheckUniqueColumns | src/storage_engine/insert/insert_into.rs:126-137 | passes exactly when every listed column passes |
| InsertInto.IdentValues | src/storage_engine/insert/insert_into.rs:61-64 | the column list's names, one per identifier, in order |
| InsertInto.ValidateRows | src/storage_engine/insert/insert_into.rs:66-70 | succeeds exactly when the rows extract, their types check and the unique columns pass, giving the extracted rows unchanged |
| InsertInto.ValidateInsertIntoReading | src/storage_engine/insert/insert_into.rs:44-73 | a missing table name, then a table missing from the default schema, are reported first; it succeeds exactly when the table exists and the rows pass, returning the table name, the column names and the extracted rows |
| InsertInto.ValidateInsertIntoAsWritten | src/storage_engine/insert/insert_into.rs:44-73 | as written: an accepted INSERT passed the uniqueness checks against the indexes of the schema "schema_1", whatever the default schema is |
| InsertInto.ValidateInsertInto | src/storage_engine/insert/insert_into.rs:44-73 | corrected: an accepted INSERT's rows are the extracted rows, their types check and the unique columns pass against the default schema's indexes |
| InsertInto.HardCodedSchemaAcceptsDuplicate | src/storage_engine/insert/insert_into.rs:70 | with default schema "main" whose index of the primary key `id` holds 1, `INSERT INTO t (id) VALUES (1)` is accepted as written and rejected once the default schema is read |
| InsertInto.AcceptedInsertKeepsUniqueColumnsUnique | src/storage_engine/insert/insert_into.rs:125-163 | after an accepted INSERT (corrected), every UNIQUE or PRIMARY KEY column's inserted values are distinct and disjoint from the values read from the default schema's index |
| InsertInto.PassingRowsAreUnique | src/storage_engine/insert/insert_into.rs:125-143 | rows that pass the uniqueness checks supply, in every UNIQUE or PRIMARY KEY column, distinct values none of which the index already holds |
| InsertInto.AppendAccepted | src/storage_engine/insert/insert_into.rs:27-41 | a validation error passes through; otherwise it succeeds exactly when the append of the rows' records to the table in the default schema succeeds, answering the table name, and fails with the append's error |
| InsertInto.InsertIntoTable | src/storage_engine/insert/insert_into.rs:17-42 | as written: a catalog error, then an error of the validation that reads "schema_1"'s indexes, is the statement's error; once validated, it succeeds exactly when the append of the rows' records to the table in the default schema succeeds, and answers the table name |
| InsertInto.InsertIntoTableCorrected | src/storage_engine/insert/insert_into.rs:17-42 | corrected: the same statement with the validation reading the default schema's indexes |
| InsertInto.InsertsAgreeWhenDefaultIsHardCoded | src/storage_engine/insert/insert_into.rs:22 | when the default schema is "schema_1", the statement as written and the corrected one give the same answer |
| InsertInto.AsWrittenInsertAppendsDuplicate | src/storage_engine/insert/insert_into.rs:22-41 | with default schema "main" whose `id` index holds 1 and an append that succeeds, `INSERT INTO t (id) VALUES (1)` answers `t` as written and is refused by the corrected statement |
| UpdateRecords.Keys | src/storage_engine/update/update_records.rs:13 | the assigned column names, one per assignment, in order |
| UpdateRecords.ToMap | src/storage_engine/update/update_records.rs:12-13 | the map's names are exactly the assigned names, each mapped to its assigned value |
| UpdateRecords.AssignmentRow | src/storage_engine/update/update_records.rs:83-85 | one cell per assignment, named by the column and holding the value |
| UpdateRecords.ValidateUpdate | src/storage_engine/update/update_records.rs:68-93 | a missing table is TableDoesNotExist; an unknown assigned column is ColumnDoesNotExist; success implies the assigned values type-check as one row and pass the uncompleted constraint checks, whose rows are returned |
| UpdateRecords.ValidUpdateIsWellTyped | src/storage_engine/update/update_records.rs:81-87 | after a valid update, every assigned value has its column's type |
| UpdateRecords.Updated | src/storage_engine/update/update_records.rs:45-54 | an assigned field takes the new value of its header; every other field is kept, and the length is unchanged |
| UpdateRecords.RewriteRecord | src/storage_engine/update/update_records.rs:41-58 | the loop over the target positions leaves exactly the updated record |
| UpdateRecords.UpdateRecords | src/storage_engine/update/update_records.rs:36-59 | succeeds exactly when the filter evaluates on every record, the first filter error aborting; one rewritten record per record: the updated record where the filter selects it, the record itself elsewhere |
| UpdateRecords.NoFilterUpdatesEveryRecord | src/storage_engine/update/update_records.rs:43-44 | without a WHERE clause every record is updated |
| UpdateRecords.KnownPositionsMembership | src/storage_engine/select/utils.rs:5 | a position is selected by a list of names exactly when it is the first position of a header among the names |
| UpdateRecords.AssignedFields | src/storage_engine/update/update_records.rs:36-54 | whatever the map's iteration order, a field is assigned exactly when its header has a new value and is the first header of that name, or any header when `*` is assigned |
| UpdateRecords.UpdateTable | src/storage_engine/update/update_records.rs:9-66 | a missing table, an invalid update and an unreadable header line (FailedTableRead) are reported in that order; it succeeds exactly when those pass and the filter evaluates on every record, and then selected records are updated and the others kept |
| CreateTable.ColumnFromDef | src/storage_engine/create/create_table.rs:49-58 | succeeds exactly when the type and every constraint convert (a type error first); the column keeps the definition's name, its type and converted constraints, is indexed exactly when PRIMARY KEY or UNIQUE, and has the given order |
| CreateTable.ColumnsFromDefs | src/storage_engine/create/create_table.rs:47-59 | succeeds exactly when every definition converts, one column per definition in order with order start + k; a failure is the first failing definition's error |
| CreateTable.ValidateCreateTable | src/storage_engine/create/create_table.rs:36-62 | a missing name is MissingTableName, a table the default schema already holds is TableNameAlreadyExists; otherwise it succeeds exactly when the columns convert, giving a table of that name absent from the catalog, with no foreign keys or triggers |
| CreateTable.CreatedTableFollowsDeclaration | src/storage_engine/create/create_table.rs:47-61 | column k of a created table is named and typed by definition k and has order k; its headers are the declared names in order, and it is indexed on exactly its PRIMARY KEY and UNIQUE columns |
| CreateTable.CreateTableExample | tests/create_table.rs:26-52 | the repository's test statement yields three integer columns with orders 0, 1 and 2, the first two indexed |
| CreateTable.HeaderBytesAsWritten | src/storage_engine/create/create_table.rs:80-82 | as written: the header is the comma-joined column names with no line end, one byte short of the headers offset |
| CreateTable.HeaderBytes | src/storage_engine/index/offset_counter.rs:30-35 | corrected: the header is a complete line, exactly as long as the headers offset |
| CreateTable.NewTableRoundTrip | src/storage_engine/index/offset_counter.rs:30-35 | with the corrected header, the offsets counted from the headers offset point at each appended row's values |
| CreateTable.HeaderWithoutNewlineLosesFirstValue | src/storage_engine/create/create_table.rs:81-82 | for a table with the single column `id` and the row `1`, the read at the headers offset returns nothing with the header as written and `1` with the corrected header |
| CreateSchema.GetSchemaNameString | src/storage_engine/create/create_schema.rs:19-30 | succeeds exactly for a simple schema name with at least one part, giving its first part; otherwise GenericUnsupported |
| CreateSchema.CreateSchema | src/storage_engine/create/create_schema.rs:7-17 | succeeds exactly when the name unwraps; the new schema has no tables and the database configuration gets the name appended, the rest unchanged |
| DeleteTable.GetTableName | src/storage_engine/delete/delete_table.rs:30-40 | succeeds exactly when the first name has a first part, which it returns; otherwise MissingTableName |
| DeleteTable.DropFromConfiguration | src/storage_engine/delete/delete_table.rs:22 | the table is no longer listed, and every other table is listed exactly as often as before |
| DeleteTable.CountsOfOthersKept | src/storage_engine/delete/delete_table.rs:22 | removing a name keeps the count of every other name |
| DeleteTable.DeleteTable | src/storage_engine/delete/delete_table.rs:8-28 | succeeds exactly when the name unwraps, and then gives the configuration without the table |
| DeleteTable.DropKeepsOrder | src/storage_engine/delete/delete_table.rs:22 | the filter works piecewise over a concatenation, keeping order, and dropping twice is dropping once |
| DeleteTable.DropOfListedTable | src/storage_engine/delete/delete_table.rs:22 | a table listed once is cut out, the others staying in order |
| DeleteSchema.GetSchemaName | src/storage_engine/delete/delete_schema.rs:25-35 | succeeds exactly when the first name has a first part, which it returns; otherwise MissingTableName |
| DeleteSchema.DropFromConfiguration | src/storage_engine/delete/delete_schema.rs:17 | the schema is no longer listed, every other schema keeps its membership, and the default schema is kept |
| DeleteSchema.DeleteSchema | src/storage_engine/delete/delete_schema.rs:7-23 | succeeds exactly when the name unwraps, and then gives the configuration without the schema |
| DeleteSchema.DropUndoesCreate | src/storage_engine/delete/delete_schema.rs:17 | dropping a schema just created under a fresh name restores the database configuration |
| AlterTable.BulkOperationStrategy | src/storage_engine/alter_table/alter_table_dispatcher.rs:36-44 | column additions, drops and changes are bulk operations; renames, constraints and every other operation are not |
| AlterTable.Partition | src/storage_engine/alter_table/alter_table_dispatcher.rs:16-17 | the first part holds only bulk operations, the second only the others |
| AlterTable.PartitionIsComplete | src/storage_engine/alter_table/alter_table_dispatcher.rs:16-17 | together the two parts hold every operation exactly as often as the statement does |
| AlterTable.DispatchAddConstraint | src/storage_engine/alter_table/alter_table_dispatcher.rs:46-61 | a foreign key goes to its handler, whose outcome is the answer; any other constraint is UnsupportedConstraint under the table's name |
| AlterTable.OtherOperation | src/storage_engine/alter_table/alter_table_dispatcher.rs:24-30 | ADD CONSTRAINT is dispatched; any other non-bulk operation is NotSupportedUpdateTableOperation |
| AlterTable.HandleOtherOperations | src/storage_engine/alter_table/alter_table_dispatcher.rs:23-31 | passes exactly when every operation does; a failure is the first failing operation's |
| AlterTable.DispatchAlterTable | src/storage_engine/alter_table/alter_table_dispatcher.rs:8-34 | a missing name is MissingTableName, then a catalog error; it succeeds, with the success message, exactly when every non-bulk operation is an ADD CONSTRAINT whose dispatch passes |
| AlterTable.OthersPassExactly | src/storage_engine/alter_table/alter_table_dispatcher.rs:16-31 | the non-bulk part passes exactly when every non-bulk operation of the statement does |
| AlterTable.BulkOperationsAreIgnored | src/storage_engine/alter_table/alter_table_dispatcher.rs:19-20 | the bulk operations do not affect the outcome: the statement fares as its non-bulk operations alone would |
| CreateTrigger.TranslationRoundTrip | src/storage_engine/trigger/create_trigger.rs:29-50 | the translation of period, event (with UPDATE columns and their quoting) and body type loses nothing, and every stored event comes from some statement event |
| CreateTrigger.CustomIdents | src/storage_engine/trigger/create_trigger.rs:38 | one stored identifier per column identifier, with its value and quoting |
| CreateTrigger.SyntaxIdents | src/storage_engine/trigger/create_trigger.rs:38 | the inverse direction: one statement identifier per stored identifier |
| CreateTrigger.EventsOf | src/storage_engine/trigger/create_trigger.rs:35-43 | one translated event per statement event, in order |
| CreateTrigger.ValidateCreateTrigger | src/storage_engine/trigger/create_trigger.rs:22-62 | a missing trigger name is MissingTriggerName, then a missing table name MissingTableName; it succeeds exactly otherwise, with both first identifiers, the period, events and body type recoverable from the record, and an empty function name |
| CreateTrigger.TranslationsRoundTrip | src/storage_engine/trigger/create_trigger.rs:29-50 | every event of the statement is recovered from its translation |
| CreateTrigger.AddTrigger | src/storage_engine/trigger/create_trigger.rs:15 | the trigger is appended at the end; name, columns, foreign keys and earlier triggers are unchanged |
| CreateTrigger.CreateTrigger | src/storage_engine/trigger/create_trigger.rs:5-20 | a validation error, then a catalog error, is the answer; success means the table's schema in the default schema was read and the trigger appended to it |
| Types.DefaultDatabaseConfiguration | src/database/types.rs:25-32 | the configuration before loading lists no schemas and names "NONE" as default schema |
| Types.DefaultDatabase | src/database/types.rs:10-17 | the catalog before loading holds no schemas and the default configuration |
| Catalog.SqlTypeOf | src/database/utils.rs:8-21 | every stored type but Float has exactly one SQL type it comes from |
| Catalog.GetColumnCustomDataType | src/database/utils.rs:8-21 | INT, TEXT and BOOL convert, to the type they stand for; every other SQL type is UnsupportedColumnDataType naming the column |
| Catalog.DataTypeRoundTrip | src/database/utils.rs:8-21 | every supported stored type converts back from its SQL type |
| Catalog.ConstraintOf | src/database/utils.rs:27-45 | a converted option is never a foreign key; a failure is UnsupportedConstraint naming the column |
| Catalog.ConstraintRoundTrip | src/database/utils.rs:27-45 | every column constraint converts back from the option it stands for |
| Catalog.GetColumnCustomConstraints | src/database/utils.rs:23-49 | succeeds exactly when every option converts, one constraint per option in order; a failure is the first failing option's error |
| Catalog.FindDatabaseSchema | src/database/utils.rs:51-54 | none exactly when no schema has the name; otherwise the first that has it |
| Catalog.FindTable | src/database/utils.rs:61 | none exactly when no table has the name; otherwise the first that has it |
| Catalog.FindDatabaseTable | src/database/utils.rs:57-62 | a found table has the name; only the default schema is searched, and a missing default schema finds nothing |
| Catalog.FindDatabaseTableOnlyDefaultSchema | src/database/utils.rs:57-62 | catalogs with the same default schema answer every table lookup alike |
| Catalog.ColumnsByOrder | src/database/utils.rs:65-66 | the sorted columns are a permutation of the columns |
| Catalog.GetHeadersFromTableSchema | src/database/utils.rs:64-70 | one header per column |
| Catalog.HeadersSpec | src/database/utils.rs:64-70 | the headers are a permutation of the column names: the names of the columns rearranged so that their order values never decrease |
| Catalog.HeadersInDeclarationOrder | src/database/utils.rs:64-70 | when each column's order is its position, the headers are the column names in declaration order |
| Navigator.SchemaConfigurationPath | src/database/database_navigator.rs:16-18 | the schema's configuration file lies under the schema's directory |
| Navigator.TablePath | src/database/database_navigator.rs:25-27 | a table's directory lies under its schema's tables directory |
| Navigator.TableSchemaPath | src/database/database_navigator.rs:34-36 | the schema file is named after the table, in the table's table_schema directory |
| Navigator.TableDataPath | src/database/database_navigator.rs:43-45 | the data file is the table's name with `.csv`, in the table's data directory |
| Navigator.TableIndexPath | src/database/database_navigator.rs:52-54 | a column index file is named after the column, in the table's indexes directory |
| Navigator.RowIndexPathIsReservedColumnPath | src/database/database_navigator.rs:52-58 | the row index file is where the index of a column named `row_offsets` would be |
| Navigator.TableFilesUnderTablePath | src/database/database_navigator.rs:25-58 | every file of a table lies under the table's directory, so removing that directory removes them all |
| Navigator.IndexPathInjective | src/database/database_navigator.rs:52-54 | distinct columns of a table have distinct index files |
| DatabaseLoader.Successes | src/database/database_loader.rs:19-25 | the loop keeps at most one value per key |
| DatabaseLoader.SuccessesComeFromKeys | src/database/database_loader.rs:19-25 | every kept value is what some key loaded to, in key order |
| DatabaseLoader.LoadedSchemasAreConfigured | src/database/database_loader.rs:19-25 | every schema the loader keeps carries the name of a listed schema whose configuration could be read |
| DatabaseLoader.SuccessesWhenAllLoad | src/database/database_loader.rs:19-25 | when every key loads, one value per key, key by key |
| DatabaseLoader.SuccessesWhenNoneLoads | src/database/database_loader.rs:19-25 | when no key loads, nothing is kept and no error surfaces |
| DatabaseLoader.SuccessesAppend | src/database/database_loader.rs:19-25 | the keys are loaded one at a time: loading a concatenation concatenates the results |
| DatabaseLoader.LoadSchema | src/database/database_loader.rs:42-60 | a configuration error is the answer; otherwise the schema has the name, its configuration and the tables that loaded, at most one per listed table, all of them when every table loads |
| DatabaseLoader.LoadDatabase | src/database/database_loader.rs:13-33 | a configuration error, then a poisoned lock (FailedDatabaseLoading), is the answer; otherwise the catalog has the configuration and the schemas that loaded, each listed and with a readable configuration, all of them in order when every schema loads |
| DatabaseLoader.GetDatabase | src/database/database_loader.rs:78-81 | FailedDatabaseLoading exactly when the lock is poisoned; otherwise the catalog as it stands |
| DatabaseLoader.LoadedCatalogIsRead | src/database/database_loader.rs:13-33 | after a sound load, reading the catalog returns the loaded configuration |
| DatabaseLoader.ReplaceOrAppend | src/database/database_loader.rs:100-104 | an element keyed like the new one is replaced at its first position; when there is none, the new element is appended |
| DatabaseLoader.ReplaceOrAppendIsIdempotent | src/database/database_loader.rs:100-104 | replacing twice by the same key is replacing once |
| DatabaseLoader.FirstKeyExists | src/database/database_loader.rs:100 | if some element has the key, a first such position exists |
| DatabaseLoader.ReplaceOrAppendFindsIt | src/database/database_loader.rs:100-104 | afterwards the first element with the key is the new one |
| DatabaseLoader.NoFirstNoKey | src/database/database_loader.rs:100 | without a first position, no element has the key |
| DatabaseLoader.ReplaceOrAppendKeepsOthers | src/database/database_loader.rs:100-104 | lookups of every other key find the same element at the same position |
| DatabaseLoader.FindTableIsFirst | src/database/utils.rs:61 | a table lookup finds the table at the first position with the name |
| DatabaseLoader.FindSchemaIsFirst | src/database/utils.rs:51-54 | a schema lookup finds the schema at the first position with the name |
| DatabaseLoader.SchemaLookupsAfterReplace | src/database/database_loader.rs:100-104 | after a replacement the schema lookup finds the new schema; other names find what they found before; the count grows only when the schema was absent |
| DatabaseLoader.TableLookupsAfterReplace | src/database/database_loader.rs:117-122 | after a replacement the table lookup finds the new table; other names find what they found before |
| DatabaseLoader.ReloadSchema | src/database/database_loader.rs:92-107 | a load error, then a poisoned lock, is the answer; otherwise the configuration is kept, the schema lookup finds the loaded schema, and every other schema is found as before |
| DatabaseLoader.ReloadSchemaIsIdempotent | src/database/database_loader.rs:92-107 | reloading a schema twice from the same files is reloading it once |
| DatabaseLoader.UpdateKeepingKey | src/database/database_loader.rs:117-121 | an in-place update that keeps the element's key keeps every lookup's position |
| DatabaseLoader.SchemaLookupsAfterUpdate | src/database/database_loader.rs:117-121 | after updating a schema in place, lookups of other names find the same schema |
| DatabaseLoader.ReloadTableSchema | src/database/database_loader.rs:109-128 | a load error, a poisoned lock, then SchemaDoesNotExist, in that order; otherwise the configuration and schema count are kept, the schema keeps its name and configuration, the table lookup finds the loaded table, and other tables and schemas are found as before |
| DatabaseLoader.ReloadTableSchemaIsIdempotent | src/database/database_loader.rs:109-128 | reloading a table twice from the same files is reloading it once |

## Left out

- Networking, the wire protocol, connection and thread management, process start-up and statement routing are not modelled. The model starts from a parsed statement.
- File and directory I/O and JSON (de)serialisation are not modelled. Reads become function-valued parameters. Writes become `append`-style parameters, or the value that would be written. Creating and removing table and schema folders is left out.
- The global `Mutex<Database>` is not modelled. The catalog is passed as a value. A poisoned lock is the input `lockPoisoned`, or an `Err` in `loaded`.
- Parsing of `f64` literals for FLOAT columns is the parameter `parsesAsFloat`. FLOAT columns themselves are unsupported by `get_column_custom_data_type`, as the model shows.
- `u64` offsets are `nat`. Overflow past 2^64 bytes is not modelled.
- CSV quoting by the csv crate and `get_rows_from_row_offsets_2` are left out. The offset arithmetic assumes fields contain no comma, quote or newline (`DataFile.PlainRows`).
- `compute_records_offsets` and `update_indexes_on_update_or_delete` are referenced by the engine, but their code is not part of this model. The offsets recomputed after a DELETE are an input of `IndexUpdater.UpdateIndexesOnDelete`.
- `apply_filters` and `get_restricted_rows` are imported from `filters` modules that do not define them in this version of the code. `FilterChecker.ApplyFilters` and `FilterManager.GetRestrictedRows` model the definitions in filter_checker.rs and filter_manager.rs.
- `validate_table_exists`, `validate_column_exists` and `get_new_column_values` are called by the UPDATE path, but their code is not part of this model. `ValidationCommon` supplies the first two from their names and error variants. The assignments of an UPDATE are an input.
- The `find_filter_columns` copy in filter_manager.rs:62-109 has the same text as the one in filter_column_finder.rs, so it is modelled once (`FilterColumnFinder.FindFilterColumns`).
- The row-type checks duplicated in insert_into.rs:75-121 are modelled once, by `ColumnTypes`.
- The table readers that SELECT calls are the parameters `SelectHandler.Readers`; they answer records already projected onto the selected positions. The index path's projection is `TableReaderWithIndex.ReadTableSelected`. The scan reader (select/table_reader.rs) reads the CSV file and stays a parameter.
- `select_fields` is not defined in select/utils.rs in this version of the code; `SelectUtils.SelectFields` follows the definition in storage_engine/table_reader.rs:94-98, which trims each field.
- `SelectUtils.SplitFields`: the CSV reader's quoting is not modelled; data-file fields hold no comma, quote or line break (`DataFile.PlainRows`), so a line splits at its commas.
- The ALTER TABLE foreign-key handler and the bulk operations (`handle_bulk_operations.rs`) are unfinished in the source. The handler is a parameter of `AlterTable.DispatchAlterTable`, and bulk operations are not executed.
- `CreateTable.ValidateCreateTable` gives each column its declaration index as `order`. create_table.rs:53-58 does not set the field, but the type requires it and the engine's tests expect the declaration index.
- The `create_indexes` of create_table.rs:87-99 builds indexes only for constrained columns, with map-valued offsets that do not match the index records of types.rs. The model uses `IndexManager.CreateIndexes` instead.
- `DeleteTable.DeleteTable` gives the new schema configuration. Reloading the catalog afterwards (delete_table.rs:25) is done by `DatabaseLoader.ReloadSchema`, which is not composed with it.
- Superseded prototypes are not modelled: the old table readers and select handlers, the `schema` module, `index_writer.rs`, `shared/errors.rs`, the foreign-key manager stub and the expression builder.
- ColumnConstraints.ValidateColumnConstraints requires that completion is on, or that the batch holds at most one row. Without completion, absent values drop out of their column's list, so the lists can differ in length. Transposing lists of different lengths indexes past a row in the source. The engine validates without completion only for the single assignment row of an UPDATE.
- InsertUtils.ColumnValuesOf: column_constraints.rs:10 calls `get_inserted_column_values_from_rows`, whose definition in insert/utils.rs:46-58 returns `Result<Vec<String>>` and fails with ColumnDoesNotExist (empty table name) for a row lacking the column. Lines 14 and 16 of column_constraints.rs use its value as `Vec<Option<String>>`, so the two do not agree. The model follows the caller: a lacking row gives none, which never fails and is what makes DEFAULT and NULL completion reachable. The strict reading is `InsertUtils.GetInsertedColumnValuesFromRows`, and `InsertUtils.StrictValuesAgreeWithOptional` relates the two.
- InsertInto.AcceptedInsertKeepsUniqueColumnsUnique promises disjointness from the values `indexedValues` reads, not from the bytes stored. index_reader.rs:40 turns each byte into a `char` on its own, which is Latin-1, so a stored non-ASCII value such as `é` reads back as two characters and does not match an inserted `é`. For ASCII values the two coincide. The decoding is not modelled.
- Types.TableSchema carries a `triggers` field that the struct of database/types.rs:47-51 does not declare. The field is inferred from `table_schema.triggers.push` in trigger/create_trigger.rs:15, which needs it.
- CreateTable.ValidateCreateTable sets `foreignKeys := []` (and no triggers). create_table.rs:61 builds the `TableSchema` without `foreign_keys`, which the struct requires. An empty list is what a new table can hold.
- FilterManager.GetRestrictedRows requires a row index with at least one entry. The source computes `row_offsets.len() - 1` at filter_manager.rs:16, which panics (or wraps) on an empty index, so no result is promised there.
- SharedUtils.TransposeMatrix requires that no row is longer than the first, because the source writes past the end of its result rows otherwise. Shorter rows leave the filler `matrix[0][0]`, as in the source.

## Findings

| source | as written | input that shows it | evidently intended | confidence | as-written member | corrected member |
|---|---|---|---|---|---|---|
| src/storage_engine/create/create_table.rs:81-82 | the new data file's header is the comma-joined column names with no line end, while `compute_headers_offset` (offset_counter.rs:30-35) counts one more byte for a newline | a table with the single column `id`: the file after inserting `1` is `id1\n`, the row index anchors the row at byte 3, and the read there returns nothing instead of `1` | the header is written as a complete line, `id\n`, so the first row starts where the row index says | not executed | CreateTable.HeaderBytesAsWritten, CreateTable.HeaderWithoutNewlineLosesFirstValue | CreateTable.HeaderBytes, CreateTable.NewTableRoundTrip |
| src/storage_engine/insert/insert_into.rs:70 | the uniqueness check of `insert_into_table` reads the stored index values of the schema named `schema_1`, whatever the default schema is | default schema `main` whose `id` PRIMARY KEY index already holds `1`, and `INSERT INTO t (id) VALUES (1)`: read from `schema_1` the index is empty and the duplicate is accepted | the check reads the default schema's indexes, and the duplicate is refused with ColumnUniquenessNotSatisfied | not executed | InsertInto.ValidateInsertIntoAsWritten, InsertInto.InsertIntoTable, InsertInto.HardCodedSchemaAcceptsDuplicate, InsertInto.AsWrittenInsertAppendsDuplicate | InsertInto.ValidateInsertInto, InsertInto.InsertIntoTableCorrected, InsertInto.AcceptedInsertKeepsUniqueColumnsUnique |
| src/storage_engine/select/select_handler.rs:38-42 | the ORDER BY position is looked up in the full headers, but both readers have already projected the records onto the selected columns, so the sort compares whatever field sits at that position of the projected record | rows (1, b) and (2, a) of a table with columns `id, name`, and `SELECT name, id FROM t ORDER BY id`: the projected records are (b, 1) and (a, 2); position 0 is `name` there, so the answer is (a, 2) then (b, 1), ids 2 then 1 | the sort uses the ORDER BY column's value, here answering (b, 1) then (a, 2) | not executed | SelectHandler.OrderAndLimit, SelectHandler.HandleSelect, SelectHandler.OrderByOnProjectionSortsWrongField | SelectHandler.OrderThenProject, SelectHandler.CorrectedOrderSortsSelectedColumn, SelectHandler.HandleSelectCorrected, SelectHandler.CorrectedOrderOnDemo |
