/**
  Restricted rows (filter_manager.rs): for every data row, the values of
  just the filter columns, read through their column indexes. The filter
  is then evaluated on these narrow rows instead of the full records.
 */
module FilterManager {

  import opened Wrappers
  import opened Types
  import opened Bytes
  import opened IndexReader
  import opened DataFile
  import opened OffsetCounter
  import IndexUpdater

  /** The values a column index points at, in index order. */
  function IndexedValues(store: TableIndexes, data: seq<byte>, columnName: string): seq<string>
    requires columnName in store.columns
  {
    GetColumnValuesFromIndex(data, store.columns[columnName].offsets)
  }

  /** The `r`-th value of a column, or the empty string the row was initialised with when the index has fewer values. */
  function Cell(values: seq<string>, r: nat): string {
    if r < |values| then values[r] else ""
  }

  /**
    The value lists of the filter columns, read one column after the other;
    the first column without an index file aborts with an I/O error.
   */
  function ReadFilterColumns(filterColumns: seq<string>, store: TableIndexes, data: seq<byte>): (r: Result<seq<seq<string>>>)
    ensures r.Ok? <==> forall c :: 0 <= c < |filterColumns| ==> filterColumns[c] in store.columns
    ensures r.Err? ==> r.error == IOError
    ensures r.Ok? ==> |r.value| == |filterColumns|
    ensures r.Ok? ==> forall c :: 0 <= c < |filterColumns| ==> r.value[c] == IndexedValues(store, data, filterColumns[c])
  {
    if |filterColumns| == 0 then Ok([])
    else
      var index :- ReadColumnIndex(store, filterColumns[0]);
      var values := GetColumnValuesFromIndex(data, index.offsets);
      var rest :- ReadFilterColumns(filterColumns[1..], store, data);
      assert forall c :: 1 <= c < |filterColumns| ==> filterColumns[c] == filterColumns[1..][c - 1];
      Ok([values] + rest)
  }

  /**
    `get_restricted_rows`: one row per data row (the row index's length
    minus its end-of-file entry), one cell per filter column; cell `[r][c]`
    is the `r`-th value of column `c`'s index. Values beyond the row count
    are dropped and missing ones stay empty. The source subtracts one from
    the row index's length as an unsigned number, so it needs a non-empty
    row index.
   */
  function GetRestrictedRows(filterColumns: seq<string>, rowsIndex: RowsIndex, store: TableIndexes, data: seq<byte>): (r: Result<seq<seq<string>>>)
    requires |rowsIndex.rowOffsets| >= 1
    ensures r.Ok? <==> forall c :: 0 <= c < |filterColumns| ==> filterColumns[c] in store.columns
    ensures r.Err? ==> r.error == IOError
    ensures r.Ok? ==> |r.value| == |rowsIndex.rowOffsets| - 1
    ensures r.Ok? ==> forall k :: 0 <= k < |r.value| ==> |r.value[k]| == |filterColumns|
    ensures r.Ok? ==> forall k, c :: 0 <= k < |r.value| && 0 <= c < |filterColumns| ==>
      r.value[k][c] == Cell(IndexedValues(store, data, filterColumns[c]), k)
  {
    var columnValues :- ReadFilterColumns(filterColumns, store, data);
    var numberOfRows := |rowsIndex.rowOffsets| - 1;
    Ok(seq(numberOfRows, k requires 0 <= k < numberOfRows =>
      seq(|filterColumns|, c requires 0 <= c < |filterColumns| => Cell(columnValues[c], k))))
  }

  /**
    The data file of a table: the header bytes followed by the rows, and
    indexes that describe it: a row index with every row start and the end
    of the file, and, for every listed column name, an index holding the
    reference offsets of the column at the given position.
   */
  predicate IndexesDescribe(store: TableIndexes, header: seq<byte>, table: seq<seq<string>>, names: seq<string>, positions: seq<nat>) {
    && store.rows.Some?
    && IndexUpdater.RowIndexDescribes(store.rows.value.rowOffsets, |header|, table)
    && |positions| == |names|
    && forall c :: 0 <= c < |names| ==>
         names[c] in store.columns && store.columns[names[c]].offsets == ColumnOffsets(table, |header|, positions[c])
  }

  /** Every row has every listed position, and every value is plain ASCII text. */
  predicate CompleteAsciiRows(table: seq<seq<string>>, positions: seq<nat>) {
    && PlainRows(table)
    && (forall k, c :: 0 <= k < |table| && 0 <= c < |positions| ==> positions[c] < |table[k]|)
    && (forall k, j :: 0 <= k < |table| && 0 <= j < |table[k]| ==> IsAscii(table[k][j]))
  }

  /**
    With indexes that describe the data file, the restricted rows are the
    projections of the table's rows onto the filter columns: cell `[k][c]`
    is row `k`'s value of the column at `positions[c]`.
   */
  lemma RestrictedRowsProjectTable(filterColumns: seq<string>, positions: seq<nat>, store: TableIndexes, header: seq<byte>, table: seq<seq<string>>)
    requires IndexesDescribe(store, header, table, filterColumns, positions)
    requires CompleteAsciiRows(table, positions)
    ensures GetRestrictedRows(filterColumns, store.rows.value, store, header + RowsBytes(table)).Ok?
    ensures |GetRestrictedRows(filterColumns, store.rows.value, store, header + RowsBytes(table)).value| == |table|
    ensures forall k, c :: 0 <= k < |table| && 0 <= c < |filterColumns| ==>
      GetRestrictedRows(filterColumns, store.rows.value, store, header + RowsBytes(table)).value[k][c] == table[k][positions[c]]
  {
    var data := header + RowsBytes(table);
    forall k, c | 0 <= k < |table| && 0 <= c < |filterColumns|
      ensures Cell(IndexedValues(store, data, filterColumns[c]), k) == table[k][positions[c]]
    {
      IndexedCellIsField(filterColumns[c], positions[c], store, header, table, k);
    }
  }

  /** One cell of the projection. */
  lemma IndexedCellIsField(name: string, j: nat, store: TableIndexes, header: seq<byte>, table: seq<seq<string>>, k: nat)
    requires name in store.columns && store.columns[name].offsets == ColumnOffsets(table, |header|, j)
    requires PlainRows(table)
    requires forall r :: 0 <= r < |table| ==> j < |table[r]|
    requires k < |table| && IsAscii(table[k][j])
    ensures Cell(IndexedValues(store, header + RowsBytes(table), name), k) == table[k][j]
  {
    var offsets := store.columns[name].offsets;
    IndexUpdater.IndexedReadReturnsField(header, table, offsets, j, k);
    AsciiRoundTrip(table[k][j]);
  }
}
