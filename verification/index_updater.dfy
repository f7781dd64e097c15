/**
  Maintenance of a table's index files (index_updater.rs). An insert
  appends the new rows' offsets to the row index and to every indexed
  column's index; a delete replaces them with offsets recomputed over the
  remaining rows. The consistency lemmas at the end show that appending
  keeps the indexes describing the data file.
 */
module IndexUpdater {

  import opened Wrappers
  import opened Types
  import opened Bytes
  import opened DataFile
  import opened IndexReader
  import opened OffsetCounter

  /** The index files after an update and how the update ended; files written before a failure stay written. */
  datatype IndexWrite = IndexWrite(store: TableIndexes, outcome: Outcome)

  /** Where appended rows start: the last row-index entry, or 0 for an empty row index. */
  function EndOfFileOffset(rowOffsets: seq<nat>): (eof: nat)
    ensures |rowOffsets| > 0 ==> eof == rowOffsets[|rowOffsets| - 1]
    ensures |rowOffsets| == 0 ==> eof == 0
  {
    if |rowOffsets| == 0 then 0 else rowOffsets[|rowOffsets| - 1]
  }

  /** Position `j` holds a column of the schema whose values are indexed. */
  predicate IndexedAt(columns: seq<Column>, j: int) {
    0 <= j < |columns| && columns[j].isIndexed
  }

  /** Some indexed column has this name. */
  predicate IndexedName(columns: seq<Column>, name: string) {
    exists j :: 0 <= j < |columns| && columns[j].isIndexed && columns[j].name == name
  }

  predicate DistinctNames(columns: seq<Column>) {
    forall i, j :: 0 <= i < j < |columns| ==> columns[i].name != columns[j].name
  }

  /** The anchor of an insert into a store whose row index exists. */
  function Anchor(store: TableIndexes): nat
    requires store.rows.Some?
  {
    EndOfFileOffset(store.rows.value.rowOffsets)
  }

  /**
    `add_index_offsets_on_insert`: reads the row index (failing when it is
    missing), appends the new rows' end offsets to it and writes it, then
    extends every indexed column's index by the column's new offsets; a
    missing column index stops the update after the row index was written.
   */
  method AddIndexOffsetsOnInsert(store: TableIndexes, rows: seq<seq<InsertedRowColumn>>, table: TableSchema)
    returns (u: IndexWrite)
    requires forall k :: 0 <= k < |rows| ==> |rows[k]| <= |table.columns|
    ensures store.rows.None? ==> u == IndexWrite(store, Fail(IOError))
    ensures store.rows.Some? ==> u.store.rows.Some?
    ensures store.rows.Some? ==> |u.store.rows.value.rowOffsets| == |store.rows.value.rowOffsets| + |rows|
    ensures store.rows.Some? ==> u.store.rows.value.rowOffsets[..|store.rows.value.rowOffsets|] == store.rows.value.rowOffsets
    ensures store.rows.Some? ==> forall k :: |store.rows.value.rowOffsets| <= k < |u.store.rows.value.rowOffsets| ==>
      u.store.rows.value.rowOffsets[k] == Anchor(store) + RowStart(TableValues(rows), k - |store.rows.value.rowOffsets| + 1)
    ensures u.store.columns.Keys == store.columns.Keys
    ensures forall name :: name in store.columns && !IndexedName(table.columns, name) ==> u.store.columns[name] == store.columns[name]
    ensures u.outcome.Pass? <==> store.rows.Some? && forall j :: IndexedAt(table.columns, j) ==> table.columns[j].name in store.columns
    ensures u.outcome.Fail? ==> u.outcome.error == IOError
    ensures u.outcome.Pass? && DistinctNames(table.columns) ==> forall j :: IndexedAt(table.columns, j) ==>
      u.store.columns[table.columns[j].name] == Index(
        store.columns[table.columns[j].name].key,
        store.columns[table.columns[j].name].offsets + ColumnOffsets(TableValues(rows), Anchor(store), j))
  {
    var rowsRead := ReadRowsIndex(store);
    if rowsRead.Err? {
      return IndexWrite(store, Fail(rowsRead.error));
    }
    var oldOffsets := rowsRead.value.rowOffsets;
    var eof := EndOfFileOffset(oldOffsets);
    var columnOffsets, newRowOffsets := ComputeInsertionOffsets(rows, eof, |table.columns|);
    assert (oldOffsets + newRowOffsets)[..|oldOffsets|] == oldOffsets;
    var columns, outcome := ExtendColumnIndexes(store.columns, table.columns, columnOffsets);
    return IndexWrite(TableIndexes(Some(RowsIndex(oldOffsets + newRowOffsets)), columns), outcome);
  }

  /**
    The column loop of `add_index_offsets_on_insert`: position `j` of
    `columnOffsets` extends the index of the schema's `j`-th column when
    that column exists and is indexed. The first missing index stops the
    loop; the indexes extended before it stay extended.
   */
  method ExtendColumnIndexes(indexes: map<string, Index>, columns: seq<Column>, columnOffsets: seq<seq<nat>>)
    returns (r: map<string, Index>, outcome: Outcome)
    ensures r.Keys == indexes.Keys
    ensures forall name :: name in indexes && !IndexedName(columns, name) ==> r[name] == indexes[name]
    ensures outcome.Pass? <==> forall j :: 0 <= j < |columnOffsets| && IndexedAt(columns, j) ==> columns[j].name in indexes
    ensures outcome.Fail? ==> outcome.error == IOError
    ensures outcome.Pass? && DistinctNames(columns) ==> forall j :: 0 <= j < |columnOffsets| && IndexedAt(columns, j) ==>
      r[columns[j].name] == Index(indexes[columns[j].name].key, indexes[columns[j].name].offsets + columnOffsets[j])
  {
    r := indexes;
    var j := 0;
    while j < |columnOffsets|
      invariant 0 <= j <= |columnOffsets|
      invariant r.Keys == indexes.Keys
      invariant forall name :: name in indexes && !IndexedName(columns, name) ==> r[name] == indexes[name]
      invariant forall i :: 0 <= i < j && IndexedAt(columns, i) ==> columns[i].name in indexes
      invariant DistinctNames(columns) ==> forall i :: 0 <= i < j && IndexedAt(columns, i) ==>
        r[columns[i].name] == Index(indexes[columns[i].name].key, indexes[columns[i].name].offsets + columnOffsets[i])
      invariant DistinctNames(columns) ==> forall i :: j <= i < |columns| && columns[i].name in indexes ==>
        r[columns[i].name] == indexes[columns[i].name]
    {
      if j < |columns| && columns[j].isIndexed {
        var name := columns[j].name;
        if name !in r {
          return r, Fail(IOError);
        }
        var index := r[name];
        r := r[name := Index(index.key, index.offsets + columnOffsets[j])];
      }
      j := j + 1;
    }
    return r, Pass;
  }

  /**
    `update_indexes_on_delete`: the row index is replaced by the recomputed
    row offsets, and every indexed column's index by an index keyed by the
    column's name holding its recomputed offsets. The recomputation itself
    (`compute_records_offsets`) is an input.
   */
  function UpdateIndexesOnDelete(store: TableIndexes, table: TableSchema, columnOffsets: seq<seq<nat>>, rowOffsets: seq<nat>): (r: TableIndexes)
    ensures r.rows == Some(RowsIndex(rowOffsets))
    ensures forall name :: name in store.columns ==> name in r.columns
    ensures forall name :: name in r.columns && name !in store.columns ==>
      exists j :: 0 <= j < |columnOffsets| && IndexedAt(table.columns, j) && table.columns[j].name == name
    ensures forall name :: name in store.columns && !IndexedName(table.columns, name) ==> r.columns[name] == store.columns[name]
    ensures DistinctNames(table.columns) ==> forall j :: 0 <= j < |columnOffsets| && IndexedAt(table.columns, j) ==>
      table.columns[j].name in r.columns && r.columns[table.columns[j].name] == Index(table.columns[j].name, columnOffsets[j])
  {
    TableIndexes(Some(RowsIndex(rowOffsets)), OverwriteColumnIndexes(store.columns, table.columns, columnOffsets))
  }

  /** The column-index loop of `update_indexes_on_delete`, over the first `|offsets|` positions. */
  function OverwriteColumnIndexes(indexes: map<string, Index>, columns: seq<Column>, offsets: seq<seq<nat>>): (r: map<string, Index>)
    ensures forall name :: name in indexes ==> name in r
    ensures forall name :: name in r && name !in indexes ==>
      exists j :: 0 <= j < |offsets| && IndexedAt(columns, j) && columns[j].name == name
    ensures forall name :: name in indexes && !IndexedName(columns, name) ==> r[name] == indexes[name]
    ensures DistinctNames(columns) ==> forall j :: 0 <= j < |offsets| && IndexedAt(columns, j) ==>
      columns[j].name in r && r[columns[j].name] == Index(columns[j].name, offsets[j])
  {
    if |offsets| == 0 then indexes
    else
      var j := |offsets| - 1;
      var previous := OverwriteColumnIndexes(indexes, columns, offsets[..j]);
      if j < |columns| && columns[j].isIndexed then
        previous[columns[j].name := Index(columns[j].name, offsets[j])]
      else
        previous
  }

  // ---------------------------------------------------------------------------
  // Consistency of the indexes with the data file
  // ---------------------------------------------------------------------------

  /**
    The row index describes a data file made of a header of `headerLength`
    bytes followed by `table`: one entry per row start, then the end of the file.
   */
  predicate RowIndexDescribes(rowOffsets: seq<nat>, headerLength: nat, table: seq<seq<string>>) {
    |rowOffsets| == |table| + 1
    && forall k :: 0 <= k <= |table| ==> rowOffsets[k] == headerLength + RowStart(table, k)
  }

  /** Row starts inside the first part of a concatenation do not see the second part. */
  lemma RowStartAppend(a: seq<seq<string>>, b: seq<seq<string>>, k: nat)
    requires k <= |b|
    ensures RowStart(a + b, |a| + k) == |RowsBytes(a)| + RowStart(b, k)
  {
    assert (a + b)[..|a| + k] == a + b[..k];
    RowsBytesAppend(a, b[..k]);
  }

  /** Row starts inside the first part of a concatenation are unaffected by the second part. */
  lemma RowStartPrefix(a: seq<seq<string>>, b: seq<seq<string>>, k: nat)
    requires k <= |a|
    ensures RowStart(a + b, k) == RowStart(a, k)
  {
    assert (a + b)[..k] == a[..k];
  }

  /** A row index that describes the file ends with the file's length. */
  lemma AnchorIsEndOfFile(rowOffsets: seq<nat>, headerLength: nat, table: seq<seq<string>>)
    requires RowIndexDescribes(rowOffsets, headerLength, table)
    ensures EndOfFileOffset(rowOffsets) == headerLength + |RowsBytes(table)|
  {
    assert table[..|table|] == table;
  }

  /**
    Appending rows keeps the row index describing the file: if it described
    the file before, the insert's extended row index describes the file with
    the new rows appended, and it has one more entry per new row.
   */
  lemma InsertKeepsRowIndex(oldOffsets: seq<nat>, headerLength: nat, table: seq<seq<string>>, rows: seq<seq<InsertedRowColumn>>, newOffsets: seq<nat>)
    requires RowIndexDescribes(oldOffsets, headerLength, table)
    requires |newOffsets| == |oldOffsets| + |rows| && newOffsets[..|oldOffsets|] == oldOffsets
    requires forall k :: |oldOffsets| <= k < |newOffsets| ==>
      newOffsets[k] == EndOfFileOffset(oldOffsets) + RowStart(TableValues(rows), k - |oldOffsets| + 1)
    ensures RowIndexDescribes(newOffsets, headerLength, table + TableValues(rows))
  {
    var added := TableValues(rows);
    AnchorIsEndOfFile(oldOffsets, headerLength, table);
    forall k | 0 <= k <= |table + added|
      ensures newOffsets[k] == headerLength + RowStart(table + added, k)
    {
      if k <= |table| {
        assert newOffsets[k] == oldOffsets[k];
        RowStartPrefix(table, added, k);
      } else {
        RowStartAppend(table, added, k - |table|);
      }
    }
  }

  /** The offsets of a concatenation: the first part's, then the second part's shifted past the first part's bytes. */
  lemma {:induction false} ColumnOffsetsAppend(a: seq<seq<string>>, b: seq<seq<string>>, headerLength: nat, j: nat)
    ensures ColumnOffsets(a + b, headerLength, j)
      == ColumnOffsets(a, headerLength, j) + ColumnOffsets(b, headerLength + |RowsBytes(a)|, j)
    decreases |b|
  {
    if |b| == 0 {
      assert a + b == a;
    } else {
      var b0 := b[..|b| - 1];
      assert (a + b)[..|a + b| - 1] == a + b0;
      assert (a + b)[|a + b| - 1] == b[|b| - 1];
      ColumnOffsetsAppend(a, b0, headerLength, j);
      RowsBytesAppend(a, b0);
    }
  }

  /**
    Appending rows keeps a column index describing the file: the offsets the
    insert appends, anchored at the end of the file, are exactly the
    offsets of the new rows in the grown file.
   */
  lemma InsertKeepsColumnIndex(rowOffsets: seq<nat>, headerLength: nat, table: seq<seq<string>>, rows: seq<seq<InsertedRowColumn>>, j: nat)
    requires RowIndexDescribes(rowOffsets, headerLength, table)
    ensures ColumnOffsets(table, headerLength, j) + ColumnOffsets(TableValues(rows), EndOfFileOffset(rowOffsets), j)
      == ColumnOffsets(table + TableValues(rows), headerLength, j)
  {
    AnchorIsEndOfFile(rowOffsets, headerLength, table);
    ColumnOffsetsAppend(table, TableValues(rows), headerLength, j);
  }

  /**
    What consistent indexes buy: when the file is a header followed by plain
    rows that all have field `j`, and the column index holds the reference
    offsets, reading the file at the `k`-th offset yields the `k`-th row's
    value of the column.
   */
  lemma IndexedReadReturnsField(header: seq<byte>, table: seq<seq<string>>, offsets: seq<nat>, j: nat, k: nat)
    requires PlainRows(table)
    requires forall r :: 0 <= r < |table| ==> j < |table[r]|
    requires offsets == ColumnOffsets(table, |header|, j)
    requires k < |table|
    ensures k < |offsets|
    ensures ReadField(header + RowsBytes(table), offsets[k]) == Utf8(table[k][j])
  {
    var offset := |header| + RowStart(table, k) + FieldOffset(table[k], j);
    assert |offsets| == |table| && offsets[k] == offset by {
      ColumnOffsetsOfCompleteRows(table, |header|, j);
    }
    assert ReadField(header + RowsBytes(table), offset) == Utf8(table[k][j]) by {
      ReadFieldInFile(header, table, k, j);
    }
  }
}
