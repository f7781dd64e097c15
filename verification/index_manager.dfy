/** Creation of a new table's index files (index_manager.rs). */
module IndexManager {

  import opened Wrappers
  import opened Types
  import opened DataFile
  import opened IndexReader
  import opened OffsetCounter
  import IndexUpdater

  /** `index_strategy`: a column is indexed exactly when it is a primary key or unique. */
  function IndexStrategy(constraints: seq<Constraint>): (indexed: bool)
    ensures indexed <==> PrimaryKey in constraints || Unique in constraints
  {
    if |constraints| == 0 then false
    else constraints[0] == PrimaryKey || constraints[0] == Unique || IndexStrategy(constraints[1..])
  }

  /** The names of the columns `index_strategy` selects, in declaration order. */
  function IndexableNames(columns: seq<Column>): (names: seq<string>)
    ensures forall n :: n in names <==> exists j :: 0 <= j < |columns| && IndexStrategy(columns[j].constraints) && columns[j].name == n
  {
    if |columns| == 0 then []
    else (if IndexStrategy(columns[0].constraints) then [columns[0].name] else []) + IndexableNames(columns[1..])
  }

  /**
    `create_indexes`: an empty index, keyed by the column name, for every
    column that `index_strategy` selects, and a row index holding the
    headers offset as its single entry.
   */
  function CreateIndexes(table: TableSchema): (store: TableIndexes)
    ensures store.rows == Some(RowsIndex([ComputeHeadersOffset(table)]))
    ensures forall name :: name in store.columns <==>
      exists j :: 0 <= j < |table.columns| && IndexStrategy(table.columns[j].constraints) && table.columns[j].name == name
    ensures forall name :: name in store.columns ==> store.columns[name] == Index(name, [])
  {
    var names := IndexableNames(table.columns);
    TableIndexes(Some(RowsIndex([ComputeHeadersOffset(table)])), map name | name in names :: Index(name, []))
  }

  /**
    A freshly created table's indexes describe its (row-less) data file
    when the header line occupies the headers offset: the row index has the
    single entry `0 + 1`, and every column index is the (empty) reference
    list.
   */
  lemma CreatedIndexesDescribeEmptyTable(table: TableSchema, j: nat)
    ensures IndexUpdater.RowIndexDescribes(CreateIndexes(table).rows.value.rowOffsets, ComputeHeadersOffset(table), [])
    ensures ColumnOffsets([], ComputeHeadersOffset(table), j) == []
    ensures forall name :: name in CreateIndexes(table).columns ==> CreateIndexes(table).columns[name].offsets == []
  {
    var rowOffsets := CreateIndexes(table).rows.value.rowOffsets;
    assert RowStart([], 0) == 0;
  }
}
