/**
  Existence checks shared by the statement validators (validation/common.rs).
  Only `does_table_exist` is part of this model's source; the two
  `validate_*_exists` checks the validators call are given the behaviour
  their names and error variants state.
 */
module ValidationCommon {

  import opened Types
  import Catalog
  import OffsetCounter

  /** `iter().any(|table| table.name == name)`. */
  function AnyTableNamed(tables: seq<TableSchema>, tableName: string): (found: bool)
    ensures found <==> exists i :: 0 <= i < |tables| && tables[i].name == tableName
  {
    if |tables| == 0 then false
    else if tables[0].name == tableName then true
    else
      var rest := AnyTableNamed(tables[1..], tableName);
      assert forall i :: 1 <= i < |tables| ==> tables[i] == tables[1..][i - 1];
      rest
  }

  /**
    `does_table_exist`: whether the first schema named like the default
    schema holds a table with the name; false when there is no such schema.
   */
  function DoesTableExist(db: Database, tableName: string): (found: bool)
    ensures Catalog.FindDatabaseSchema(db, db.configuration.defaultSchema).None? ==> !found
    ensures found <==> (Catalog.FindDatabaseSchema(db, db.configuration.defaultSchema).Some?
      && AnyTableNamed(Catalog.FindDatabaseSchema(db, db.configuration.defaultSchema).value.tables, tableName))
  {
    match Catalog.FindDatabaseSchema(db, db.configuration.defaultSchema)
    case None => false
    case Some(schema) => AnyTableNamed(schema.tables, tableName)
  }

  /** The existence check and the lookup agree. */
  lemma DoesTableExistAgreesWithFind(db: Database, tableName: string)
    ensures DoesTableExist(db, tableName) <==> Catalog.FindDatabaseTable(db, tableName).Some?
  {
    var schema := Catalog.FindDatabaseSchema(db, db.configuration.defaultSchema);
    if schema.Some? && DoesTableExist(db, tableName) {
      var i :| 0 <= i < |schema.value.tables| && schema.value.tables[i].name == tableName;
    }
  }

  /** The table must exist in the default schema. */
  function ValidateTableExists(db: Database, tableName: string): (r: Outcome)
    ensures r.Pass? <==> Catalog.FindDatabaseTable(db, tableName).Some?
    ensures r.Fail? ==> r.error == TableDoesNotExist(tableName)
  {
    DoesTableExistAgreesWithFind(db, tableName);
    if DoesTableExist(db, tableName) then Pass else Fail(TableDoesNotExist(tableName))
  }

  /** The column must be one of the table's columns. */
  function ValidateColumnExists(table: TableSchema, columnName: string): (r: Outcome)
    ensures r.Pass? <==> columnName in OffsetCounter.ColumnNames(table.columns)
    ensures r.Fail? ==> r.error == ColumnDoesNotExist(columnName, table.name)
  {
    if columnName in OffsetCounter.ColumnNames(table.columns) then Pass
    else Fail(ColumnDoesNotExist(columnName, table.name))
  }

  /** Every column of the list must exist; the first missing one is reported. */
  function ValidateColumnsExist(table: TableSchema, columnNames: seq<string>): (r: Outcome)
    ensures r.Pass? <==> forall i :: 0 <= i < |columnNames| ==> columnNames[i] in OffsetCounter.ColumnNames(table.columns)
    ensures r.Fail? ==> exists i :: (0 <= i < |columnNames|
      && columnNames[i] !in OffsetCounter.ColumnNames(table.columns)
      && r.error == ColumnDoesNotExist(columnNames[i], table.name)
      && forall i' :: 0 <= i' < i ==> columnNames[i'] in OffsetCounter.ColumnNames(table.columns))
  {
    if |columnNames| == 0 then Pass
    else if columnNames[0] !in OffsetCounter.ColumnNames(table.columns) then Fail(ColumnDoesNotExist(columnNames[0], table.name))
    else
      var rest := ValidateColumnsExist(table, columnNames[1..]);
      assert forall i :: 1 <= i < |columnNames| ==> columnNames[i] == columnNames[1..][i - 1];
      if rest.Fail? then
        var i :| 0 <= i < |columnNames[1..]|
          && columnNames[1..][i] !in OffsetCounter.ColumnNames(table.columns)
          && rest.error == ColumnDoesNotExist(columnNames[1..][i], table.name)
          && forall i' :: 0 <= i' < i ==> columnNames[1..][i'] in OffsetCounter.ColumnNames(table.columns);
        assert columnNames[i + 1] == columnNames[1..][i];
        rest
      else
        rest
  }
}
