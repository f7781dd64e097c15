/** The checks a SELECT must pass before any file is read (select/validator.rs). */
module SelectValidator {

  import opened Wrappers
  import opened Types
  import Catalog
  import OffsetCounter
  import ValidationCommon

  /** Every projected column (unless `*` is projected) and the ORDER BY column are columns of the table. */
  predicate ColumnsValid(table: TableSchema, columns: seq<string>, orderColumnName: Option<string>) {
    var names := OffsetCounter.ColumnNames(table.columns);
    && ("*" in columns || forall i :: 0 <= i < |columns| ==> columns[i] in names)
    && (orderColumnName.Some? ==> orderColumnName.value in names)
  }

  /**
    `validate_select_query`: the table must exist in the default schema;
    unless `*` is projected, every projected column must exist (the first
    missing one is reported); the ORDER BY column, if any, must exist.
   */
  function ValidateSelectQuery(db: Database, tableName: string, columns: seq<string>, orderColumnName: Option<string>): (r: Outcome)
    ensures Catalog.FindDatabaseTable(db, tableName).None? ==> r == Fail(TableDoesNotExist(tableName))
    ensures r.Pass? <==> (Catalog.FindDatabaseTable(db, tableName).Some?
      && ColumnsValid(Catalog.FindDatabaseTable(db, tableName).value, columns, orderColumnName))
    ensures r.Fail? && Catalog.FindDatabaseTable(db, tableName).Some? ==>
      r.error.ColumnDoesNotExist? && r.error.tableName == tableName
  {
    match Catalog.FindDatabaseTable(db, tableName)
    case None => Fail(TableDoesNotExist(tableName))
    case Some(table) =>
      var projected := if "*" in columns then Pass else ValidationCommon.ValidateColumnsExist(table, columns);
      if projected.Fail? then projected
      else if orderColumnName.Some? then ValidationCommon.ValidateColumnExists(table, orderColumnName.value)
      else Pass
  }
}
