/**
  The INSERT validator of the row-writing path (insert/validator.rs): the
  table and the named columns must exist, the values must have the
  columns' types, and the constraints complete every row to one cell per
  column of the table.
 */
module InsertValidator {

  import opened Wrappers
  import opened Types
  import Ast
  import Catalog
  import OffsetCounter
  import ValidationCommon
  import ColumnTypes
  import InsertUtils
  import ColumnConstraints
  import InsertInto

  /**
    `validate_insert_into`: the table name, the column names and the rows
    completed by the constraint checks of the default schema.
   */
  function ValidateInsertInto(db: Database, name: Ast.ObjectName, columns: seq<Ast.Ident>, source: Option<Ast.Query>,
                              parsesAsFloat: string -> bool, stores: ColumnConstraints.Stores): (r: Result<(string, seq<string>, seq<seq<InsertedRowColumn>>)>)
    ensures |name.parts| == 0 ==> r == Err(MissingTableName)
    ensures |name.parts| > 0 && Catalog.FindDatabaseTable(db, name.parts[0].value).None? ==>
      r == Err(TableDoesNotExist(name.parts[0].value))
    ensures (&& |name.parts| > 0
             && Catalog.FindDatabaseTable(db, name.parts[0].value).Some?
             && exists i :: 0 <= i < |columns| && columns[i].value !in OffsetCounter.ColumnNames(Catalog.FindDatabaseTable(db, name.parts[0].value).value.columns))
      ==> r.Err? && r.error.ColumnDoesNotExist?
    ensures r.Ok? ==>
      var table := Catalog.FindDatabaseTable(db, name.parts[0].value);
      var rows := InsertUtils.ExtractInsertedRows(source, r.value.1);
      && table.Some?
      && r.value.0 == name.parts[0].value
      && r.value.1 == InsertInto.IdentValues(columns)
      && (forall i :: 0 <= i < |columns| ==> columns[i].value in OffsetCounter.ColumnNames(table.value.columns))
      && rows.Ok?
      && ColumnTypes.ValidateColumnTypes(table.value, rows.value, parsesAsFloat).Pass?
      && Ok(r.value.2) == ColumnConstraints.ValidateColumnConstraints(rows.value, db.configuration.defaultSchema, table.value, true, stores)
  {
    if |name.parts| == 0 then Err(MissingTableName)
    else
      var tableName := name.parts[0].value;
      var exists_ := ValidationCommon.ValidateTableExists(db, tableName);
      if exists_.Fail? then Err(exists_.error)
      else
        match Catalog.FindDatabaseTable(db, tableName)
        case None => Err(TableDoesNotExist(tableName))
        case Some(table) =>
          var columnNames := InsertInto.IdentValues(columns);
          var known := ValidationCommon.ValidateColumnsExist(table, columnNames);
          if known.Fail? then Err(known.error)
          else
            var rows :- InsertUtils.ExtractInsertedRows(source, columnNames);
            var types := ColumnTypes.ValidateColumnTypes(table, rows, parsesAsFloat);
            if types.Fail? then Err(types.error)
            else
              var completed :- ColumnConstraints.ValidateColumnConstraints(rows, db.configuration.defaultSchema, table, true, stores);
              Ok((tableName, columnNames, completed))
  }

  /**
    The converse: an INSERT into an existing table, naming only its
    columns, whose rows extract, type-check and pass the constraint checks
    is accepted.
   */
  lemma ValidInsertIsAccepted(db: Database, name: Ast.ObjectName, columns: seq<Ast.Ident>, source: Option<Ast.Query>,
                              parsesAsFloat: string -> bool, stores: ColumnConstraints.Stores)
    requires |name.parts| > 0
    requires Catalog.FindDatabaseTable(db, name.parts[0].value).Some?
    requires forall i :: 0 <= i < |columns| ==>
      columns[i].value in OffsetCounter.ColumnNames(Catalog.FindDatabaseTable(db, name.parts[0].value).value.columns)
    requires InsertUtils.ExtractInsertedRows(source, InsertInto.IdentValues(columns)).Ok?
    requires ColumnTypes.ValidateColumnTypes(Catalog.FindDatabaseTable(db, name.parts[0].value).value,
               InsertUtils.ExtractInsertedRows(source, InsertInto.IdentValues(columns)).value, parsesAsFloat).Pass?
    requires ColumnConstraints.ValidateColumnConstraints(InsertUtils.ExtractInsertedRows(source, InsertInto.IdentValues(columns)).value,
               db.configuration.defaultSchema, Catalog.FindDatabaseTable(db, name.parts[0].value).value, true, stores).Ok?
    ensures ValidateInsertInto(db, name, columns, source, parsesAsFloat, stores).Ok?
  {
    var tableName := name.parts[0].value;
    ValidationCommon.DoesTableExistAgreesWithFind(db, tableName);
  }

  /**
    The completed cell of a column: named after it, holding the value the
    row gave, or else the column's default, or else the text "Null"; a
    NOT NULL column without a default is never completed from nothing.
   */
  predicate CompletedFrom(column: Column, given: Option<string>, cell: InsertedRowColumn) {
    && cell.name == column.name
    && (given.Some? ==> cell.value == given.value)
    && (given.None? ==> ColumnConstraints.DefaultOf(column).Some? || NotNull !in column.constraints)
    && (given.None? && ColumnConstraints.DefaultOf(column).Some? ==> cell.value == ColumnConstraints.DefaultOf(column).value)
    && (given.None? && ColumnConstraints.DefaultOf(column).None? ==> cell.value == "Null")
  }

  /**
    Every row comes back complete: one row per inserted row, each holding
    every column of the table in schema order, completed from what the row
    gave.
   */
  predicate CompletesEveryRow(rows: seq<seq<InsertedRowColumn>>, table: TableSchema, completed: seq<seq<InsertedRowColumn>>) {
    && |completed| == |rows|
    && (forall k :: 0 <= k < |rows| ==> |completed[k]| == |table.columns|)
    && forall k, j :: 0 <= k < |rows| && 0 <= j < |table.columns| ==>
         CompletedFrom(table.columns[j], InsertUtils.FirstValueOf(rows[k], table.columns[j].name), completed[k][j])
  }

  /**
    An accepted INSERT comes back complete: every row holds every column
    of the table in schema order, completed from what the row gave.
   */
  lemma AcceptedRowsAreComplete(db: Database, name: Ast.ObjectName, columns: seq<Ast.Ident>, source: Option<Ast.Query>,
                                parsesAsFloat: string -> bool, stores: ColumnConstraints.Stores,
                                accepted: (string, seq<string>, seq<seq<InsertedRowColumn>>))
    requires ValidateInsertInto(db, name, columns, source, parsesAsFloat, stores) == Ok(accepted)
    ensures Catalog.FindDatabaseTable(db, accepted.0).Some?
    ensures InsertUtils.ExtractInsertedRows(source, accepted.1).Ok?
    ensures var table := Catalog.FindDatabaseTable(db, accepted.0).value;
      var rows := InsertUtils.ExtractInsertedRows(source, accepted.1).value;
      |rows| > 0 && |table.columns| > 0 ==> CompletesEveryRow(rows, table, accepted.2)
  {
    AcceptedRowsPassConstraints(db, name, columns, source, parsesAsFloat, stores, accepted);
    var table := Catalog.FindDatabaseTable(db, accepted.0).value;
    var rows := InsertUtils.ExtractInsertedRows(source, accepted.1).value;
    if |rows| > 0 && |table.columns| > 0 {
      CompletionFillsEveryCell(rows, db.configuration.defaultSchema, table, stores, accepted.2);
    }
  }

  /** The accepted rows are what the constraint validator completed from the extracted ones. */
  lemma AcceptedRowsPassConstraints(db: Database, name: Ast.ObjectName, columns: seq<Ast.Ident>, source: Option<Ast.Query>,
                                    parsesAsFloat: string -> bool, stores: ColumnConstraints.Stores,
                                    accepted: (string, seq<string>, seq<seq<InsertedRowColumn>>))
    requires ValidateInsertInto(db, name, columns, source, parsesAsFloat, stores) == Ok(accepted)
    ensures Catalog.FindDatabaseTable(db, accepted.0).Some?
    ensures InsertUtils.ExtractInsertedRows(source, accepted.1).Ok?
    ensures ColumnConstraints.ValidateColumnConstraints(InsertUtils.ExtractInsertedRows(source, accepted.1).value,
              db.configuration.defaultSchema, Catalog.FindDatabaseTable(db, accepted.0).value, true, stores) == Ok(accepted.2)
  {
  }

  /** The cell-by-cell reading of the constraint validator's completed rows. */
  lemma CompletionFillsEveryCell(rows: seq<seq<InsertedRowColumn>>, schemaName: string, table: TableSchema,
                                 stores: ColumnConstraints.Stores, completed: seq<seq<InsertedRowColumn>>)
    requires |rows| > 0 && |table.columns| > 0
    requires ColumnConstraints.ValidateColumnConstraints(rows, schemaName, table, true, stores) == Ok(completed)
    ensures CompletesEveryRow(rows, table, completed)
  {
    ColumnConstraints.CompletedRowsHoldEveryColumn(rows, schemaName, table, stores);
    forall k, j | 0 <= k < |rows| && 0 <= j < |table.columns|
      ensures CompletedFrom(table.columns[j], InsertUtils.FirstValueOf(rows[k], table.columns[j].name), completed[k][j])
    {
      var column := table.columns[j];
      var given := InsertUtils.FirstValueOf(rows[k], column.name);
      var value := ColumnConstraints.CompleteValue(column, given);
      assert value.Ok? && completed[k][j] == InsertedRowColumn(column.name, value.value);
    }
  }
}
