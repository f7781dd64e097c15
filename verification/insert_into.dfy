/**
  The INSERT path the statement dispatcher takes (insert/insert_into.rs):
  its own `validate_insert_into`, with a type check and a uniqueness check
  of its own, followed by the append of one record per row to the table's
  data file. The append is the parameter `append`: the file itself is not
  part of this model.
 */
module InsertInto {

  import opened Wrappers
  import opened Types
  import Ast
  import Seqs
  import Catalog
  import ValidationCommon
  import ColumnTypes
  import InsertUtils
  import ColumnConstraints
  import Numbers
  import OffsetCounter

  /** The schema whose indexes this file reads, whatever the default schema is. */
  const HardCodedSchema: string := "schema_1"

  /**
    `validate_column_uniqueness`: the inserted values may not repeat among
    themselves nor meet an existing value; the error names no value.
   */
  function ValidateColumnUniqueness(inserted: seq<string>, existing: seq<string>, columnName: string): (r: Outcome)
    ensures r.Pass? <==> Seqs.NoDuplicates(inserted) && forall e :: e in existing ==> e !in inserted
    ensures r.Fail? ==> r.error == ColumnUniquenessNotSatisfied(columnName, None)
  {
    if ColumnConstraints.FirstRepeat(inserted).Some? || ColumnConstraints.FirstClash(existing, inserted).Some? then
      Fail(ColumnUniquenessNotSatisfied(columnName, None))
    else
      Pass
  }

  /**
    This check and the constraint validator's uniqueness check accept the
    same values; they differ only in whether the error names the value.
   */
  lemma UniquenessChecksAgree(column: Column, schemaName: string, table: TableSchema, values: seq<string>,
                              stores: ColumnConstraints.Stores)
    requires ColumnConstraints.IsUnique(column)
    requires stores.indexedValues(schemaName, table.name, column.name).Ok?
    ensures var existing := stores.indexedValues(schemaName, table.name, column.name).value;
      (ValidateColumnUniqueness(values, existing, column.name).Pass? <==>
        ColumnConstraints.ValidateUniqueness(column, schemaName, table, values, stores).Pass?)
  {
  }

  /** The uniqueness check of one column, skipped unless it is UNIQUE or PRIMARY KEY. */
  function CheckUniqueColumn(rows: seq<seq<InsertedRowColumn>>, schemaName: string, table: TableSchema, column: Column,
                             indexedValues: (string, string, string) -> Result<seq<string>>): (r: Outcome)
    ensures !ColumnConstraints.IsUnique(column) ==> r.Pass?
    ensures ColumnConstraints.IsUnique(column) ==>
      var existing := indexedValues(schemaName, table.name, column.name);
      var inserted := InsertUtils.GetInsertedColumnValuesFromRows(rows, column.name);
      (r.Pass? <==> existing.Ok? && inserted.Ok? && ValidateColumnUniqueness(inserted.value, existing.value, column.name).Pass?)
  {
    if !ColumnConstraints.IsUnique(column) then Pass
    else
      match indexedValues(schemaName, table.name, column.name)
      case Err(e) => Fail(e)
      case Ok(existing) =>
        match InsertUtils.GetInsertedColumnValuesFromRows(rows, column.name)
        case Err(e) => Fail(e)
        case Ok(inserted) => ValidateColumnUniqueness(inserted, existing, column.name)
  }

  /** `validate_rows_constraints`: the unique columns checked in schema order; the first failure aborts. */
  function ValidateRowsConstraints(rows: seq<seq<InsertedRowColumn>>, schemaName: string, table: TableSchema,
                                   indexedValues: (string, string, string) -> Result<seq<string>>): (r: Outcome)
    ensures r.Pass? <==> forall j :: 0 <= j < |table.columns| ==>
      CheckUniqueColumn(rows, schemaName, table, table.columns[j], indexedValues).Pass?
  {
    CheckUniqueColumns(rows, schemaName, table, table.columns, indexedValues)
  }

  function CheckUniqueColumns(rows: seq<seq<InsertedRowColumn>>, schemaName: string, table: TableSchema, columns: seq<Column>,
                              indexedValues: (string, string, string) -> Result<seq<string>>): (r: Outcome)
    ensures r.Pass? <==> forall j :: 0 <= j < |columns| ==> CheckUniqueColumn(rows, schemaName, table, columns[j], indexedValues).Pass?
  {
    if |columns| == 0 then Pass
    else
      var first := CheckUniqueColumn(rows, schemaName, table, columns[0], indexedValues);
      if first.Fail? then first
      else
        assert forall j :: 1 <= j < |columns| ==> columns[j] == columns[1..][j - 1];
        CheckUniqueColumns(rows, schemaName, table, columns[1..], indexedValues)
  }

  /** The names of the INSERT's column list, in order. */
  function IdentValues(idents: seq<Ast.Ident>): (names: seq<string>)
    ensures |names| == |idents|
    ensures forall i :: 0 <= i < |idents| ==> names[i] == idents[i].value
  {
    seq(|idents|, i requires 0 <= i < |idents| => idents[i].value)
  }

  /** The checks of the VALUES rows against a found table: extraction, then types, then uniqueness. */
  function ValidateRows(indexSchema: string, table: TableSchema, columnNames: seq<string>, source: Option<Ast.Query>,
                        parsesAsFloat: string -> bool,
                        indexedValues: (string, string, string) -> Result<seq<string>>): (r: Result<seq<seq<InsertedRowColumn>>>)
    ensures var rows := InsertUtils.ExtractInsertedRows(source, columnNames);
      (r.Ok? <==> rows.Ok? && ColumnTypes.ValidateColumnTypes(table, rows.value, parsesAsFloat).Pass?
                  && ValidateRowsConstraints(rows.value, indexSchema, table, indexedValues).Pass?)
    ensures r.Ok? ==> Ok(r.value) == InsertUtils.ExtractInsertedRows(source, columnNames)
  {
    var rows :- InsertUtils.ExtractInsertedRows(source, columnNames);
    var types := ColumnTypes.ValidateColumnTypes(table, rows, parsesAsFloat);
    if types.Fail? then Err(types.error)
    else
      var unique := ValidateRowsConstraints(rows, indexSchema, table, indexedValues);
      if unique.Fail? then Err(unique.error)
      else Ok(rows)
  }

  /** The INSERT checks with the indexes read from `indexSchema`. */
  function ValidateInsertIntoReading(indexSchema: string, db: Database, name: Ast.ObjectName, columns: seq<Ast.Ident>,
                                     source: Option<Ast.Query>, parsesAsFloat: string -> bool,
                                     indexedValues: (string, string, string) -> Result<seq<string>>): (r: Result<(string, seq<string>, seq<seq<InsertedRowColumn>>)>)
    ensures |name.parts| == 0 ==> r == Err(MissingTableName)
    ensures |name.parts| > 0 && !ValidationCommon.DoesTableExist(db, name.parts[0].value) ==>
      r == Err(TableDoesNotExist(name.parts[0].value))
    ensures r.Ok? ==>
      var table := Catalog.FindDatabaseTable(db, name.parts[0].value);
      && table.Some?
      && r.value.0 == name.parts[0].value
      && r.value.1 == IdentValues(columns)
      && Ok(r.value.2) == ValidateRows(indexSchema, table.value, r.value.1, source, parsesAsFloat, indexedValues)
    ensures (&& |name.parts| > 0
             && ValidationCommon.DoesTableExist(db, name.parts[0].value)
             && ValidateRows(indexSchema, Catalog.FindDatabaseTable(db, name.parts[0].value).value, IdentValues(columns), source,
                             parsesAsFloat, indexedValues).Ok?)
      ==> r.Ok?
  {
    if |name.parts| == 0 then Err(MissingTableName)
    else
      var tableName := name.parts[0].value;
      ValidationCommon.DoesTableExistAgreesWithFind(db, tableName);
      if !ValidationCommon.DoesTableExist(db, tableName) then Err(TableDoesNotExist(tableName))
      else
        match Catalog.FindDatabaseTable(db, tableName)
        case None => Err(TableDoesNotExist(tableName))
        case Some(table) =>
          var columnNames := IdentValues(columns);
          var rows :- ValidateRows(indexSchema, table, columnNames, source, parsesAsFloat, indexedValues);
          Ok((tableName, columnNames, rows))
  }

  /**
    `validate_insert_into` as written: the table is looked up in the
    default schema, but its unique columns are checked against the indexes
    of the schema named "schema_1".
   */
  function ValidateInsertIntoAsWritten(db: Database, name: Ast.ObjectName, columns: seq<Ast.Ident>,
                                       source: Option<Ast.Query>, parsesAsFloat: string -> bool,
                                       indexedValues: (string, string, string) -> Result<seq<string>>): (r: Result<(string, seq<string>, seq<seq<InsertedRowColumn>>)>)
    ensures |name.parts| == 0 ==> r == Err(MissingTableName)
    ensures |name.parts| > 0 && !ValidationCommon.DoesTableExist(db, name.parts[0].value) ==>
      r == Err(TableDoesNotExist(name.parts[0].value))
    ensures r.Ok? ==>
      var table := Catalog.FindDatabaseTable(db, r.value.0);
      && table.Some?
      && r.value.0 == name.parts[0].value
      && ColumnTypes.ValidateColumnTypes(table.value, r.value.2, parsesAsFloat).Pass?
      && ValidateRowsConstraints(r.value.2, HardCodedSchema, table.value, indexedValues).Pass?
  {
    ValidateInsertIntoReading(HardCodedSchema, db, name, columns, source, parsesAsFloat, indexedValues)
  }

  /**
    `validate_insert_into` with the unique columns checked against the
    indexes of the default schema, where the table itself was found.
   */
  function ValidateInsertInto(db: Database, name: Ast.ObjectName, columns: seq<Ast.Ident>,
                              source: Option<Ast.Query>, parsesAsFloat: string -> bool,
                              indexedValues: (string, string, string) -> Result<seq<string>>): (r: Result<(string, seq<string>, seq<seq<InsertedRowColumn>>)>)
    ensures |name.parts| == 0 ==> r == Err(MissingTableName)
    ensures |name.parts| > 0 && !ValidationCommon.DoesTableExist(db, name.parts[0].value) ==>
      r == Err(TableDoesNotExist(name.parts[0].value))
    ensures r.Ok? ==>
      var table := Catalog.FindDatabaseTable(db, r.value.0);
      && table.Some?
      && r.value.0 == name.parts[0].value
      && Ok(r.value.2) == InsertUtils.ExtractInsertedRows(source, IdentValues(columns))
      && ColumnTypes.ValidateColumnTypes(table.value, r.value.2, parsesAsFloat).Pass?
      && ValidateRowsConstraints(r.value.2, db.configuration.defaultSchema, table.value, indexedValues).Pass?
  {
    ValidateInsertIntoReading(db.configuration.defaultSchema, db, name, columns, source, parsesAsFloat, indexedValues)
  }

  /**
    The write step of `insert_into_table`: one record per accepted row,
    appended to the table's data file in the default schema. `append`
    stands for opening the file and writing the records; its error is the
    statement's, and the answer is the table name.
   */
  function AppendAccepted(db: Database, accepted: Result<(string, seq<string>, seq<seq<InsertedRowColumn>>)>,
                          append: (string, string, seq<seq<string>>) -> Outcome): (r: Result<string>)
    ensures accepted.Err? ==> r == Err(accepted.error)
    ensures accepted.Ok? ==>
      var written := append(db.configuration.defaultSchema, accepted.value.0, OffsetCounter.TableValues(accepted.value.2));
      && (r.Ok? <==> written.Pass?)
      && (r.Ok? ==> r.value == accepted.value.0)
      && (r.Err? ==> r.error == written.error)
  {
    var (tableName, _, rows) :- accepted;
    var written := append(db.configuration.defaultSchema, tableName, OffsetCounter.TableValues(rows));
    if written.Fail? then Err(written.error) else Ok(tableName)
  }

  /**
    `insert_into_table` as written: the loaded catalog (`loaded`), the
    checks of `validate_insert_into` (which read the indexes of
    "schema_1"), then the append.
   */
  function InsertIntoTable(loaded: Result<Database>, name: Ast.ObjectName, columns: seq<Ast.Ident>,
                           source: Option<Ast.Query>, parsesAsFloat: string -> bool,
                           indexedValues: (string, string, string) -> Result<seq<string>>,
                           append: (string, string, seq<seq<string>>) -> Outcome): (r: Result<string>)
    ensures loaded.Err? ==> r == Err(loaded.error)
    ensures loaded.Ok? && ValidateInsertIntoAsWritten(loaded.value, name, columns, source, parsesAsFloat, indexedValues).Err? ==>
      r == Err(ValidateInsertIntoAsWritten(loaded.value, name, columns, source, parsesAsFloat, indexedValues).error)
    ensures r.Ok? ==>
      var db := loaded.value;
      var accepted := ValidateInsertIntoAsWritten(db, name, columns, source, parsesAsFloat, indexedValues);
      && accepted.Ok?
      && r.value == name.parts[0].value
      && append(db.configuration.defaultSchema, r.value, OffsetCounter.TableValues(accepted.value.2)).Pass?
    ensures loaded.Ok? && ValidateInsertIntoAsWritten(loaded.value, name, columns, source, parsesAsFloat, indexedValues).Ok? ==>
      (r.Ok? <==> append(loaded.value.configuration.defaultSchema, name.parts[0].value,
                         OffsetCounter.TableValues(ValidateInsertIntoAsWritten(loaded.value, name, columns, source, parsesAsFloat, indexedValues).value.2)).Pass?)
  {
    var db :- loaded;
    AppendAccepted(db, ValidateInsertIntoAsWritten(db, name, columns, source, parsesAsFloat, indexedValues), append)
  }

  /** `insert_into_table` with the uniqueness checks reading the default schema's indexes. */
  function InsertIntoTableCorrected(loaded: Result<Database>, name: Ast.ObjectName, columns: seq<Ast.Ident>,
                                    source: Option<Ast.Query>, parsesAsFloat: string -> bool,
                                    indexedValues: (string, string, string) -> Result<seq<string>>,
                                    append: (string, string, seq<seq<string>>) -> Outcome): (r: Result<string>)
    ensures loaded.Err? ==> r == Err(loaded.error)
    ensures loaded.Ok? && ValidateInsertInto(loaded.value, name, columns, source, parsesAsFloat, indexedValues).Err? ==>
      r == Err(ValidateInsertInto(loaded.value, name, columns, source, parsesAsFloat, indexedValues).error)
    ensures r.Ok? ==>
      var db := loaded.value;
      var accepted := ValidateInsertInto(db, name, columns, source, parsesAsFloat, indexedValues);
      && accepted.Ok?
      && r.value == name.parts[0].value
      && append(db.configuration.defaultSchema, r.value, OffsetCounter.TableValues(accepted.value.2)).Pass?
    ensures loaded.Ok? && ValidateInsertInto(loaded.value, name, columns, source, parsesAsFloat, indexedValues).Ok? ==>
      (r.Ok? <==> append(loaded.value.configuration.defaultSchema, name.parts[0].value,
                         OffsetCounter.TableValues(ValidateInsertInto(loaded.value, name, columns, source, parsesAsFloat, indexedValues).value.2)).Pass?)
  {
    var db :- loaded;
    AppendAccepted(db, ValidateInsertInto(db, name, columns, source, parsesAsFloat, indexedValues), append)
  }

  /** The two statements differ only in the schema whose indexes are read: with "schema_1" as the default schema they agree. */
  lemma InsertsAgreeWhenDefaultIsHardCoded(loaded: Result<Database>, name: Ast.ObjectName, columns: seq<Ast.Ident>,
                                           source: Option<Ast.Query>, parsesAsFloat: string -> bool,
                                           indexedValues: (string, string, string) -> Result<seq<string>>,
                                           append: (string, string, seq<seq<string>>) -> Outcome)
    requires loaded.Ok? ==> loaded.value.configuration.defaultSchema == HardCodedSchema
    ensures InsertIntoTable(loaded, name, columns, source, parsesAsFloat, indexedValues, append)
      == InsertIntoTableCorrected(loaded, name, columns, source, parsesAsFloat, indexedValues, append)
  {
    if loaded.Ok? {
      var db := loaded.value;
      assert ValidateInsertIntoAsWritten(db, name, columns, source, parsesAsFloat, indexedValues)
          == ValidateInsertInto(db, name, columns, source, parsesAsFloat, indexedValues);
    }
  }

  /**
    An accepted INSERT never duplicates a value read from the index: for
    every UNIQUE or PRIMARY KEY column of the table, the values
    `indexedValues` reads from the default schema's index are disjoint
    from the inserted ones, and the inserted ones are distinct.
   */
  lemma AcceptedInsertKeepsUniqueColumnsUnique(db: Database, name: Ast.ObjectName, columns: seq<Ast.Ident>,
                                               source: Option<Ast.Query>, parsesAsFloat: string -> bool,
                                               indexedValues: (string, string, string) -> Result<seq<string>>,
                                               accepted: (string, seq<string>, seq<seq<InsertedRowColumn>>))
    requires ValidateInsertInto(db, name, columns, source, parsesAsFloat, indexedValues) == Ok(accepted)
    ensures Catalog.FindDatabaseTable(db, accepted.0).Some?
    ensures UniqueColumnsStayUnique(accepted.2, db.configuration.defaultSchema,
                                    Catalog.FindDatabaseTable(db, accepted.0).value, indexedValues)
  {
    AcceptedRowsPassUniqueness(db, name, columns, source, parsesAsFloat, indexedValues, accepted);
    var table := Catalog.FindDatabaseTable(db, accepted.0).value;
    PassingRowsAreUnique(accepted.2, db.configuration.defaultSchema, table, indexedValues);
  }

  /** The accepted rows passed the uniqueness checks against the default schema's indexes. */
  lemma AcceptedRowsPassUniqueness(db: Database, name: Ast.ObjectName, columns: seq<Ast.Ident>,
                                   source: Option<Ast.Query>, parsesAsFloat: string -> bool,
                                   indexedValues: (string, string, string) -> Result<seq<string>>,
                                   accepted: (string, seq<string>, seq<seq<InsertedRowColumn>>))
    requires ValidateInsertInto(db, name, columns, source, parsesAsFloat, indexedValues) == Ok(accepted)
    ensures Catalog.FindDatabaseTable(db, accepted.0).Some?
    ensures ValidateRowsConstraints(accepted.2, db.configuration.defaultSchema,
                                    Catalog.FindDatabaseTable(db, accepted.0).value, indexedValues).Pass?
  {
  }

  /**
    In every UNIQUE or PRIMARY KEY column of the table, the rows supply
    distinct values, none of which the schema's index already holds.
   */
  predicate UniqueColumnsStayUnique(rows: seq<seq<InsertedRowColumn>>, schemaName: string, table: TableSchema,
                                    indexedValues: (string, string, string) -> Result<seq<string>>) {
    forall j :: 0 <= j < |table.columns| && ColumnConstraints.IsUnique(table.columns[j]) ==>
      var existing := indexedValues(schemaName, table.name, table.columns[j].name);
      var inserted := InsertUtils.GetInsertedColumnValuesFromRows(rows, table.columns[j].name);
      && existing.Ok? && inserted.Ok?
      && Seqs.NoDuplicates(inserted.value)
      && forall e :: e in existing.value ==> e !in inserted.value
  }

  /** Rows that pass the uniqueness checks keep the unique columns unique. */
  lemma PassingRowsAreUnique(rows: seq<seq<InsertedRowColumn>>, schemaName: string, table: TableSchema,
                             indexedValues: (string, string, string) -> Result<seq<string>>)
    requires ValidateRowsConstraints(rows, schemaName, table, indexedValues).Pass?
    ensures UniqueColumnsStayUnique(rows, schemaName, table, indexedValues)
  {
    forall j | 0 <= j < |table.columns| && ColumnConstraints.IsUnique(table.columns[j])
      ensures var existing := indexedValues(schemaName, table.name, table.columns[j].name);
        var inserted := InsertUtils.GetInsertedColumnValuesFromRows(rows, table.columns[j].name);
        && existing.Ok? && inserted.Ok?
        && Seqs.NoDuplicates(inserted.value)
        && forall e :: e in existing.value ==> e !in inserted.value
    {
      assert CheckUniqueColumn(rows, schemaName, table, table.columns[j], indexedValues).Pass?;
    }
  }

  // A catalog whose default schema is "main", holding a table `t` with a
  // primary key `id`, and an index store in which "main" already holds id 1.

  const DemoId := Column("id", Integer, [PrimaryKey], true, 0)
  const DemoTable := TableSchema("t", [DemoId], [], [])
  const DemoDb := Database([Schema("main", [DemoTable], SchemaConfiguration(["t"]))], DatabaseConfiguration(["main"], "main"))
  const DemoName := Ast.ObjectName([Ast.Ident("t", Ast.Unquoted)])
  const DemoColumns := [Ast.Ident("id", Ast.Unquoted)]
  const DemoSource := Some(Ast.Query(Ast.ValuesBody([[Ast.Literal(Ast.Number("1"))]]), [], None))
  const DemoRows := [[InsertedRowColumn("id", "1")]]

  function DemoIndexed(schemaName: string, tableName: string, columnName: string): Result<seq<string>> {
    if schemaName == "main" then Ok(["1"]) else Ok([])
  }

  function NoFloats(s: string): bool { false }

  /** `INSERT INTO t (id) VALUES (1)` names the table `t` and yields the one cell `id = 1`. */
  lemma DemoInsertExtracts()
    ensures Catalog.FindDatabaseTable(DemoDb, "t") == Some(DemoTable)
    ensures IdentValues(DemoColumns) == ["id"]
    ensures InsertUtils.ExtractInsertedRows(DemoSource, ["id"]) == Ok(DemoRows)
    ensures InsertUtils.GetInsertedColumnValuesFromRows(DemoRows, "id") == Ok(["1"])
  {
    assert Catalog.FindDatabaseSchema(DemoDb, "main") == Some(DemoDb.schemas[0]);
    var row := DemoRows[0];
    var extracted := InsertUtils.ExtractRow([Ast.Literal(Ast.Number("1"))], ["id"]);
    assert extracted.Ok? && |extracted.value| == 1 && extracted.value[0] == row[0];
    assert extracted.value == row;
    var rows := InsertUtils.ExtractInsertedRows(DemoSource, ["id"]);
    assert rows.Ok? && |rows.value| == 1 && Ok(rows.value[0]) == extracted;
    assert rows.value == DemoRows;
    assert InsertUtils.FirstValueOf(row, "id") == Some("1");
    var values := InsertUtils.GetInsertedColumnValuesFromRows(DemoRows, "id");
    assert values.Ok? && |values.value| == 1 && values.value[0] == "1";
    assert values.value == ["1"];
  }

  /** The value 1 is an integer, so the type check passes. */
  lemma DemoTypesPass()
    ensures ColumnTypes.ValidateColumnTypes(DemoTable, DemoRows, NoFloats).Pass?
  {
    assert ColumnTypes.FindColumn(DemoTable, "id") == Some(DemoId);
    assert Numbers.ParseI64("1") == Some(1);
    assert ColumnTypes.CheckCell(DemoTable, DemoRows[0][0], NoFloats).Pass?;
  }

  /** Read from "schema_1" the index is empty and the duplicate passes; read from "main" it is caught. */
  lemma DemoUniquenessDependsOnSchema()
    ensures ValidateRowsConstraints(DemoRows, HardCodedSchema, DemoTable, DemoIndexed).Pass?
    ensures ValidateRowsConstraints(DemoRows, "main", DemoTable, DemoIndexed).Fail?
  {
    DemoInsertExtracts();
    assert ColumnConstraints.IsUnique(DemoId);
    assert CheckUniqueColumn(DemoRows, HardCodedSchema, DemoTable, DemoId, DemoIndexed).Pass?;
    assert CheckUniqueColumn(DemoRows, "main", DemoTable, DemoId, DemoIndexed).Fail?;
  }

  /**
    The hard-coded schema lets a duplicate through: `INSERT INTO t (id)
    VALUES (1)` is accepted as written although the default schema's index
    already holds id 1, and rejected once the default schema is read.
   */
  lemma HardCodedSchemaAcceptsDuplicate()
    ensures ValidateInsertIntoAsWritten(DemoDb, DemoName, DemoColumns, DemoSource, NoFloats, DemoIndexed).Ok?
    ensures ValidateInsertInto(DemoDb, DemoName, DemoColumns, DemoSource, NoFloats, DemoIndexed).Err?
  {
    DemoTableFound();
    DemoRowsPass();
    assert IdentValues(DemoColumns) == ["id"];
    var asWritten := ValidateInsertIntoReading(HardCodedSchema, DemoDb, DemoName, DemoColumns, DemoSource, NoFloats, DemoIndexed);
    assert asWritten.Ok?;
    var corrected := ValidateInsertIntoReading("main", DemoDb, DemoName, DemoColumns, DemoSource, NoFloats, DemoIndexed);
    assert corrected.Err?;
  }

  lemma DemoTableFound()
    ensures DemoName.parts[0].value == "t"
    ensures ValidationCommon.DoesTableExist(DemoDb, "t")
    ensures Catalog.FindDatabaseTable(DemoDb, "t") == Some(DemoTable)
  {
    DemoInsertExtracts();
    ValidationCommon.DoesTableExistAgreesWithFind(DemoDb, "t");
  }

  lemma DemoRowsPass()
    ensures ValidateRows(HardCodedSchema, DemoTable, ["id"], DemoSource, NoFloats, DemoIndexed) == Ok(DemoRows)
    ensures ValidateRows("main", DemoTable, ["id"], DemoSource, NoFloats, DemoIndexed).Err?
  {
    assert InsertUtils.ExtractInsertedRows(DemoSource, ["id"]) == Ok(DemoRows) by {
      DemoInsertExtracts();
    }
    assert ColumnTypes.ValidateColumnTypes(DemoTable, DemoRows, NoFloats).Pass? by {
      DemoTypesPass();
    }
    assert ValidateRowsConstraints(DemoRows, HardCodedSchema, DemoTable, DemoIndexed).Pass?
        && ValidateRowsConstraints(DemoRows, "main", DemoTable, DemoIndexed).Fail? by {
      DemoUniquenessDependsOnSchema();
    }
  }

  function AppendPasses(schemaName: string, tableName: string, records: seq<seq<string>>): Outcome { Pass }

  /**
    The statement as written appends the duplicate: `INSERT INTO t (id)
    VALUES (1)` answers `t` although the default schema's index already
    holds id 1; the corrected statement refuses it without writing.
   */
  lemma AsWrittenInsertAppendsDuplicate()
    ensures InsertIntoTable(Ok(DemoDb), DemoName, DemoColumns, DemoSource, NoFloats, DemoIndexed, AppendPasses) == Ok("t")
    ensures InsertIntoTableCorrected(Ok(DemoDb), DemoName, DemoColumns, DemoSource, NoFloats, DemoIndexed, AppendPasses).Err?
  {
    HardCodedSchemaAcceptsDuplicate();
    DemoTableFound();
  }
}
