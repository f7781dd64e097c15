/**
  CREATE TABLE (create/create_table.rs): the table schema built from the
  column definitions, the first line of the new data file, and the empty
  indexes. Creating the directories and writing the files is not part of
  this model; the file contents are.
 */
module CreateTable {

  import opened Wrappers
  import opened Types
  import opened Bytes
  import Ast
  import Seqs
  import Catalog
  import ValidationCommon
  import IndexManager
  import OffsetCounter
  import DataFile
  import IndexReader

  /**
    One column of the new table: its type and constraints converted, its
    index flag set by `index_strategy`, and its position in the statement
    as its order.
   */
  function ColumnFromDef(def: Ast.ColumnDef, order: nat): (r: Result<Column>)
    ensures r.Ok? <==> (Catalog.GetColumnCustomDataType(def.dataType, def.name.value).Ok?
                        && Catalog.GetColumnCustomConstraints(def.options, def.name.value).Ok?)
    ensures Catalog.GetColumnCustomDataType(def.dataType, def.name.value).Err? ==>
      r == Err(Catalog.GetColumnCustomDataType(def.dataType, def.name.value).error)
    ensures r.Ok? ==>
      && r.value.name == def.name.value
      && Catalog.SqlTypeOf(r.value.dataType) == Some(def.dataType)
      && Ok(r.value.constraints) == Catalog.GetColumnCustomConstraints(def.options, def.name.value)
      && (r.value.isIndexed <==> PrimaryKey in r.value.constraints || Unique in r.value.constraints)
      && r.value.order == order
  {
    var dataType :- Catalog.GetColumnCustomDataType(def.dataType, def.name.value);
    var constraints :- Catalog.GetColumnCustomConstraints(def.options, def.name.value);
    Ok(Column(def.name.value, dataType, constraints, IndexManager.IndexStrategy(constraints), order))
  }

  /** Each definition's column, numbered from `start` in order. */
  function DefResults(defs: seq<Ast.ColumnDef>, start: nat): (results: seq<Result<Column>>)
    ensures |results| == |defs|
    ensures forall k :: 0 <= k < |defs| ==> results[k] == ColumnFromDef(defs[k], start + k)
  {
    seq(|defs|, k requires 0 <= k < |defs| => ColumnFromDef(defs[k], start + k))
  }

  /** The columns of the definitions from position `start` on; the first unsupported type or constraint aborts. */
  function ColumnsFromDefs(defs: seq<Ast.ColumnDef>, start: nat): (r: Result<seq<Column>>)
    ensures r.Ok? <==> forall k :: 0 <= k < |defs| ==> ColumnFromDef(defs[k], start + k).Ok?
    ensures r.Err? ==> exists k :: (0 <= k < |defs| && ColumnFromDef(defs[k], start + k) == Err(r.error)
      && forall k' :: 0 <= k' < k ==> ColumnFromDef(defs[k'], start + k').Ok?)
    ensures r.Ok? ==> |r.value| == |defs| && forall k :: 0 <= k < |defs| ==> Ok(r.value[k]) == ColumnFromDef(defs[k], start + k)
  {
    Collect(DefResults(defs, start))
  }

  /**
    `validate_create_table`: the statement must name a table that the
    default schema does not hold yet; the schema has one column per
    definition, in order, and no foreign keys or triggers.
   */
  function ValidateCreateTable(db: Database, name: Ast.ObjectName, defs: seq<Ast.ColumnDef>): (r: Result<TableSchema>)
    ensures |name.parts| == 0 ==> r == Err(MissingTableName)
    ensures |name.parts| > 0 && ValidationCommon.DoesTableExist(db, name.parts[0].value) ==>
      r == Err(TableNameAlreadyExists(name.parts[0].value))
    ensures |name.parts| > 0 && !ValidationCommon.DoesTableExist(db, name.parts[0].value) ==>
      (r.Ok? <==> ColumnsFromDefs(defs, 0).Ok?)
    ensures r.Ok? ==>
      && r.value.name == name.parts[0].value
      && Catalog.FindDatabaseTable(db, r.value.name).None?
      && Ok(r.value.columns) == ColumnsFromDefs(defs, 0)
      && r.value.foreignKeys == [] && r.value.triggers == []
  {
    if |name.parts| == 0 then Err(MissingTableName)
    else
      var tableName := name.parts[0].value;
      ValidationCommon.DoesTableExistAgreesWithFind(db, tableName);
      if ValidationCommon.DoesTableExist(db, tableName) then Err(TableNameAlreadyExists(tableName))
      else
        var columns :- ColumnsFromDefs(defs, 0);
        Ok(TableSchema(tableName, columns, [], []))
  }

  /**
    A created table is what the statement declared: column `k` is named by
    definition `k`, has its type and its `order` is `k`; so its headers are
    the declared names in declaration order, and its indexes are exactly
    those of its PRIMARY KEY and UNIQUE columns.
   */
  lemma CreatedTableFollowsDeclaration(db: Database, name: Ast.ObjectName, defs: seq<Ast.ColumnDef>)
    requires ValidateCreateTable(db, name, defs).Ok?
    ensures var table := ValidateCreateTable(db, name, defs).value;
      && |table.columns| == |defs|
      && (forall k :: 0 <= k < |defs| ==> table.columns[k].name == defs[k].name.value && table.columns[k].order == k)
      && (forall k :: 0 <= k < |defs| ==> Catalog.SqlTypeOf(table.columns[k].dataType) == Some(defs[k].dataType))
      && Catalog.GetHeadersFromTableSchema(table) == Seqs.Map(defs, (d: Ast.ColumnDef) => d.name.value)
      && forall c :: c in IndexManager.CreateIndexes(table).columns <==>
           exists k :: 0 <= k < |defs| && table.columns[k].isIndexed && table.columns[k].name == c
  {
    var table := ValidateCreateTable(db, name, defs).value;
    forall k | 0 <= k < |defs|
      ensures table.columns[k].name == defs[k].name.value && table.columns[k].order == k
      ensures Catalog.SqlTypeOf(table.columns[k].dataType) == Some(defs[k].dataType)
      ensures table.columns[k].isIndexed == IndexManager.IndexStrategy(table.columns[k].constraints)
    {
      assert Ok(table.columns[k]) == ColumnFromDef(defs[k], k);
    }
    Catalog.HeadersInDeclarationOrder(table);
    var declared := Seqs.Map(defs, (d: Ast.ColumnDef) => d.name.value);
    assert OffsetCounter.ColumnNames(table.columns) == declared;
  }

  /**
    The statement `CREATE TABLE test_create_table (id INT PRIMARY KEY,
    username INT UNIQUE NOT NULL, age INT)` on a database without that
    table gives the schema the repository's own test expects: three integer
    columns in order 0, 1, 2, the first two indexed.
   */
  lemma CreateTableExample(db: Database)
    requires !ValidationCommon.DoesTableExist(db, "test_create_table")
    ensures var name := Ast.ObjectName([Ast.Ident("test_create_table", Ast.Unquoted)]);
      var defs := [
        Ast.ColumnDef(Ast.Ident("id", Ast.Unquoted), Ast.Int, [Ast.UniqueOption(true)]),
        Ast.ColumnDef(Ast.Ident("username", Ast.Unquoted), Ast.Int, [Ast.UniqueOption(false), Ast.NotNullOption]),
        Ast.ColumnDef(Ast.Ident("age", Ast.Unquoted), Ast.Int, [])];
      ValidateCreateTable(db, name, defs) == Ok(TableSchema("test_create_table", [
        Column("id", Integer, [PrimaryKey], true, 0),
        Column("username", Integer, [Unique, NotNull], true, 1),
        Column("age", Integer, [], false, 2)], [], []))
  {
    var id := Ast.ColumnDef(Ast.Ident("id", Ast.Unquoted), Ast.Int, [Ast.UniqueOption(true)]);
    var username := Ast.ColumnDef(Ast.Ident("username", Ast.Unquoted), Ast.Int, [Ast.UniqueOption(false), Ast.NotNullOption]);
    var age := Ast.ColumnDef(Ast.Ident("age", Ast.Unquoted), Ast.Int, []);
    var defs := [id, username, age];
    var idConstraints := Catalog.GetColumnCustomConstraints(id.options, "id");
    assert Catalog.ConstraintOf(Ast.UniqueOption(true), "id") == Ok(PrimaryKey);
    assert idConstraints.Ok? && |idConstraints.value| == 1 && idConstraints.value[0] == PrimaryKey;
    assert idConstraints.value == [PrimaryKey];
    var usernameConstraints := Catalog.GetColumnCustomConstraints(username.options, "username");
    assert Catalog.ConstraintOf(Ast.UniqueOption(false), "username") == Ok(Unique);
    assert Catalog.ConstraintOf(Ast.NotNullOption, "username") == Ok(NotNull);
    assert usernameConstraints.Ok? && |usernameConstraints.value| == 2;
    assert usernameConstraints.value[0] == Unique && usernameConstraints.value[1] == NotNull;
    assert usernameConstraints.value == [Unique, NotNull];
    assert Catalog.GetColumnCustomConstraints(age.options, "age") == Ok([]);
    var expected := [
      Column("id", Integer, [PrimaryKey], true, 0),
      Column("username", Integer, [Unique, NotNull], true, 1),
      Column("age", Integer, [], false, 2)];
    assert ColumnFromDef(id, 0) == Ok(expected[0]);
    assert ColumnFromDef(username, 1) == Ok(expected[1]);
    assert ColumnFromDef(age, 2) == Ok(expected[2]);
    var columns := ColumnsFromDefs(defs, 0);
    assert columns.Ok? && |columns.value| == 3;
    assert columns.value[0] == expected[0] && columns.value[1] == expected[1] && columns.value[2] == expected[2];
    assert columns.value == expected;
    ValidationCommon.DoesTableExistAgreesWithFind(db, "test_create_table");
  }

  // ---------------------------------------------------------------------------
  // The first line of the data file
  // ---------------------------------------------------------------------------

  /** The header `create_table_files` writes: the comma-joined column names, with no line end. */
  function HeaderBytesAsWritten(table: TableSchema): (header: seq<byte>)
    ensures header == Utf8(Seqs.Join(OffsetCounter.ColumnNames(table.columns), ","))
    ensures |header| + 1 == OffsetCounter.ComputeHeadersOffset(table)
  {
    DataFile.JoinFieldsEncodesJoin(OffsetCounter.ColumnNames(table.columns));
    DataFile.JoinFields(OffsetCounter.ColumnNames(table.columns))
  }

  /** The header as the rest of the engine counts it: a complete line, the joined column names and a newline. */
  function HeaderBytes(table: TableSchema): (header: seq<byte>)
    ensures |header| == OffsetCounter.ComputeHeadersOffset(table)
    ensures header == HeaderBytesAsWritten(table) + [Newline]
  {
    DataFile.RowBytes(OffsetCounter.ColumnNames(table.columns))
  }

  /**
    With the corrected header, a new table's first rows read back: when
    plain rows are appended to the header, the offsets computed from the
    headers offset (where `create_indexes` anchors the row index) point at
    the rows' values.
   */
  lemma NewTableRoundTrip(table: TableSchema, rows: seq<seq<InsertedRowColumn>>, j: nat, k: nat)
    requires DataFile.PlainRows(OffsetCounter.TableValues(rows))
    requires forall r :: 0 <= r < |rows| ==> j < |rows[r]|
    requires k < |rows|
    ensures var offsets := OffsetCounter.ColumnOffsets(OffsetCounter.TableValues(rows), OffsetCounter.ComputeHeadersOffset(table), j);
      && k < |offsets|
      && IndexReader.ReadField(HeaderBytes(table) + DataFile.RowsBytes(OffsetCounter.TableValues(rows)), offsets[k]) == Utf8(rows[k][j].value)
  {
    OffsetCounter.ColumnOffsetRoundTrip(HeaderBytes(table), rows, j, k);
  }

  const IdOnly := TableSchema("t", [Column("id", Integer, [], false, 0)], [], [])

  /**
    The header as written loses the first inserted value: for a table with
    the single column `id`, the file after inserting the row `1` is
    `id1\n`; the headers offset says the row starts at byte 3, where the
    read finds the newline and returns nothing instead of `1`. With the
    line end, the file is `id\n1\n` and the read returns `1`.
   */
  lemma HeaderWithoutNewlineLosesFirstValue()
    ensures OffsetCounter.ComputeHeadersOffset(IdOnly) == 3
    ensures IndexReader.ReadField(HeaderBytesAsWritten(IdOnly) + DataFile.RowBytes(["1"]), 3) == []
    ensures IndexReader.ReadField(HeaderBytes(IdOnly) + DataFile.RowBytes(["1"]), 3) == Utf8("1")
  {
    var names := OffsetCounter.ColumnNames(IdOnly.columns);
    assert names == ["id"];
    assert Utf8("id") == [105, 100];
    assert Utf8("1") == [49];
    assert DataFile.JoinFields(names) == [105, 100];
    assert DataFile.RowBytes(["1"]) == [49, Newline];
    var asWritten := HeaderBytesAsWritten(IdOnly) + DataFile.RowBytes(["1"]);
    assert asWritten == [105, 100, 49, Newline];
    assert IndexReader.ReadField(asWritten, 3) == [];
    var corrected := HeaderBytes(IdOnly) + DataFile.RowBytes(["1"]);
    assert corrected == [105, 100, Newline, 49, Newline];
    assert IndexReader.ReadField(corrected, 4) == [];
    assert IndexReader.ReadField(corrected, 3) == [49];
  }
}
