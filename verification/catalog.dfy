/**
  Catalog helpers (database/utils.rs): translating parsed column
  definitions into catalog columns, and looking schemas, tables and
  headers up in the in-memory catalog.
 */
module Catalog {

  import opened Wrappers
  import opened Types
  import Ast
  import Seqs
  import StableSort
  import OffsetCounter

  // ---------------------------------------------------------------------------
  // Column definitions
  // ---------------------------------------------------------------------------

  /** The parsed type a catalog type is declared with; a float column cannot be declared. */
  function SqlTypeOf(d: DataType): (t: Option<Ast.SqlDataType>)
    ensures t.None? <==> d == Float
  {
    match d
    case Integer => Some(Ast.Int)
    case Text => Some(Ast.Text)
    case Boolean => Some(Ast.Bool)
    case Float => None
  }

  /**
    `get_column_custom_data_type`: INT, TEXT and BOOL map to the catalog
    types; every other type, FLOAT included, is unsupported.
   */
  function GetColumnCustomDataType(t: Ast.SqlDataType, columnName: string): (r: Result<DataType>)
    ensures r.Ok? <==> t == Ast.Int || t == Ast.Text || t == Ast.Bool
    ensures r.Ok? ==> SqlTypeOf(r.value) == Some(t)
    ensures r.Err? ==> r.error == UnsupportedColumnDataType(columnName, t)
  {
    match t
    case Int => Ok(Integer)
    case Text => Ok(Text)
    case Bool => Ok(Boolean)
    case _ => Err(UnsupportedColumnDataType(columnName, t))
  }

  /** Every declarable catalog type is recovered from the type it is declared with. */
  lemma DataTypeRoundTrip(d: DataType, columnName: string)
    requires d != Float
    ensures GetColumnCustomDataType(SqlTypeOf(d).value, columnName) == Ok(d)
  {
  }

  /** The translation of one column option. */
  function ConstraintOf(option: Ast.ColumnOption, columnName: string): (r: Result<Constraint>)
    ensures r.Ok? ==> !r.value.ForeignKeyConstraint?
    ensures r.Err? ==> r.error.UnsupportedConstraint? && r.error.columnName == columnName
  {
    match option
    case NotNullOption => Ok(NotNull)
    case UniqueOption(isPrimary) => if isPrimary then Ok(PrimaryKey) else Ok(Unique)
    case DefaultOption(expr) =>
      (match expr
       case Literal(Number(n)) => Ok(DefaultValue(n))
       case Literal(SingleQuotedString(s)) => Ok(DefaultValue(s))
       case _ => Err(UnsupportedConstraint(columnName, DefaultExpression(expr))))
    case OtherColumnOption(_) => Err(UnsupportedConstraint(columnName, ColumnOptionSyntax(option)))
  }

  /** A column option that declares a constraint; foreign keys are table constraints and have none. */
  function OptionOf(c: Constraint): Option<Ast.ColumnOption> {
    match c
    case NotNull => Some(Ast.NotNullOption)
    case Unique => Some(Ast.UniqueOption(false))
    case PrimaryKey => Some(Ast.UniqueOption(true))
    case DefaultValue(v) => Some(Ast.DefaultOption(Ast.Literal(Ast.SingleQuotedString(v))))
    case ForeignKeyConstraint(_) => None
  }

  /** Every column constraint is recovered from the option that declares it. */
  lemma ConstraintRoundTrip(c: Constraint, columnName: string)
    requires !c.ForeignKeyConstraint?
    ensures OptionOf(c).Some? && ConstraintOf(OptionOf(c).value, columnName) == Ok(c)
  {
  }

  /**
    `get_column_custom_constraints`: the options translated one by one, in
    order; the first unsupported option aborts with its error.
   */
  function GetColumnCustomConstraints(options: seq<Ast.ColumnOption>, columnName: string): (r: Result<seq<Constraint>>)
    ensures r.Ok? <==> forall k :: 0 <= k < |options| ==> ConstraintOf(options[k], columnName).Ok?
    ensures r.Ok? ==> |r.value| == |options|
    ensures r.Ok? ==> forall k :: 0 <= k < |options| ==> r.value[k] == ConstraintOf(options[k], columnName).value
    ensures r.Err? ==> exists k :: (0 <= k < |options| && ConstraintOf(options[k], columnName) == Err(r.error)
      && forall i :: 0 <= i < k ==> ConstraintOf(options[i], columnName).Ok?)
  {
    if |options| == 0 then Ok([])
    else
      var first :- ConstraintOf(options[0], columnName);
      var rest := GetColumnCustomConstraints(options[1..], columnName);
      assert forall k :: 1 <= k < |options| ==> options[k] == options[1..][k - 1];
      if rest.Err? then
        var k :| 0 <= k < |options[1..]| && ConstraintOf(options[1..][k], columnName) == Err(rest.error)
          && forall i :: 0 <= i < k ==> ConstraintOf(options[1..][i], columnName).Ok?;
        assert forall i :: 0 <= i < k + 1 ==> ConstraintOf(options[i], columnName).Ok?;
        Err(rest.error)
      else
        Ok([first] + rest.value)
  }

  // ---------------------------------------------------------------------------
  // Lookup
  // ---------------------------------------------------------------------------

  /** `find_database_schema`: the first schema with the name. */
  function FindDatabaseSchema(db: Database, schemaName: string): (r: Option<Schema>)
    ensures r.None? <==> forall i :: 0 <= i < |db.schemas| ==> db.schemas[i].name != schemaName
    ensures r.Some? ==> exists i :: (0 <= i < |db.schemas| && db.schemas[i] == r.value
      && r.value.name == schemaName && forall i' :: 0 <= i' < i ==> db.schemas[i'].name != schemaName)
  {
    match Seqs.FirstIndex(db.schemas, (s: Schema) => s.name == schemaName)
    case None => None
    case Some(i) => Some(db.schemas[i])
  }

  /** The first table with the name. */
  function FindTable(tables: seq<TableSchema>, tableName: string): (r: Option<TableSchema>)
    ensures r.None? <==> forall i :: 0 <= i < |tables| ==> tables[i].name != tableName
    ensures r.Some? ==> exists i :: (0 <= i < |tables| && tables[i] == r.value
      && r.value.name == tableName && forall i' :: 0 <= i' < i ==> tables[i'].name != tableName)
  {
    match Seqs.FirstIndex(tables, (t: TableSchema) => t.name == tableName)
    case None => None
    case Some(i) => Some(tables[i])
  }

  /**
    `find_database_table`: only the default schema is searched (its first
    occurrence), and the first table with the name is returned.
   */
  function FindDatabaseTable(db: Database, tableName: string): (r: Option<TableSchema>)
    ensures r.Some? ==> r.value.name == tableName
    ensures FindDatabaseSchema(db, db.configuration.defaultSchema).None? ==> r.None?
    ensures FindDatabaseSchema(db, db.configuration.defaultSchema).Some? ==>
      r == FindTable(FindDatabaseSchema(db, db.configuration.defaultSchema).value.tables, tableName)
  {
    match FindDatabaseSchema(db, db.configuration.defaultSchema)
    case None => None
    case Some(schema) => FindTable(schema.tables, tableName)
  }

  /**
    Tables outside the default schema never count: two catalogs whose
    default schemas agree find the same tables.
   */
  lemma FindDatabaseTableOnlyDefaultSchema(db1: Database, db2: Database, tableName: string)
    requires FindDatabaseSchema(db1, db1.configuration.defaultSchema) == FindDatabaseSchema(db2, db2.configuration.defaultSchema)
    ensures FindDatabaseTable(db1, tableName) == FindDatabaseTable(db2, tableName)
  {
  }

  // ---------------------------------------------------------------------------
  // Headers
  // ---------------------------------------------------------------------------

  /** Columns compared by their `order` field. */
  function ByOrder(): (Column, Column) -> bool {
    (a: Column, b: Column) => a.order <= b.order
  }

  /** The columns sorted stably by `order`. */
  function ColumnsByOrder(columns: seq<Column>): (sorted: seq<Column>)
    ensures multiset(sorted) == multiset(columns)
  {
    StableSort.Sort(columns, ByOrder())
  }

  /** `get_headers_from_table_schema`: the column names, sorted by the columns' `order`. */
  function GetHeadersFromTableSchema(table: TableSchema): (headers: seq<string>)
    ensures |headers| == |table.columns|
  {
    OffsetCounter.ColumnNames(ColumnsByOrder(table.columns))
  }

  /**
    The headers are a permutation of the column names; they are the names
    of a rearrangement of the columns whose `order` values never decrease.
   */
  lemma HeadersSpec(table: TableSchema)
    ensures multiset(GetHeadersFromTableSchema(table)) == multiset(OffsetCounter.ColumnNames(table.columns))
    ensures var sorted := ColumnsByOrder(table.columns);
      && GetHeadersFromTableSchema(table) == OffsetCounter.ColumnNames(sorted)
      && forall i, j :: 0 <= i < j < |sorted| ==> sorted[i].order <= sorted[j].order
  {
    var sorted := ColumnsByOrder(table.columns);
    StableSort.SortIsSorted(table.columns, ByOrder());
    var name := (c: Column) => c.name;
    Seqs.MapPermutation(sorted, table.columns, name);
    assert OffsetCounter.ColumnNames(sorted) == Seqs.Map(sorted, name);
    assert OffsetCounter.ColumnNames(table.columns) == Seqs.Map(table.columns, name);
  }

  /** When every column's `order` is its declaration index, the headers are the names in declaration order. */
  lemma HeadersInDeclarationOrder(table: TableSchema)
    requires forall j :: 0 <= j < |table.columns| ==> table.columns[j].order == j
    ensures GetHeadersFromTableSchema(table) == OffsetCounter.ColumnNames(table.columns)
  {
    StableSort.SortOfSorted(table.columns, ByOrder());
  }
}
