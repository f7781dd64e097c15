/**
  The catalog records of the database (schemas, tables, columns,
  constraints, indexes) and the engine's error type.

  Offsets are unbounded naturals; the source stores them as `u64`.
 */
module Types {

  import opened Wrappers
  import Ast

  // ---------------------------------------------------------------------------
  // Catalog
  // ---------------------------------------------------------------------------

  datatype Database = Database(schemas: seq<Schema>, configuration: DatabaseConfiguration)

  datatype DatabaseConfiguration = DatabaseConfiguration(schemas: seq<string>, defaultSchema: string)

  datatype Schema = Schema(name: string, tables: seq<TableSchema>, configuration: SchemaConfiguration)

  datatype SchemaConfiguration = SchemaConfiguration(tables: seq<string>)

  /** A table: its columns in declaration order, its foreign keys and its (stored, never fired) triggers. */
  datatype TableSchema = TableSchema(name: string, columns: seq<Column>, foreignKeys: seq<ForeignKey>, triggers: seq<Trigger>)

  datatype Column = Column(name: string, dataType: DataType, constraints: seq<Constraint>, isIndexed: bool, order: nat)

  datatype DataType = Integer | Float | Text | Boolean

  datatype Constraint =
    | NotNull
    | Unique
    | PrimaryKey
    | DefaultValue(value: string)
    | ForeignKeyConstraint(foreignKey: ForeignKey)

  datatype ForeignKey = ForeignKey(
    name: string,
    localTable: string,
    localColumns: seq<string>,
    foreignTable: string,
    foreignColumns: seq<string>,
    onDelete: ReferentialAction,
    onUpdate: ReferentialAction)

  datatype ReferentialAction = Cascade | SetNull | NoAction | Restrict

  /** The index of one column: the byte offset of the column's value in every data row. */
  datatype Index = Index(key: string, offsets: seq<nat>)

  /** The row index: the start offset of every data row, followed by the end-of-file offset. */
  datatype RowsIndex = RowsIndex(rowOffsets: seq<nat>)

  /** One (column, literal) pair of a row that is being inserted or updated. */
  datatype InsertedRowColumn = InsertedRowColumn(name: string, value: string)

  // Triggers (metadata only)

  datatype TriggerPeriod = Before | After | InsteadOf

  datatype CustomIdent = CustomIdent(value: string, quoteStyle: Ast.QuoteStyle)

  datatype TriggerEvent = Insert | Update(columns: seq<CustomIdent>) | Delete | Truncate

  datatype TriggerExecBodyType = Function | Procedure

  datatype TriggerAction = TriggerAction(functionName: string)

  datatype Trigger = Trigger(
    name: string,
    tableName: string,
    period: TriggerPeriod,
    events: seq<TriggerEvent>,
    action: TriggerAction,
    execBodyType: TriggerExecBodyType)

  // Defaults

  /** The configuration of a database that has not been loaded yet. */
  function DefaultDatabaseConfiguration(): (c: DatabaseConfiguration)
    ensures c.schemas == [] && c.defaultSchema == "NONE"
  {
    DatabaseConfiguration([], "NONE")
  }

  /** The catalog before loading: no schemas. */
  function DefaultDatabase(): (db: Database)
    ensures db.schemas == [] && db.configuration.defaultSchema == "NONE"
  {
    Database([], DefaultDatabaseConfiguration())
  }

  // ---------------------------------------------------------------------------
  // Errors
  // ---------------------------------------------------------------------------

  /** The offending piece of syntax an `UnsupportedConstraint` error refers to. */
  datatype ConstraintSyntax =
    | DefaultExpression(expr: Ast.Expr)
    | ColumnOptionSyntax(option: Ast.ColumnOption)
    | TableConstraintSyntax(constraint: Ast.TableConstraint)

  /** Every error kind the modelled engine code raises. */
  datatype Error =
    // Missing
    | MissingTableName
    | MissingTriggerName
    // Not found
    | SchemaDoesNotExist(schemaName: string)
    | TableDoesNotExist(tableName: string)
    | ColumnDoesNotExist(columnName: string, tableName: string)
    // Conflict
    | TableNameAlreadyExists(tableName: string)
    // Constraint violations
    | ColumnNotNull(columnName: string)
    | ColumnUniquenessNotSatisfied(columnName: string, duplicate: Option<string>)
    | ColumnTypeDoesNotMatch(columnName: string)
    | ForeignKeyConstraintNotSatisfied(foreignKeyName: string)
    // Unsupported
    | GenericUnsupported
    | UnsupportedSelectClause
    | UnsupportedFilter
    | UnsupportedOperationType(operation: Ast.BinaryOperator)
    | UnsupportedValueType(literal: Ast.Value)
    | UnsupportedColumnDataType(columnName: string, columnType: Ast.SqlDataType)
    | UnsupportedConstraint(columnName: string, constraint: ConstraintSyntax)
    | NotSupportedUpdateTableOperation
    | InvalidLimit(limit: string)
    // I/O and serialization
    | IOError
    | SerdeJsonError
    | CsvError
    | FailedTableRead(tableName: string)
    | FailedTableWrite(tableName: string)
    | FailedDatabaseLoading

  /** The engine's `Result<T, Error>`. */
  datatype Result<+T> = Ok(value: T) | Err(error: Error) {
    predicate IsFailure() { Err? }

    function PropagateFailure<U>(): Result<U>
      requires Err?
    {
      Err(error)
    }

    function Extract(): T
      requires Ok?
    {
      value
    }
  }

  /** The source's `Result<(), Error>`. */
  datatype Outcome = Pass | Fail(error: Error) {
    predicate IsFailure() { Fail? }

    function PropagateFailure<U>(): Result<U>
      requires Fail?
    {
      Err(error)
    }
  }

  // Running a sequence of checks in order, stopping at the first failure.

  /** The outcomes in order, stopping at the first error, which is the answer. */
  function Collect<T>(results: seq<Result<T>>): (r: Result<seq<T>>)
    ensures r.Ok? <==> forall j :: 0 <= j < |results| ==> results[j].Ok?
    ensures r.Ok? ==> |r.value| == |results| && forall j :: 0 <= j < |results| ==> Ok(r.value[j]) == results[j]
    ensures r.Err? ==> exists j :: (0 <= j < |results| && results[j] == Err(r.error)
      && forall j' :: 0 <= j' < j ==> results[j'].Ok?)
  {
    if |results| == 0 then Ok([])
    else
      var first :- results[0];
      var rest := Collect(results[1..]);
      assert forall j :: 1 <= j < |results| ==> results[j] == results[1..][j - 1];
      if rest.Err? then
        var j :| 0 <= j < |results[1..]| && results[1..][j] == Err(rest.error)
          && forall j' :: 0 <= j' < j ==> results[1..][j'].Ok?;
        assert results[j + 1] == Err(rest.error);
        Err(rest.error)
      else
        Ok([first] + rest.value)
  }

  /** The outcomes in order: the first failure is the answer, else every one passed. */
  function FirstFailure(outcomes: seq<Outcome>): (r: Outcome)
    ensures r.Pass? <==> forall k :: 0 <= k < |outcomes| ==> outcomes[k].Pass?
    ensures r.Fail? ==> exists k :: (0 <= k < |outcomes| && outcomes[k] == r
      && forall k' :: 0 <= k' < k ==> outcomes[k'].Pass?)
  {
    if |outcomes| == 0 then Pass
    else if outcomes[0].Fail? then outcomes[0]
    else
      var rest := FirstFailure(outcomes[1..]);
      assert forall k :: 1 <= k < |outcomes| ==> outcomes[k] == outcomes[1..][k - 1];
      if rest.Fail? then
        var k :| 0 <= k < |outcomes[1..]| && outcomes[1..][k] == rest
          && forall k' :: 0 <= k' < k ==> outcomes[1..][k'].Pass?;
        assert outcomes[k + 1] == rest;
        rest
      else
        rest
  }

  /** Running two lists of checks in turn: the first list's failure, else the second list's outcome. */
  lemma {:induction false} FirstFailureAppend(a: seq<Outcome>, b: seq<Outcome>)
    ensures FirstFailure(a + b) == if FirstFailure(a).Fail? then FirstFailure(a) else FirstFailure(b)
  {
    if |a| == 0 {
      assert a + b == b;
    } else {
      assert (a + b)[1..] == a[1..] + b;
      FirstFailureAppend(a[1..], b);
    }
  }
}
