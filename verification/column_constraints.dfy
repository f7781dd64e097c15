/**
  Constraint checks of inserted and updated values
  (validation/column_constraints.rs): NULL and DEFAULT completion, foreign
  keys, uniqueness, and the per-column loop whose lists are transposed
  back into rows.
 */
module ColumnConstraints {

  import opened Wrappers
  import opened Types
  import Seqs
  import InsertUtils
  import SharedUtils

  /**
    The stored values the checks read, which live in files and are
    therefore inputs: `foreignValues(schema, table, column)` is
    `read_column_values`, and `indexedValues(schema, table, column)` is the
    column's index read and resolved to values.
   */
  datatype Stores = Stores(
    foreignValues: (string, string, string) -> Result<seq<string>>,
    indexedValues: (string, string, string) -> Result<seq<string>>)

  // ---------------------------------------------------------------------------
  // NULL and DEFAULT
  // ---------------------------------------------------------------------------

  /** The value of the column's first DEFAULT constraint. */
  function DefaultOf(column: Column): (d: Option<string>)
    ensures d.None? <==> forall i :: 0 <= i < |column.constraints| ==> !column.constraints[i].DefaultValue?
    ensures d.Some? ==> exists i :: (0 <= i < |column.constraints| && column.constraints[i] == DefaultValue(d.value)
      && forall i' :: 0 <= i' < i ==> !column.constraints[i'].DefaultValue?)
  {
    match Seqs.FirstIndex(column.constraints, (c: Constraint) => c.DefaultValue?)
    case None => None
    case Some(i) => Some(column.constraints[i].value)
  }

  /**
    One value completed: a present value is kept; an absent one takes the
    default, else fails under NOT NULL, else becomes the text "Null".
   */
  function CompleteValue(column: Column, value: Option<string>): (r: Result<string>)
    ensures value.Some? ==> r == Ok(value.value)
    ensures r.Err? <==> value.None? && DefaultOf(column).None? && NotNull in column.constraints
    ensures r.Err? ==> r.error == ColumnNotNull(column.name)
    ensures r.Ok? && value.None? ==> r.value == (if DefaultOf(column).Some? then DefaultOf(column).value else "Null")
  {
    match value
    case Some(v) => Ok(v)
    case None =>
      match DefaultOf(column)
      case Some(d) => Ok(d)
      case None => if NotNull in column.constraints then Err(ColumnNotNull(column.name)) else Ok("Null")
  }

  /**
    `validate_null_and_default_constraints`: the values completed one by
    one, in order; the first absent value that cannot be completed fails.
   */
  function ValidateNullAndDefault(column: Column, values: seq<Option<string>>): (r: Result<seq<string>>)
    ensures r.Ok? <==> forall k :: 0 <= k < |values| ==> CompleteValue(column, values[k]).Ok?
    ensures r.Err? ==> r.error == ColumnNotNull(column.name)
    ensures r.Ok? ==> |r.value| == |values| && forall k :: 0 <= k < |values| ==> Ok(r.value[k]) == CompleteValue(column, values[k])
  {
    if |values| == 0 then Ok([])
    else
      var first :- CompleteValue(column, values[0]);
      var rest :- ValidateNullAndDefault(column, values[1..]);
      assert forall k :: 1 <= k < |values| ==> values[k] == values[1..][k - 1];
      Ok([first] + rest)
  }

  /** Completion is needed only once: completed values, offered again, come back unchanged. */
  lemma CompletionIsIdempotent(column: Column, values: seq<Option<string>>)
    requires ValidateNullAndDefault(column, values).Ok?
    ensures var completed := ValidateNullAndDefault(column, values).value;
      ValidateNullAndDefault(column, seq(|completed|, k requires 0 <= k < |completed| => Some(completed[k]))) == Ok(completed)
  {
    var completed := ValidateNullAndDefault(column, values).value;
    var again := seq(|completed|, k requires 0 <= k < |completed| => Some(completed[k]));
    var r := ValidateNullAndDefault(column, again);
    assert r.Ok?;
    assert |r.value| == |completed|;
    forall k | 0 <= k < |completed|
      ensures r.value[k] == completed[k]
    {
      assert Ok(r.value[k]) == CompleteValue(column, again[k]);
    }
    assert r.value == completed;
  }

  /** `filter_map(|x| x)`: the present values, in order. */
  function PresentValues(values: seq<Option<string>>): (r: seq<string>)
    ensures |r| <= |values|
    ensures forall v :: v in r <==> Some(v) in values
  {
    if |values| == 0 then []
    else
      var rest := PresentValues(values[1..]);
      assert forall k :: 1 <= k < |values| ==> values[k] == values[1..][k - 1];
      assert forall v :: Some(v) in values <==> values[0] == Some(v) || Some(v) in values[1..];
      if values[0].Some? then [values[0].value] + rest else rest
  }

  /** When every value is present, passing the present values through is completion. */
  lemma {:induction false} PresentValuesOfFullColumn(column: Column, values: seq<Option<string>>)
    requires forall k :: 0 <= k < |values| ==> values[k].Some?
    ensures ValidateNullAndDefault(column, values) == Ok(PresentValues(values))
  {
    if |values| > 0 {
      PresentValuesOfFullColumn(column, values[1..]);
    }
  }

  // ---------------------------------------------------------------------------
  // Foreign keys
  // ---------------------------------------------------------------------------

  /** The first foreign key that lists the column among its local columns. */
  function ForeignKeyOf(table: TableSchema, columnName: string): (r: Option<ForeignKey>)
    ensures r.None? <==> forall i :: 0 <= i < |table.foreignKeys| ==> columnName !in table.foreignKeys[i].localColumns
    ensures r.Some? ==> exists i :: (0 <= i < |table.foreignKeys| && table.foreignKeys[i] == r.value
      && columnName in r.value.localColumns && forall i' :: 0 <= i' < i ==> columnName !in table.foreignKeys[i'].localColumns)
  {
    match Seqs.FirstIndex(table.foreignKeys, (fk: ForeignKey) => columnName in fk.localColumns)
    case None => None
    case Some(i) => Some(table.foreignKeys[i])
  }

  /** Every value occurs among the foreign values. */
  predicate AllAmong(values: seq<string>, foreign: seq<string>) {
    forall v :: v in values ==> v in foreign
  }

  /**
    The foreign columns checked in order: each is read (a read error
    aborts) and must contain every value.
   */
  function CheckForeignColumns(fk: ForeignKey, foreignColumns: seq<string>, schemaName: string, values: seq<string>, stores: Stores): (r: Outcome)
    ensures r.Pass? <==> forall c :: 0 <= c < |foreignColumns| ==>
      var read := stores.foreignValues(schemaName, fk.foreignTable, foreignColumns[c]);
      read.Ok? && AllAmong(values, read.value)
    ensures r.Fail? ==> (r.error == ForeignKeyConstraintNotSatisfied(fk.name)
      || exists c :: 0 <= c < |foreignColumns| && stores.foreignValues(schemaName, fk.foreignTable, foreignColumns[c]) == Err(r.error))
  {
    if |foreignColumns| == 0 then Pass
    else
      match stores.foreignValues(schemaName, fk.foreignTable, foreignColumns[0])
      case Err(e) => Fail(e)
      case Ok(foreign) =>
        if !AllAmong(values, foreign) then Fail(ForeignKeyConstraintNotSatisfied(fk.name))
        else
          var rest := CheckForeignColumns(fk, foreignColumns[1..], schemaName, values, stores);
          assert forall c :: 1 <= c < |foreignColumns| ==> foreignColumns[c] == foreignColumns[1..][c - 1];
          rest
  }

  /**
    `validate_foreign_key_constraint`: a column under a foreign key may
    only take values present in every referenced column; a column under
    none passes.
   */
  function ValidateForeignKey(column: Column, schemaName: string, table: TableSchema, values: seq<string>, stores: Stores): (r: Outcome)
    ensures ForeignKeyOf(table, column.name).None? ==> r.Pass?
    ensures ForeignKeyOf(table, column.name).Some? ==>
      var fk := ForeignKeyOf(table, column.name).value;
      (r.Pass? <==> forall c :: 0 <= c < |fk.foreignColumns| ==>
        var read := stores.foreignValues(schemaName, fk.foreignTable, fk.foreignColumns[c]);
        read.Ok? && AllAmong(values, read.value))
  {
    match ForeignKeyOf(table, column.name)
    case None => Pass
    case Some(fk) => CheckForeignColumns(fk, fk.foreignColumns, schemaName, values, stores)
  }

  // ---------------------------------------------------------------------------
  // Uniqueness
  // ---------------------------------------------------------------------------

  /** Whether the column carries UNIQUE or PRIMARY KEY. */
  predicate IsUnique(column: Column) {
    Unique in column.constraints || PrimaryKey in column.constraints
  }

  /**
    The value at which inserting into a set first fails: the first value
    that repeats an earlier one.
   */
  function FirstRepeat(values: seq<string>): (r: Option<string>)
    ensures r.None? <==> Seqs.NoDuplicates(values)
    ensures r.Some? ==> exists k :: (0 <= k < |values| && values[k] == r.value && r.value in values[..k]
      && Seqs.NoDuplicates(values[..k]))
  {
    if |values| == 0 then None
    else
      var init := values[..|values| - 1];
      var last := values[|values| - 1];
      match FirstRepeat(init)
      case Some(v) =>
        var k :| 0 <= k < |init| && init[k] == v && v in init[..k] && Seqs.NoDuplicates(init[..k]);
        assert init[..k] == values[..k];
        Some(v)
      case None =>
        if last in init then
          assert values[..|values| - 1] == init;
          Some(last)
        else
          assert forall i :: 0 <= i < |values| - 1 ==> values[i] == init[i];
          None
  }

  /** The first existing value that also occurs among the values. */
  function FirstClash(existing: seq<string>, values: seq<string>): (r: Option<string>)
    ensures r.None? <==> forall e :: e in existing ==> e !in values
    ensures r.Some? ==> r.value in existing && r.value in values
  {
    match Seqs.FirstIndex(existing, (e: string) => e in values)
    case None => None
    case Some(i) => Some(existing[i])
  }

  /**
    `validate_uniqueness_constraint`: for a UNIQUE or PRIMARY KEY column
    the existing values are read (a read error aborts); the values may not
    repeat among themselves, nor meet an existing value; the error names
    the offending value.
   */
  function ValidateUniqueness(column: Column, schemaName: string, table: TableSchema, values: seq<string>, stores: Stores): (r: Outcome)
    ensures !IsUnique(column) ==> r.Pass?
    ensures IsUnique(column) ==>
      var existing := stores.indexedValues(schemaName, table.name, column.name);
      (r.Pass? <==> existing.Ok? && Seqs.NoDuplicates(values) && forall e :: e in existing.value ==> e !in values)
    ensures IsUnique(column) && stores.indexedValues(schemaName, table.name, column.name).Err? ==>
      r == Fail(stores.indexedValues(schemaName, table.name, column.name).error)
    ensures IsUnique(column) && stores.indexedValues(schemaName, table.name, column.name).Ok? && r.Fail? ==>
      r.error.ColumnUniquenessNotSatisfied? && r.error.columnName == column.name && r.error.duplicate.Some?
      && r.error.duplicate.value in values
  {
    if !IsUnique(column) then Pass
    else
      match stores.indexedValues(schemaName, table.name, column.name)
      case Err(e) => Fail(e)
      case Ok(existing) =>
        match FirstRepeat(values)
        case Some(v) => Fail(ColumnUniquenessNotSatisfied(column.name, Some(v)))
        case None =>
          match FirstClash(existing, values)
          case Some(e) => Fail(ColumnUniquenessNotSatisfied(column.name, Some(e)))
          case None => Pass
  }

  // ---------------------------------------------------------------------------
  // All columns
  // ---------------------------------------------------------------------------

  /** The named cells of one column's values. */
  function Cells(name: string, values: seq<string>): (cells: seq<InsertedRowColumn>)
    ensures |cells| == |values|
    ensures forall k :: 0 <= k < |values| ==> cells[k] == InsertedRowColumn(name, values[k])
  {
    seq(|values|, k requires 0 <= k < |values| => InsertedRowColumn(name, values[k]))
  }

  /** The values one column contributes: completed, or only the present ones. */
  function ColumnValues(rows: seq<seq<InsertedRowColumn>>, column: Column, complete: bool): (r: Result<seq<string>>)
    ensures complete ==> r == ValidateNullAndDefault(column, InsertUtils.ColumnValuesOf(rows, column.name))
    ensures !complete ==> r == Ok(PresentValues(InsertUtils.ColumnValuesOf(rows, column.name)))
  {
    var raw := InsertUtils.ColumnValuesOf(rows, column.name);
    if complete then ValidateNullAndDefault(column, raw) else Ok(PresentValues(raw))
  }

  /** One pass of the loop: the column's values, checked against its foreign key and uniqueness, as named cells. */
  function CheckColumn(rows: seq<seq<InsertedRowColumn>>, schemaName: string, table: TableSchema, complete: bool,
                       column: Column, stores: Stores): (r: Result<seq<InsertedRowColumn>>)
    ensures r.Ok? <==> (ColumnValues(rows, column, complete).Ok?
      && ValidateForeignKey(column, schemaName, table, ColumnValues(rows, column, complete).value, stores).Pass?
      && ValidateUniqueness(column, schemaName, table, ColumnValues(rows, column, complete).value, stores).Pass?)
    ensures r.Ok? ==> r.value == Cells(column.name, ColumnValues(rows, column, complete).value)
  {
    var values :- ColumnValues(rows, column, complete);
    var foreign := ValidateForeignKey(column, schemaName, table, values, stores);
    if foreign.Fail? then Err(foreign.error)
    else
      var unique := ValidateUniqueness(column, schemaName, table, values, stores);
      if unique.Fail? then Err(unique.error)
      else Ok(Cells(column.name, values))
  }

  /** Every column's outcome, in schema order. */
  function ColumnResults(rows: seq<seq<InsertedRowColumn>>, schemaName: string, table: TableSchema, complete: bool,
                         columns: seq<Column>, stores: Stores): (results: seq<Result<seq<InsertedRowColumn>>>)
    ensures |results| == |columns|
    ensures forall j :: 0 <= j < |columns| ==> results[j] == CheckColumn(rows, schemaName, table, complete, columns[j], stores)
  {
    seq(|columns|, j requires 0 <= j < |columns| => CheckColumn(rows, schemaName, table, complete, columns[j], stores))
  }

  /** The loop over the columns, in schema order; the first failing column aborts. */
  function CheckColumns(rows: seq<seq<InsertedRowColumn>>, schemaName: string, table: TableSchema, complete: bool,
                        columns: seq<Column>, stores: Stores): (r: Result<seq<seq<InsertedRowColumn>>>)
    ensures r.Ok? <==> forall j :: 0 <= j < |columns| ==> CheckColumn(rows, schemaName, table, complete, columns[j], stores).Ok?
    ensures r.Ok? ==> |r.value| == |columns|
    ensures r.Ok? ==> forall j :: 0 <= j < |columns| ==> Ok(r.value[j]) == CheckColumn(rows, schemaName, table, complete, columns[j], stores)
    ensures r.Err? ==> exists j :: (0 <= j < |columns| && CheckColumn(rows, schemaName, table, complete, columns[j], stores) == Err(r.error)
      && forall j' :: 0 <= j' < j ==> CheckColumn(rows, schemaName, table, complete, columns[j'], stores).Ok?)
  {
    Collect(ColumnResults(rows, schemaName, table, complete, columns, stores))
  }

  /** A completed column has one value per row; an uncompleted one of a single row has at most one. */
  lemma ColumnListLengths(rows: seq<seq<InsertedRowColumn>>, schemaName: string, table: TableSchema, complete: bool,
                          columns: seq<Column>, stores: Stores)
    requires CheckColumns(rows, schemaName, table, complete, columns, stores).Ok?
    ensures var lists := CheckColumns(rows, schemaName, table, complete, columns, stores).value;
      forall j :: 0 <= j < |lists| ==> (if complete then |lists[j]| == |rows| else |lists[j]| <= |rows|)
  {
  }

  /**
    `validate_column_constraints`: every column of the table, in schema
    order, is completed (or reduced to its present values), checked
    against its foreign key and uniqueness, and the per-column lists are
    transposed back into rows. Only a single row may be left uncompleted,
    since lists of unequal length could not be transposed.
   */
  function ValidateColumnConstraints(rows: seq<seq<InsertedRowColumn>>, schemaName: string, table: TableSchema,
                                     complete: bool, stores: Stores): (r: Result<seq<seq<InsertedRowColumn>>>)
    requires complete || |rows| <= 1
    ensures r.Ok? <==> CheckColumns(rows, schemaName, table, complete, table.columns, stores).Ok?
    ensures r.Err? ==> exists j :: (0 <= j < |table.columns|
      && CheckColumn(rows, schemaName, table, complete, table.columns[j], stores) == Err(r.error)
      && forall j' :: 0 <= j' < j ==> CheckColumn(rows, schemaName, table, complete, table.columns[j'], stores).Ok?)
  {
    var lists :- CheckColumns(rows, schemaName, table, complete, table.columns, stores);
    ColumnListLengths(rows, schemaName, table, complete, table.columns, stores);
    Ok(SharedUtils.Transposed(lists))
  }

  /**
    The completed rows: with completion, a non-empty batch over a table
    with columns comes back as one row per inserted row, holding every
    column of the table in schema order with the row's completed value.
   */
  lemma CompletedRowsHoldEveryColumn(rows: seq<seq<InsertedRowColumn>>, schemaName: string, table: TableSchema, stores: Stores)
    requires |rows| > 0 && |table.columns| > 0
    requires ValidateColumnConstraints(rows, schemaName, table, true, stores).Ok?
    ensures var completed := ValidateColumnConstraints(rows, schemaName, table, true, stores).value;
      && |completed| == |rows|
      && (forall k :: 0 <= k < |rows| ==> |completed[k]| == |table.columns|)
      && forall k, j :: 0 <= k < |rows| && 0 <= j < |table.columns| ==>
           var column := table.columns[j];
           var value := CompleteValue(column, InsertUtils.FirstValueOf(rows[k], column.name));
           value.Ok? && completed[k][j] == InsertedRowColumn(column.name, value.value)
  {
    var lists := CheckColumns(rows, schemaName, table, true, table.columns, stores).value;
    ColumnListLengths(rows, schemaName, table, true, table.columns, stores);
    var completed := SharedUtils.Transposed(lists);
    forall k, j | 0 <= k < |rows| && 0 <= j < |table.columns|
      ensures var column := table.columns[j];
        var value := CompleteValue(column, InsertUtils.FirstValueOf(rows[k], column.name));
        value.Ok? && completed[k][j] == InsertedRowColumn(column.name, value.value)
    {
      var column := table.columns[j];
      var values := ValidateNullAndDefault(column, InsertUtils.ColumnValuesOf(rows, column.name)).value;
      assert Ok(lists[j]) == CheckColumn(rows, schemaName, table, true, column, stores);
      assert lists[j] == Cells(column.name, values);
      assert Ok(values[k]) == CompleteValue(column, InsertUtils.ColumnValuesOf(rows, column.name)[k]);
    }
  }
}
