/**
  Type checks of inserted and updated values (validation/column_types.rs;
  insert/insert_into.rs carries a copy of both functions).
 */
module ColumnTypes {

  import opened Wrappers
  import opened Types
  import Seqs
  import Numbers

  /** Whether a value is accepted by a column of the type; `parsesAsFloat` stands for Rust's `f64` parser. */
  predicate Accepts(dataType: DataType, value: string, parsesAsFloat: string -> bool) {
    match dataType
    case Integer => Numbers.ParseI64(value).Some?
    case Float => parsesAsFloat(value)
    case Text => true
    case Boolean => Numbers.ParseBool(value).Some?
  }

  /** `validate_value_type`: the value must parse as the column's type; text takes anything. */
  function ValidateValueType(column: Column, value: string, parsesAsFloat: string -> bool): (r: Outcome)
    ensures r.Pass? <==> Accepts(column.dataType, value, parsesAsFloat)
    ensures r.Fail? ==> r.error == ColumnTypeDoesNotMatch(column.name)
    ensures column.dataType == Text ==> r.Pass?
    ensures column.dataType == Boolean ==> (r.Pass? <==> value == "true" || value == "false")
    ensures column.dataType == Integer && r.Pass? ==> Numbers.I64Min <= Numbers.ParseI64(value).value <= Numbers.I64Max
  {
    if Accepts(column.dataType, value, parsesAsFloat) then Pass else Fail(ColumnTypeDoesNotMatch(column.name))
  }

  /** Values the engine renders itself are accepted by their own column type. */
  lemma RenderedValuesAreAccepted(column: Column, n: int, b: bool, parsesAsFloat: string -> bool)
    requires Numbers.I64Min <= n <= Numbers.I64Max
    ensures column.dataType == Integer ==> ValidateValueType(column, Numbers.IntToString(n), parsesAsFloat).Pass?
    ensures column.dataType == Boolean ==> ValidateValueType(column, Numbers.BoolToString(b), parsesAsFloat).Pass?
  {
    Numbers.ParseI64RoundTrip(n);
  }

  /** `columns.iter().find(|c| c.name == name)`: the first column with the name. */
  function FindColumn(table: TableSchema, name: string): (r: Option<Column>)
    ensures r.None? <==> forall i :: 0 <= i < |table.columns| ==> table.columns[i].name != name
    ensures r.Some? ==> exists i :: (0 <= i < |table.columns| && table.columns[i] == r.value
      && r.value.name == name && forall i' :: 0 <= i' < i ==> table.columns[i'].name != name)
  {
    match Seqs.FirstIndex(table.columns, (c: Column) => c.name == name)
    case None => None
    case Some(i) => Some(table.columns[i])
  }

  /** The check of one inserted cell: its column must exist and accept the value. */
  function CheckCell(table: TableSchema, cell: InsertedRowColumn, parsesAsFloat: string -> bool): (r: Outcome)
    ensures r.Pass? <==> FindColumn(table, cell.name).Some? && Accepts(FindColumn(table, cell.name).value.dataType, cell.value, parsesAsFloat)
    ensures FindColumn(table, cell.name).None? ==> r == Fail(ColumnDoesNotExist(cell.name, table.name))
    ensures FindColumn(table, cell.name).Some? && r.Fail? ==> r == Fail(ColumnTypeDoesNotMatch(cell.name))
  {
    match FindColumn(table, cell.name)
    case None => Fail(ColumnDoesNotExist(cell.name, table.name))
    case Some(column) => ValidateValueType(column, cell.value, parsesAsFloat)
  }

  /** The cells of the rows in row-major order. */
  function Flatten<T>(rows: seq<seq<T>>): (cells: seq<T>)
    ensures forall i, j :: 0 <= i < |rows| && 0 <= j < |rows[i]| ==> rows[i][j] in cells
    ensures forall c :: c in cells ==> exists i :: 0 <= i < |rows| && c in rows[i]
  {
    if |rows| == 0 then []
    else
      var rest := Flatten(rows[1..]);
      assert forall i :: 1 <= i < |rows| ==> rows[i] == rows[1..][i - 1];
      rows[0] + rest
  }

  /** Every cell's check, in order. */
  function CellOutcomes(table: TableSchema, cells: seq<InsertedRowColumn>, parsesAsFloat: string -> bool): (outcomes: seq<Outcome>)
    ensures |outcomes| == |cells|
    ensures forall k :: 0 <= k < |cells| ==> outcomes[k] == CheckCell(table, cells[k], parsesAsFloat)
  {
    seq(|cells|, k requires 0 <= k < |cells| => CheckCell(table, cells[k], parsesAsFloat))
  }

  /** The first failing cell decides; every cell passing is a pass. */
  function CheckCells(table: TableSchema, cells: seq<InsertedRowColumn>, parsesAsFloat: string -> bool): (r: Outcome)
    ensures r.Pass? <==> forall k :: 0 <= k < |cells| ==> CheckCell(table, cells[k], parsesAsFloat).Pass?
    ensures r.Fail? ==> exists k :: (0 <= k < |cells| && CheckCell(table, cells[k], parsesAsFloat) == r
      && forall k' :: 0 <= k' < k ==> CheckCell(table, cells[k'], parsesAsFloat).Pass?)
  {
    FirstFailure(CellOutcomes(table, cells, parsesAsFloat))
  }

  /**
    `validate_column_types`: every cell of every row must name a column of
    the table and hold a value of that column's type; the first failing
    cell in row-major order gives the error.
   */
  function ValidateColumnTypes(table: TableSchema, rows: seq<seq<InsertedRowColumn>>, parsesAsFloat: string -> bool): (r: Outcome)
    ensures r.Pass? <==> forall i, j {:trigger CheckCell(table, rows[i][j], parsesAsFloat)} :: 0 <= i < |rows| && 0 <= j < |rows[i]| ==>
      CheckCell(table, rows[i][j], parsesAsFloat).Pass?
    ensures r.Fail? ==> r.error.ColumnDoesNotExist? || r.error.ColumnTypeDoesNotMatch?
  {
    CheckCellsOfRows(table, rows, parsesAsFloat);
    CheckCells(table, Flatten(rows), parsesAsFloat)
  }

  /** The flattened check fails exactly when some cell of some row fails. */
  lemma CheckCellsOfRows(table: TableSchema, rows: seq<seq<InsertedRowColumn>>, parsesAsFloat: string -> bool)
    ensures CheckCells(table, Flatten(rows), parsesAsFloat).Pass? <==>
      forall i, j {:trigger CheckCell(table, rows[i][j], parsesAsFloat)} :: 0 <= i < |rows| && 0 <= j < |rows[i]| ==> CheckCell(table, rows[i][j], parsesAsFloat).Pass?
  {
    var cells := Flatten(rows);
    var r := CheckCells(table, cells, parsesAsFloat);
    if r.Pass? {
      forall i, j | 0 <= i < |rows| && 0 <= j < |rows[i]|
        ensures CheckCell(table, rows[i][j], parsesAsFloat).Pass?
      {
        var k :| 0 <= k < |cells| && cells[k] == rows[i][j];
      }
    } else {
      var k :| 0 <= k < |cells| && CheckCell(table, cells[k], parsesAsFloat) == r;
      assert cells[k] in cells;
      var i :| 0 <= i < |rows| && cells[k] in rows[i];
      var j :| 0 <= j < |rows[i]| && rows[i][j] == cells[k];
      assert CheckCell(table, rows[i][j], parsesAsFloat).Fail?;
    }
  }

  /** Row-major order: the rows of a concatenation are checked first to last. */
  lemma {:induction false} FlattenAppend<T>(a: seq<seq<T>>, b: seq<seq<T>>)
    ensures Flatten(a + b) == Flatten(a) + Flatten(b)
  {
    if |a| == 0 {
      assert a + b == b;
    } else {
      assert (a + b)[1..] == a[1..] + b;
      FlattenAppend(a[1..], b);
    }
  }

  /** Outcome k of a concatenation is outcome k of the half it falls in. */
  lemma CellOutcomeOfAppend(table: TableSchema, a: seq<InsertedRowColumn>, b: seq<InsertedRowColumn>, parsesAsFloat: string -> bool, k: nat)
    requires k < |a| + |b|
    ensures CellOutcomes(table, a + b, parsesAsFloat)[k]
      == if k < |a| then CellOutcomes(table, a, parsesAsFloat)[k] else CellOutcomes(table, b, parsesAsFloat)[k - |a|]
  {
    if k < |a| {
      assert (a + b)[k] == a[k];
    } else {
      assert (a + b)[k] == b[k - |a|];
    }
  }

  /** The outcomes of a concatenation are the outcomes of its halves, in order. */
  lemma CellOutcomesAppend(table: TableSchema, a: seq<InsertedRowColumn>, b: seq<InsertedRowColumn>, parsesAsFloat: string -> bool)
    ensures CellOutcomes(table, a + b, parsesAsFloat) == CellOutcomes(table, a, parsesAsFloat) + CellOutcomes(table, b, parsesAsFloat)
  {
    var outcomesA, outcomesB := CellOutcomes(table, a, parsesAsFloat), CellOutcomes(table, b, parsesAsFloat);
    var outcomes := CellOutcomes(table, a + b, parsesAsFloat);
    forall k | 0 <= k < |outcomes|
      ensures outcomes[k] == (outcomesA + outcomesB)[k]
    {
      CellOutcomeOfAppend(table, a, b, parsesAsFloat, k);
    }
  }

  /**
    Checking a batch is checking its rows in turn: the batch passes when
    both halves pass, and otherwise fails as the first failing half does.
   */
  lemma CheckCellsAppend(table: TableSchema, a: seq<InsertedRowColumn>, b: seq<InsertedRowColumn>, parsesAsFloat: string -> bool)
    ensures CheckCells(table, a + b, parsesAsFloat)
      == if CheckCells(table, a, parsesAsFloat).Fail? then CheckCells(table, a, parsesAsFloat) else CheckCells(table, b, parsesAsFloat)
  {
    CellOutcomesAppend(table, a, b, parsesAsFloat);
    FirstFailureAppend(CellOutcomes(table, a, parsesAsFloat), CellOutcomes(table, b, parsesAsFloat));
  }
}
