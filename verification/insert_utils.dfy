/**
  Turning the VALUES of an INSERT into named cells, and reading one
  column's values back out of them (insert/utils.rs).
 */
module InsertUtils {

  import opened Wrappers
  import opened Types
  import opened Ast
  import Seqs
  import Numbers

  /** `value_to_string`: numbers and strings verbatim, booleans as `true`/`false`, anything else empty. */
  function ValueToString(v: Value): (s: string)
    ensures v.Number? ==> s == v.digits
    ensures v.SingleQuotedString? ==> s == v.text
    ensures v.Boolean? ==> Numbers.ParseBool(s) == Some(v.b)
    ensures !v.Number? && !v.SingleQuotedString? && !v.Boolean? ==> s == ""
  {
    match v
    case Number(digits) => digits
    case SingleQuotedString(text) => text
    case Boolean(b) => Numbers.BoolToString(b)
    case _ => ""
  }

  /** The text stored for one VALUES item: a literal's text, or empty for any other expression. */
  function ExprToString(e: Expr): (s: string)
    ensures e.Literal? ==> s == ValueToString(e.value)
    ensures !e.Literal? ==> s == ""
  {
    if e.Literal? then ValueToString(e.value) else ""
  }

  /** One VALUES row: item `i` is named by `columnNames[i]`; an item without a name is unsupported. */
  function ExtractRow(row: seq<Expr>, columnNames: seq<string>): (r: Result<seq<InsertedRowColumn>>)
    ensures r.Err? <==> |row| > |columnNames|
    ensures r.Err? ==> r.error == GenericUnsupported
    ensures r.Ok? ==> |r.value| == |row|
    ensures r.Ok? ==> forall i :: 0 <= i < |row| ==> r.value[i] == InsertedRowColumn(columnNames[i], ExprToString(row[i]))
  {
    if |row| > |columnNames| then Err(GenericUnsupported)
    else Ok(seq(|row|, i requires 0 <= i < |row| => InsertedRowColumn(columnNames[i], ExprToString(row[i]))))
  }

  /** The rows of a VALUES body, in order; the first row with too many items aborts. */
  function ExtractRows(rows: seq<seq<Expr>>, columnNames: seq<string>): (r: Result<seq<seq<InsertedRowColumn>>>)
    ensures r.Ok? <==> forall k :: 0 <= k < |rows| ==> |rows[k]| <= |columnNames|
    ensures r.Err? ==> r.error == GenericUnsupported
    ensures r.Ok? ==> |r.value| == |rows| && forall k :: 0 <= k < |rows| ==> Ok(r.value[k]) == ExtractRow(rows[k], columnNames)
  {
    if |rows| == 0 then Ok([])
    else
      var first :- ExtractRow(rows[0], columnNames);
      var rest :- ExtractRows(rows[1..], columnNames);
      assert forall k :: 1 <= k < |rows| ==> rows[k] == rows[1..][k - 1];
      Ok([first] + rest)
  }

  /**
    `extract_inserted_rows`: the rows of a VALUES source; no source, or a
    source that is not a VALUES list, yields no rows.
   */
  function ExtractInsertedRows(source: Option<Query>, columnNames: seq<string>): (r: Result<seq<seq<InsertedRowColumn>>>)
    ensures source.None? || !source.value.body.ValuesBody? ==> r == Ok([])
    ensures source.Some? && source.value.body.ValuesBody? ==> r == ExtractRows(source.value.body.rows, columnNames)
  {
    if source.Some? && source.value.body.ValuesBody? then ExtractRows(source.value.body.rows, columnNames)
    else Ok([])
  }

  /** The value of the first cell of the row with the name. */
  function FirstValueOf(row: seq<InsertedRowColumn>, name: string): (v: Option<string>)
    ensures v.None? <==> forall i :: 0 <= i < |row| ==> row[i].name != name
    ensures v.Some? ==> exists i :: (0 <= i < |row| && row[i] == InsertedRowColumn(name, v.value)
      && forall i' :: 0 <= i' < i ==> row[i'].name != name)
  {
    match Seqs.FirstIndex(row, (c: InsertedRowColumn) => c.name == name)
    case None => None
    case Some(i) => Some(row[i].value)
  }

  /** One column's value per row, absent where the row does not name the column. */
  function ColumnValuesOf(rows: seq<seq<InsertedRowColumn>>, name: string): (values: seq<Option<string>>)
    ensures |values| == |rows|
    ensures forall k :: 0 <= k < |rows| ==> values[k] == FirstValueOf(rows[k], name)
  {
    seq(|rows|, k requires 0 <= k < |rows| => FirstValueOf(rows[k], name))
  }

  /**
    `get_inserted_column_values_from_rows`: one value per row, the first
    cell with the name; a row without such a cell is an error naming the
    column and an empty table.
   */
  function GetInsertedColumnValuesFromRows(rows: seq<seq<InsertedRowColumn>>, name: string): (r: Result<seq<string>>)
    ensures r.Ok? <==> forall k :: 0 <= k < |rows| ==> FirstValueOf(rows[k], name).Some?
    ensures r.Err? ==> r.error == ColumnDoesNotExist(name, "")
    ensures r.Ok? ==> |r.value| == |rows| && forall k :: 0 <= k < |rows| ==> Some(r.value[k]) == FirstValueOf(rows[k], name)
  {
    if |rows| == 0 then Ok([])
    else
      match FirstValueOf(rows[0], name)
      case None => Err(ColumnDoesNotExist(name, ""))
      case Some(v) =>
        var rest :- GetInsertedColumnValuesFromRows(rows[1..], name);
        assert forall k :: 1 <= k < |rows| ==> rows[k] == rows[1..][k - 1];
        Ok([v] + rest)
  }

  /** The two ways of reading a column agree: the strict one succeeds exactly when no row lacks the column. */
  lemma StrictValuesAgreeWithOptional(rows: seq<seq<InsertedRowColumn>>, name: string)
    ensures var strict := GetInsertedColumnValuesFromRows(rows, name);
      var optional := ColumnValuesOf(rows, name);
      && (strict.Ok? <==> None !in optional)
      && (strict.Ok? ==> forall k :: 0 <= k < |rows| ==> optional[k] == Some(strict.value[k]))
  {
    var optional := ColumnValuesOf(rows, name);
    if None in optional {
      var k :| 0 <= k < |optional| && optional[k] == None;
    }
  }

  /**
    Reading back what was extracted: when the column names are distinct
    and every row supplies all of them, column `c` reads as the text of
    item `c` of every row.
   */
  lemma ExtractedColumnReadsBack(rows: seq<seq<Expr>>, columnNames: seq<string>, c: nat)
    requires Seqs.NoDuplicates(columnNames)
    requires c < |columnNames|
    requires forall k :: 0 <= k < |rows| ==> |rows[k]| == |columnNames|
    ensures ExtractRows(rows, columnNames).Ok?
    ensures var values := GetInsertedColumnValuesFromRows(ExtractRows(rows, columnNames).value, columnNames[c]);
      && values.Ok?
      && |values.value| == |rows|
      && forall k :: 0 <= k < |rows| ==> values.value[k] == ExprToString(rows[k][c])
  {
    var extracted := ExtractRows(rows, columnNames).value;
    forall k | 0 <= k < |rows|
      ensures FirstValueOf(extracted[k], columnNames[c]) == Some(ExprToString(rows[k][c]))
    {
      var row := extracted[k];
      assert row[c] == InsertedRowColumn(columnNames[c], ExprToString(rows[k][c]));
      var v := FirstValueOf(row, columnNames[c]);
      assert v.Some?;
      var i :| 0 <= i < |row| && row[i] == InsertedRowColumn(columnNames[c], v.value)
        && forall i' :: 0 <= i' < i ==> row[i'].name != columnNames[c];
      assert columnNames[i] == columnNames[c];
      assert i == c;
    }
  }
}
