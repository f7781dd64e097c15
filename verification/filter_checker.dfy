/**
  Evaluation of a WHERE clause against one row (filter_checker.rs). A row
  is either a full data-file record, whose values are trimmed on access,
  or a restricted row assembled from column indexes, whose values are used
  as they are.
 */
module FilterChecker {

  import opened Wrappers
  import opened Types
  import opened Ast
  import Seqs

  /** The two row representations the filter is evaluated on. */
  datatype Row =
    | Record(fields: seq<string>)
    | Restricted(cells: seq<string>)

  /** Unicode White_Space, the set `str::trim` strips. */
  predicate IsWhitespace(c: char) {
    var cp := c as int;
    (0x09 <= cp <= 0x0D) || cp == 0x20 || cp == 0x85 || cp == 0xA0 || cp == 0x1680
    || (0x2000 <= cp <= 0x200A) || cp == 0x2028 || cp == 0x2029 || cp == 0x202F
    || cp == 0x205F || cp == 0x3000
  }

  /** The first position at or after `i` that holds no whitespace (or the end). */
  function SkipWhitespace(s: string, i: nat): (k: nat)
    requires i <= |s|
    ensures i <= k <= |s|
    ensures forall j :: i <= j < k ==> IsWhitespace(s[j])
    ensures k < |s| ==> !IsWhitespace(s[k])
    decreases |s| - i
  {
    if i < |s| && IsWhitespace(s[i]) then SkipWhitespace(s, i + 1) else i
  }

  /** The end of `s[lo..hi]` once its trailing whitespace is dropped. */
  function DropTrailingWhitespace(s: string, lo: nat, hi: nat): (k: nat)
    requires lo <= hi <= |s|
    ensures lo <= k <= hi
    ensures forall j :: k <= j < hi ==> IsWhitespace(s[j])
    ensures k > lo ==> !IsWhitespace(s[k - 1])
    decreases hi
  {
    if hi > lo && IsWhitespace(s[hi - 1]) then DropTrailingWhitespace(s, lo, hi - 1) else hi
  }

  /**
    `str::trim`: the infix left after dropping the leading and the trailing
    whitespace; it neither starts nor ends with whitespace.
   */
  function Trim(s: string): (t: string)
    ensures SkipWhitespace(s, 0) + |t| <= |s|
    ensures |t| > 0 ==> !IsWhitespace(t[0]) && !IsWhitespace(t[|t| - 1])
    ensures t == s[SkipWhitespace(s, 0)..SkipWhitespace(s, 0) + |t|]
    ensures forall j :: 0 <= j < SkipWhitespace(s, 0) ==> IsWhitespace(s[j])
    ensures forall j :: SkipWhitespace(s, 0) + |t| <= j < |s| ==> IsWhitespace(s[j])
    ensures |s| == 0 || (!IsWhitespace(s[0]) && !IsWhitespace(s[|s| - 1])) ==> t == s
  {
    var start := SkipWhitespace(s, 0);
    s[start..DropTrailingWhitespace(s, start, |s|)]
  }

  /**
    `get_value`: the value under the first header equal to `columnName`;
    none when no header matches or the row has no value at that position.
    A record's value is trimmed, a restricted row's is not.
   */
  function GetValue(row: Row, columnName: string, headers: seq<string>): (r: Option<string>)
    ensures r.None? <==> columnName !in headers || Seqs.IndexOf(headers, columnName).value >= |FieldsOf(row)|
    ensures r.Some? && row.Restricted? ==> r.value == row.cells[Seqs.IndexOf(headers, columnName).value]
    ensures r.Some? && row.Record? ==> r.value == Trim(row.fields[Seqs.IndexOf(headers, columnName).value])
  {
    match Seqs.IndexOf(headers, columnName)
    case None => None
    case Some(i) =>
      if i < |FieldsOf(row)| then
        Some(if row.Record? then Trim(row.fields[i]) else row.cells[i])
      else None
  }

  /** The raw values of a row, in position order. */
  function FieldsOf(row: Row): seq<string> {
    match row
    case Record(fields) => fields
    case Restricted(cells) => cells
  }

  /** `apply_filters`: no filter admits every row. */
  function ApplyFilters(row: Row, headers: seq<string>, filter: Option<Expr>): (r: Result<bool>)
    ensures filter.None? ==> r == Ok(true)
  {
    match filter
    case None => Ok(true)
    case Some(e) => Eval(row, headers, e)
  }

  /**
    The filter expression's value on a row. Both operands of AND and OR are
    always evaluated, left first, so an error in either surfaces even when
    the other decides the result.
   */
  function Eval(row: Row, headers: seq<string>, e: Expr): (r: Result<bool>)
    decreases e
  {
    match e
    case BinaryOp(left, op, right) =>
      (match op
       case And =>
         var a :- Eval(row, headers, left);
         var b :- Eval(row, headers, right);
         Ok(a && b)
       case Or =>
         var a :- Eval(row, headers, left);
         var b :- Eval(row, headers, right);
         Ok(a || b)
       case Eq => HandleEq(row, headers, left, right)
       case OtherOperator(_) => Err(UnsupportedOperationType(op)))
    case Nested(inner) => Eval(row, headers, inner)
    case _ => Err(UnsupportedSelectClause)
  }

  /**
    AND and OR evaluate both operands: the connective succeeds exactly when
    both operands do, so an error on the right surfaces even when the left
    already decides the verdict, and the verdict is the operands'
    conjunction or disjunction.
   */
  lemma EvalEvaluatesBothOperands(row: Row, headers: seq<string>, e: Expr)
    requires e.BinaryOp? && (e.op == And || e.op == Or)
    ensures Eval(row, headers, e).Ok? <==> Eval(row, headers, e.left).Ok? && Eval(row, headers, e.right).Ok?
    ensures Eval(row, headers, e.left).Err? ==> Eval(row, headers, e) == Eval(row, headers, e.left)
    ensures Eval(row, headers, e.left).Ok? && Eval(row, headers, e.right).Err? ==> Eval(row, headers, e) == Eval(row, headers, e.right)
    ensures Eval(row, headers, e).Ok? ==>
      var a := Eval(row, headers, e.left).value;
      var b := Eval(row, headers, e.right).value;
      Eval(row, headers, e).value == (if e.op == And then a && b else a || b)
  {
  }

  /**
    `handle_eq`: `column = literal` with a number or a single-quoted
    string, compared textually with the row's value; a column the headers
    lack makes the comparison false.
   */
  function HandleEq(row: Row, headers: seq<string>, left: Expr, right: Expr): (r: Result<bool>)
    ensures r.Ok? <==> left.Identifier? && right.Literal? && (right.value.Number? || right.value.SingleQuotedString?)
    ensures r.Err? && left.Identifier? && right.Literal? ==> r.error == UnsupportedValueType(right.value)
    ensures r.Err? && !(left.Identifier? && right.Literal?) ==> r.error == UnsupportedSelectClause
    ensures r.Ok? ==> (r.value <==> GetValue(row, left.ident.value, headers) == Some(LiteralText(right.value)))
    ensures r.Ok? && left.ident.value !in headers ==> !r.value
  {
    if left.Identifier? && right.Literal? then
      match right.value
      case Number(n) => Ok(GetValue(row, left.ident.value, headers) == Some(n))
      case SingleQuotedString(s) => Ok(GetValue(row, left.ident.value, headers) == Some(s))
      case _ => Err(UnsupportedValueType(right.value))
    else
      Err(UnsupportedSelectClause)
  }

  /** The text a comparable literal is compared by. */
  function LiteralText(v: Value): string {
    match v
    case Number(n) => n
    case SingleQuotedString(s) => s
    case _ => ""
  }

  // ---------------------------------------------------------------------------
  // Reference characterisation
  // ---------------------------------------------------------------------------

  /** The expression shapes the filter engine understands: AND, OR and parentheses over `column = literal` leaves. */
  predicate SupportedShape(e: Expr) {
    match e
    case BinaryOp(left, op, right) =>
      if op == And || op == Or then SupportedShape(left) && SupportedShape(right)
      else op == Eq && left.Identifier? && right.Literal?
    case Nested(inner) => SupportedShape(inner)
    case _ => false
  }

  /** Every `column = literal` leaf compares with a number or a single-quoted string. */
  predicate ComparableLiterals(e: Expr) {
    match e
    case BinaryOp(left, op, right) =>
      if op == And || op == Or then ComparableLiterals(left) && ComparableLiterals(right)
      else right.Literal? ==> (right.value.Number? || right.value.SingleQuotedString?)
    case Nested(inner) => ComparableLiterals(inner)
    case _ => true
  }

  /** The column names of the `column = literal` leaves, left to right, repetitions included. */
  function EqLeafNames(e: Expr): seq<string> {
    match e
    case BinaryOp(left, op, right) =>
      if op == And || op == Or then EqLeafNames(left) + EqLeafNames(right)
      else if op == Eq && left.Identifier? then [left.ident.value]
      else []
    case Nested(inner) => EqLeafNames(inner)
    case _ => []
  }

  /** Evaluation succeeds exactly on supported shapes whose literals are all comparable, whatever the row. */
  lemma {:induction false} EvalSucceedsIff(row: Row, headers: seq<string>, e: Expr)
    ensures Eval(row, headers, e).Ok? <==> SupportedShape(e) && ComparableLiterals(e)
  {
    match e
    case BinaryOp(left, op, right) =>
      if op == And || op == Or {
        EvalEvaluatesBothOperands(row, headers, e);
        EvalSucceedsIff(row, headers, left);
        EvalSucceedsIff(row, headers, right);
      }
    case Nested(inner) =>
      EvalSucceedsIff(row, headers, inner);
    case _ =>
  }

  /**
    The filter looks at a row only through the values of the leaf columns:
    two rows (with their headers) that agree on those values get the same
    verdict. This is what lets the engine evaluate the filter on restricted
    rows built from the indexes instead of full records.
   */
  lemma {:induction false} EvalDependsOnlyOnLeafValues(row1: Row, headers1: seq<string>, row2: Row, headers2: seq<string>, e: Expr)
    requires forall c :: c in EqLeafNames(e) ==> GetValue(row1, c, headers1) == GetValue(row2, c, headers2)
    ensures Eval(row1, headers1, e) == Eval(row2, headers2, e)
  {
    match e
    case BinaryOp(left, op, right) =>
      if op == And || op == Or {
        EvalDependsOnlyOnLeafValues(row1, headers1, row2, headers2, left);
        EvalDependsOnlyOnLeafValues(row1, headers1, row2, headers2, right);
      }
    case Nested(inner) =>
      EvalDependsOnlyOnLeafValues(row1, headers1, row2, headers2, inner);
    case _ =>
  }
}
