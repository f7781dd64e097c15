/**
  Extraction of the parameters of a SELECT from its syntax tree
  (utils/ast_unwrapper.rs).
 */
module AstUnwrapper {

  import opened Wrappers
  import opened Types
  import opened Ast
  import Seqs
  import Numbers

  /** The parameters of a SELECT (select/types.rs). */
  datatype SelectParameters = SelectParameters(
    tableName: string,
    columns: seq<string>,
    filters: Option<Expr>,
    orderColumnName: Option<string>,
    ascending: bool,
    limitValue: Option<nat>)

  /** The text of every part of a qualified name. */
  function PartValues(name: ObjectName): (values: seq<string>)
    ensures |values| == |name.parts|
    ensures forall i :: 0 <= i < |name.parts| ==> values[i] == name.parts[i].value
  {
    seq(|name.parts|, i requires 0 <= i < |name.parts| => name.parts[i].value)
  }

  /**
    `get_table_name_from_from`: the first FROM item must be a plain table;
    its name is the parts of the qualified name joined by `.`.
   */
  function GetTableNameFromFrom(from: seq<TableWithJoins>): (r: Result<string>)
    ensures |from| == 0 ==> r == Err(MissingTableName)
    ensures |from| > 0 && !from[0].relation.Table? ==> r == Err(GenericUnsupported)
    ensures r.Ok? <==> |from| > 0 && from[0].relation.Table?
  {
    if |from| == 0 then Err(MissingTableName)
    else
      match from[0].relation
      case Table(name) => Ok(Seqs.Join(PartValues(name), "."))
      case _ => Err(GenericUnsupported)
  }

  /** An unqualified table name is returned as it is. */
  lemma TableNameOfSimpleName(from: seq<TableWithJoins>, ident: Ident)
    requires |from| > 0 && from[0].relation == Table(ObjectName([ident]))
    ensures GetTableNameFromFrom(from) == Ok(ident.value)
  {
  }

  /** A qualified name keeps its parts and their order, separated by `.`. */
  lemma TableNameOfQualifiedName(from: seq<TableWithJoins>, schema: Ident, table: Ident)
    requires |from| > 0 && from[0].relation == Table(ObjectName([schema, table]))
    ensures GetTableNameFromFrom(from) == Ok(schema.value + "." + table.value)
  {
    var parts := PartValues(ObjectName([schema, table]));
    assert parts[1..] == [table.value];
    assert Seqs.Join(parts[1..], ".") == table.value;
  }

  /** The column name a projection item contributes: identifiers give their name, `*` gives "*". */
  function ItemColumn(item: SelectItem): Option<string> {
    match item
    case UnnamedExpr(Identifier(ident)) => Some(ident.value)
    case Wildcard => Some("*")
    case _ => None
  }

  /** `get_columns`: the projection's identifiers and wildcards, in order; other items are dropped. */
  function GetColumns(projection: seq<SelectItem>): (columns: seq<string>)
    ensures |columns| <= |projection|
    ensures forall c :: c in columns ==> exists i :: 0 <= i < |projection| && ItemColumn(projection[i]) == Some(c)
  {
    if |projection| == 0 then []
    else
      var rest := GetColumns(projection[1..]);
      assert forall i :: 1 <= i < |projection| ==> projection[i] == projection[1..][i - 1];
      match ItemColumn(projection[0])
      case None => rest
      case Some(c) => [c] + rest
  }

  /** The items are read in order: the columns of a concatenation are the concatenated columns. */
  lemma {:induction false} GetColumnsAppend(p: seq<SelectItem>, q: seq<SelectItem>)
    ensures GetColumns(p + q) == GetColumns(p) + GetColumns(q)
  {
    if |p| == 0 {
      assert p + q == q;
    } else {
      assert (p + q)[1..] == p[1..] + q;
      GetColumnsAppend(p[1..], q);
    }
  }

  /** A projection of plain identifiers yields exactly their names. */
  lemma {:induction false} GetColumnsOfIdentifiers(idents: seq<Ident>)
    ensures GetColumns(seq(|idents|, i requires 0 <= i < |idents| => UnnamedExpr(Identifier(idents[i]))))
      == seq(|idents|, i requires 0 <= i < |idents| => idents[i].value)
  {
    var items := seq(|idents|, i requires 0 <= i < |idents| => UnnamedExpr(Identifier(idents[i])));
    if |idents| > 0 {
      GetColumnsOfIdentifiers(idents[1..]);
      assert items[1..] == seq(|idents[1..]|, i requires 0 <= i < |idents[1..]| => UnnamedExpr(Identifier(idents[1..][i])));
    }
  }

  /**
    `get_ordering`: only the first ORDER BY item counts, and only when it
    is a plain column name; the direction defaults to ascending.
   */
  function GetOrdering(orderBy: seq<OrderByExpr>): (r: (Option<string>, bool))
    ensures |orderBy| == 0 ==> r == (None, true)
    ensures r.0.Some? <==> |orderBy| > 0 && orderBy[0].expr.Identifier?
    ensures r.0.Some? ==> r.0.value == orderBy[0].expr.ident.value && r.1 == !orderBy[0].asc.Desc?
    ensures r.0.None? ==> r.1
  {
    if |orderBy| > 0 && orderBy[0].expr.Identifier? then
      (Some(orderBy[0].expr.ident.value), orderBy[0].asc != Desc)
    else
      (None, true)
  }

  /**
    `get_limit`: a numeric literal must parse as a `usize`, else the limit
    is invalid; any other limit expression, and no limit, means no limit.
   */
  function GetLimit(limit: Option<Expr>): (r: Result<Option<nat>>)
    ensures limit.None? ==> r == Ok(None)
    ensures r.Err? <==> (limit.Some? && limit.value.Literal? && limit.value.value.Number?
      && Numbers.ParseUsize(limit.value.value.digits).None?)
    ensures r.Err? ==> r.error == InvalidLimit(limit.value.value.digits)
    ensures r.Ok? && r.value.Some? ==> r.value.value <= Numbers.UsizeMax
  {
    match limit
    case Some(Literal(Number(text))) =>
      (match Numbers.ParseUsize(text)
       case Some(n) => Ok(Some(n))
       case None => Err(InvalidLimit(text)))
    case _ => Ok(None)
  }

  /** A limit written in decimal is read back as itself. */
  lemma GetLimitRoundTrip(n: nat)
    requires n <= Numbers.UsizeMax
    ensures GetLimit(Some(Literal(Number(Numbers.Decimal(n))))) == Ok(Some(n))
  {
    Numbers.ParseUsizeRoundTrip(n);
  }

  /**
    `unwrap_select_query`: a SELECT body is unwrapped into its table name,
    columns, filter, ordering and limit, in that order of checks; any other
    body is an unsupported clause.
   */
  function UnwrapSelectQuery(query: Query): (r: Result<SelectParameters>)
    ensures !query.body.SelectBody? ==> r == Err(UnsupportedSelectClause)
    ensures query.body.SelectBody? && GetTableNameFromFrom(query.body.select.from).Err? ==>
      r == Err(GetTableNameFromFrom(query.body.select.from).error)
    ensures query.body.SelectBody? && GetTableNameFromFrom(query.body.select.from).Ok? ==>
      (r.Ok? <==> GetLimit(query.limit).Ok?)
    ensures r.Ok? ==>
      var select := query.body.select;
      && r.value.tableName == GetTableNameFromFrom(select.from).value
      && r.value.columns == GetColumns(select.projection)
      && r.value.filters == select.selection
      && (r.value.orderColumnName, r.value.ascending) == GetOrdering(query.orderBy)
      && r.value.limitValue == GetLimit(query.limit).value
  {
    match query.body
    case SelectBody(select) =>
      var tableName :- GetTableNameFromFrom(select.from);
      var columns := GetColumns(select.projection);
      var (orderColumnName, ascending) := GetOrdering(query.orderBy);
      var limitValue :- GetLimit(query.limit);
      Ok(SelectParameters(tableName, columns, select.selection, orderColumnName, ascending, limitValue))
    case _ => Err(UnsupportedSelectClause)
  }
}
