/**
  Which columns a WHERE clause refers to, and whether the indexes can
  answer it (filter_column_finder.rs; filter_manager.rs holds a verbatim
  copy of `find_filter_columns`).
 */
module FilterColumnFinder {

  import opened Wrappers
  import opened Types
  import opened Ast
  import Seqs
  import FilterChecker
  import OffsetCounter

  /** The first column of `columns` named `name` exists and is indexed. */
  predicate IsIndexedColumn(columns: seq<Column>, name: string) {
    match Seqs.IndexOf(OffsetCounter.ColumnNames(columns), name)
    case None => false
    case Some(k) => columns[k].isIndexed
  }

  /**
    `use_indexes`: the index path is taken only for a non-empty list of
    filter columns that all exist in the table and are all indexed.
   */
  function UseIndexes(filterColumns: seq<string>, table: TableSchema): (use: bool)
    ensures |filterColumns| == 0 ==> !use
    ensures use <==> |filterColumns| > 0 && forall i :: 0 <= i < |filterColumns| ==> IsIndexedColumn(table.columns, filterColumns[i])
  {
    |filterColumns| > 0 && AllIndexed(filterColumns, table.columns)
  }

  /** The loop of `use_indexes`: stops at the first column that is missing or not indexed. */
  function AllIndexed(names: seq<string>, columns: seq<Column>): (all: bool)
    ensures all <==> forall i :: 0 <= i < |names| ==> IsIndexedColumn(columns, names[i])
  {
    if |names| == 0 then true
    else
      match Seqs.IndexOf(OffsetCounter.ColumnNames(columns), names[0])
      case None => false
      case Some(k) =>
        if !columns[k].isIndexed then false
        else
          var rest := AllIndexed(names[1..], columns);
          assert forall i :: 1 <= i < |names| ==> names[i] == names[1..][i - 1];
          rest
  }

  /**
    `find_filter_columns`: the columns the filter's `column = value` leaves
    name, each once; no filter names none.
   */
  function FindFilterColumns(filter: Option<Expr>): (r: Result<seq<string>>)
    ensures filter.None? ==> r == Ok([])
    ensures r.Err? ==> r.error == UnsupportedFilter || r.error == UnsupportedSelectClause
  {
    match filter
    case None => Ok([])
    case Some(e) => IdentifyColumns(e, [])
  }

  /**
    `identify_columns`: walks AND and OR left subtree first, looks through
    parentheses, and appends the column of each `column = value` leaf
    unless it is already collected. Any other operator, and an equality of
    another shape, is an unsupported filter; any other expression an
    unsupported clause.
   */
  function IdentifyColumns(e: Expr, collected: seq<string>): (r: Result<seq<string>>)
    ensures r.Ok? ==> collected <= r.value
    ensures r.Err? ==> r.error == UnsupportedFilter || r.error == UnsupportedSelectClause
    ensures e.BinaryOp? && e.op.OtherOperator? ==> r == Err(UnsupportedFilter)
    ensures !e.BinaryOp? && !e.Nested? ==> r == Err(UnsupportedSelectClause)
    decreases e
  {
    match e
    case BinaryOp(left, op, right) =>
      (match op
       case And =>
         var afterLeft :- IdentifyColumns(left, collected);
         IdentifyColumns(right, afterLeft)
       case Or =>
         var afterLeft :- IdentifyColumns(left, collected);
         IdentifyColumns(right, afterLeft)
       case Eq => HandleEq(left, right, collected)
       case OtherOperator(_) => Err(UnsupportedFilter))
    case Nested(inner) => IdentifyColumns(inner, collected)
    case _ => Err(UnsupportedSelectClause)
  }

  /** `handle_eq`: `column = value` (any literal) adds the column if it is new. */
  function HandleEq(left: Expr, right: Expr, collected: seq<string>): (r: Result<seq<string>>)
    ensures r.Ok? <==> left.Identifier? && right.Literal?
    ensures r.Err? ==> r.error == UnsupportedFilter
    ensures r.Ok? ==> left.ident.value in r.value && collected <= r.value
    ensures r.Ok? && left.ident.value in collected ==> r.value == collected
    ensures r.Ok? && left.ident.value !in collected ==> r.value == collected + [left.ident.value]
  {
    if left.Identifier? && right.Literal? then
      if left.ident.value in collected then Ok(collected) else Ok(collected + [left.ident.value])
    else
      Err(UnsupportedFilter)
  }

  /**
    Collection succeeds exactly on the shapes the filter evaluator supports,
    and, started from a list without repetitions, yields that list followed
    by the leaves' columns in first-seen order: the first-seen
    deduplication of the concatenation.
   */
  lemma {:induction false} IdentifyColumnsIsDedup(e: Expr, collected: seq<string>)
    requires Seqs.NoDuplicates(collected)
    ensures IdentifyColumns(e, collected).Ok? <==> FilterChecker.SupportedShape(e)
    ensures IdentifyColumns(e, collected).Ok? ==>
      IdentifyColumns(e, collected).value == Seqs.Dedup(collected + FilterChecker.EqLeafNames(e))
    decreases e
  {
    var leaves := FilterChecker.EqLeafNames(e);
    match e
    case BinaryOp(left, op, right) =>
      if op == And || op == Or {
        IdentifyColumnsIsDedup(left, collected);
        var r := IdentifyColumns(left, collected);
        if r.Ok? {
          IdentifyColumnsIsDedup(right, r.value);
          var l := FilterChecker.EqLeafNames(left);
          var rr := FilterChecker.EqLeafNames(right);
          Seqs.DedupAppend(collected + l, rr);
          assert collected + leaves == (collected + l) + rr;
        }
      } else if op == Eq && left.Identifier? && right.Literal? {
        Seqs.DedupSnoc(collected, left.ident.value);
        Seqs.DedupOfDistinct(collected);
      }
    case Nested(inner) =>
      IdentifyColumnsIsDedup(inner, collected);
    case _ =>
  }

  /**
    What `find_filter_columns` returns: it succeeds exactly when the filter
    is absent or of a supported shape; the columns are without repetition,
    are exactly the columns the leaves name, and appear in the order of
    their first occurrence, reading the filter left to right.
   */
  lemma FindFilterColumnsSpec(filter: Option<Expr>)
    ensures var r := FindFilterColumns(filter);
      r.Ok? <==> filter.None? || FilterChecker.SupportedShape(filter.value)
    ensures var r := FindFilterColumns(filter);
      r.Ok? ==> Seqs.NoDuplicates(r.value)
    ensures var r := FindFilterColumns(filter);
      r.Ok? && filter.Some? ==> forall c :: c in r.value <==> c in FilterChecker.EqLeafNames(filter.value)
    ensures var r := FindFilterColumns(filter);
      r.Ok? && filter.Some? ==> Seqs.InFirstSeenOrder(r.value, FilterChecker.EqLeafNames(filter.value))
  {
    if filter.Some? {
      var e := filter.value;
      var leaves := FilterChecker.EqLeafNames(e);
      IdentifyColumnsIsDedup(e, []);
      assert [] + leaves == leaves;
      var r := FindFilterColumns(filter);
      if r.Ok? {
        assert r.value == Seqs.Dedup(leaves);
        Seqs.DedupMembership(leaves);
        Seqs.DedupIsInFirstSeenOrder(leaves);
      }
    }
  }

  /**
    The engine takes the index path only when every filter column has an
    index: the restricted rows it builds then carry every value the filter
    looks at.
   */
  lemma UseIndexesCoversFilter(filter: Expr, table: TableSchema)
    requires FindFilterColumns(Some(filter)).Ok?
    requires UseIndexes(FindFilterColumns(Some(filter)).value, table)
    ensures forall c :: c in FilterChecker.EqLeafNames(filter) ==> IsIndexedColumn(table.columns, c)
  {
    FindFilterColumnsSpec(Some(filter));
    var columns := FindFilterColumns(Some(filter)).value;
    forall c | c in FilterChecker.EqLeafNames(filter)
      ensures IsIndexedColumn(table.columns, c)
    {
      var i := Seqs.IndexOf(columns, c).value;
    }
  }
}
