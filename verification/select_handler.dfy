/**
  The SELECT pipeline (select/select_handler.rs): unwrap the query, look
  the table up, validate, read the rows through the indexes or by a scan,
  sort, apply the limit and attach the column names.
 */
module SelectHandler {

  import opened Wrappers
  import opened Types
  import opened Ast
  import Seqs
  import OffsetCounter
  import Catalog
  import AstUnwrapper
  import SelectUtils
  import SelectValidator
  import FilterColumnFinder
  import RecordHandler
  import FilterChecker
  import Bytes

  /**
    The two table readers, which read files and are therefore inputs:
    `withIndex(schema, table, filter, filterColumns, columnIndices)` and
    `scan(schema, table, columns, filter)`, each returning the selected
    records as lists of fields.
   */
  datatype Readers = Readers(
    withIndex: (string, string, Option<Expr>, seq<string>, seq<nat>) -> Result<seq<seq<string>>>,
    scan: (string, string, seq<string>, Option<Expr>) -> Result<seq<seq<string>>>)

  /** The reader `handle_select` calls: the index reader exactly when `use_indexes` says so. */
  function ReadRecords(readers: Readers, schemaName: string, table: TableSchema, params: AstUnwrapper.SelectParameters,
                       filterColumns: seq<string>, columnIndices: seq<nat>): Result<seq<seq<string>>>
  {
    if FilterColumnFinder.UseIndexes(filterColumns, table) then
      readers.withIndex(schemaName, params.tableName, params.filters, filterColumns, columnIndices)
    else
      readers.scan(schemaName, params.tableName, params.columns, params.filters)
  }

  /**
    Sorting and limiting: with an ORDER BY column the records are sorted
    stably on that column's header position (an unknown column is an
    error), then at most `limit` records are kept.
   */
  function OrderAndLimit(records: seq<seq<string>>, headers: seq<string>, tableName: string,
                         orderColumnName: Option<string>, ascending: bool, limit: Option<nat>): (r: Result<seq<seq<string>>>)
    ensures r.Err? <==> orderColumnName.Some? && orderColumnName.value !in headers
    ensures r.Err? ==> r.error == ColumnDoesNotExist(orderColumnName.value, tableName)
    ensures r.Ok? ==> |r.value| <= |records| && (limit.Some? ==> |r.value| <= limit.value)
    ensures r.Ok? ==> multiset(r.value) <= multiset(records)
    ensures r.Ok? && orderColumnName.None? ==> r.value <= records
  {
    match orderColumnName
    case None =>
      var kept := Seqs.Take(records, limit);
      PrefixMultiset(records, kept);
      Ok(kept)
    case Some(c) =>
      match Seqs.IndexOf(headers, c)
      case None => Err(ColumnDoesNotExist(c, tableName))
      case Some(p) =>
        var sorted := RecordHandler.SortRecords(records, p, ascending);
        var kept := Seqs.Take(sorted, limit);
        PrefixMultiset(sorted, kept);
        Ok(kept)
  }

  /** A prefix holds no more of any element than the whole. */
  lemma PrefixMultiset<T>(s: seq<T>, p: seq<T>)
    requires p <= s
    ensures multiset(p) <= multiset(s)
  {
    assert s == p + s[|p|..];
  }

  /**
    The limit keeps the best records: ascending, every kept record's key is
    at most every dropped record's key (descending, at least), and the
    kept records are themselves in key order.
   */
  lemma OrderAndLimitKeepsTopRecords(records: seq<seq<string>>, headers: seq<string>, tableName: string,
                                     column: string, ascending: bool, limit: Option<nat>)
    requires column in headers
    ensures var r := OrderAndLimit(records, headers, tableName, Some(column), ascending, limit);
      var p := Seqs.IndexOf(headers, column).value;
      var sorted := RecordHandler.SortRecords(records, p, ascending);
      && r.Ok?
      && r.value <= sorted
      && forall i, j :: 0 <= i < |r.value| <= j < |sorted| ==>
           if ascending then RecordHandler.LexLe(RecordHandler.SortKey(sorted[i], p), RecordHandler.SortKey(sorted[j], p))
           else RecordHandler.LexLe(RecordHandler.SortKey(sorted[j], p), RecordHandler.SortKey(sorted[i], p))
  {
    var p := Seqs.IndexOf(headers, column).value;
    RecordHandler.SortRecordsSpec(records, p, ascending);
  }

  /**
    `handle_select`: the rows of the answer, each a map from column name to
    value. `loaded` is the outcome of reading the in-memory catalog.
   */
  function HandleSelect(query: Query, loaded: Result<Database>, readers: Readers): (r: Result<seq<map<string, string>>>)
    ensures AstUnwrapper.UnwrapSelectQuery(query).Err? ==> r == Err(AstUnwrapper.UnwrapSelectQuery(query).error)
    ensures AstUnwrapper.UnwrapSelectQuery(query).Ok? && loaded.Err? ==> r == Err(loaded.error)
    ensures AstUnwrapper.UnwrapSelectQuery(query).Ok? && loaded.Ok? ==>
      var name := AstUnwrapper.UnwrapSelectQuery(query).value.tableName;
      Catalog.FindDatabaseTable(loaded.value, name).None? ==> r == Err(TableDoesNotExist(name))
    ensures r.Ok? ==>
      var params := AstUnwrapper.UnwrapSelectQuery(query).value;
      && loaded.Ok?
      && Catalog.FindDatabaseTable(loaded.value, params.tableName).Some?
      && SelectValidator.ValidateSelectQuery(loaded.value, params.tableName, params.columns, params.orderColumnName).Pass?
      && FilterColumnFinder.FindFilterColumns(params.filters).Ok?
      && (params.limitValue.Some? ==> |r.value| <= params.limitValue.value)
  {
    var params :- AstUnwrapper.UnwrapSelectQuery(query);
    var db :- loaded;
    var schemaName := db.configuration.defaultSchema;
    match Catalog.FindDatabaseTable(db, params.tableName)
    case None => Err(TableDoesNotExist(params.tableName))
    case Some(table) =>
      var headers := Catalog.GetHeadersFromTableSchema(table);
      var columnIndices := SelectUtils.GetColumnIndices(headers, params.columns);
      var valid := SelectValidator.ValidateSelectQuery(db, params.tableName, params.columns, params.orderColumnName);
      if valid.Fail? then Err(valid.error)
      else
        var filterColumns :- FilterColumnFinder.FindFilterColumns(params.filters);
        var records :- ReadRecords(readers, schemaName, table, params, filterColumns, columnIndices);
        var rows :- OrderAndLimit(records, headers, table.name, params.orderColumnName, params.ascending, params.limitValue);
        Ok(RecordHandler.FormatResponse(rows, headers, columnIndices))
  }

  /**
    After validation the ORDER BY lookup cannot fail: the validator
    accepts only a column of the table, and the headers hold every
    column's name.
   */
  lemma ValidatedOrderColumnIsAHeader(db: Database, tableName: string, columns: seq<string>, orderColumnName: Option<string>)
    requires SelectValidator.ValidateSelectQuery(db, tableName, columns, orderColumnName).Pass?
    ensures var table := Catalog.FindDatabaseTable(db, tableName).value;
      orderColumnName.Some? ==> orderColumnName.value in Catalog.GetHeadersFromTableSchema(table)
  {
    var table := Catalog.FindDatabaseTable(db, tableName).value;
    Catalog.HeadersSpec(table);
    if orderColumnName.Some? {
      var c := orderColumnName.value;
      assert c in multiset(OffsetCounter.ColumnNames(table.columns));
    }
  }

  /**
    The answer depends on only one reader: the index reader when
    `use_indexes` holds for the filter's columns, the scan otherwise, so
    swapping the unused reader changes nothing.
   */
  lemma OnlyTheChosenReaderMatters(query: Query, loaded: Result<Database>, readers1: Readers, readers2: Readers)
    requires AstUnwrapper.UnwrapSelectQuery(query).Ok? && loaded.Ok?
    requires var params := AstUnwrapper.UnwrapSelectQuery(query).value;
      var table := Catalog.FindDatabaseTable(loaded.value, params.tableName);
      var filterColumns := FilterColumnFinder.FindFilterColumns(params.filters);
      table.Some? && filterColumns.Ok? ==>
        if FilterColumnFinder.UseIndexes(filterColumns.value, table.value) then readers1.withIndex == readers2.withIndex
        else readers1.scan == readers2.scan
    ensures HandleSelect(query, loaded, readers1) == HandleSelect(query, loaded, readers2)
  {
  }

  /**
    Once the query is valid, the error cases left are the filter's shape
    and the reader's own: the ORDER BY step always succeeds, and the answer
    has one row per kept record, each named through the headers.
   */
  lemma SelectSucceedsWhenReaderDoes(query: Query, db: Database, readers: Readers)
    requires AstUnwrapper.UnwrapSelectQuery(query).Ok?
    requires var params := AstUnwrapper.UnwrapSelectQuery(query).value;
      SelectValidator.ValidateSelectQuery(db, params.tableName, params.columns, params.orderColumnName).Pass?
    ensures var params := AstUnwrapper.UnwrapSelectQuery(query).value;
      var table := Catalog.FindDatabaseTable(db, params.tableName).value;
      var filterColumns := FilterColumnFinder.FindFilterColumns(params.filters);
      var headers := Catalog.GetHeadersFromTableSchema(table);
      var columnIndices := SelectUtils.GetColumnIndices(headers, params.columns);
      filterColumns.Ok? && ReadRecords(readers, db.configuration.defaultSchema, table, params, filterColumns.value, columnIndices).Ok? ==>
        var records := ReadRecords(readers, db.configuration.defaultSchema, table, params, filterColumns.value, columnIndices).value;
        var rows := OrderAndLimit(records, headers, table.name, params.orderColumnName, params.ascending, params.limitValue);
        && rows.Ok?
        && HandleSelect(query, Ok(db), readers) == Ok(RecordHandler.FormatResponse(rows.value, headers, columnIndices))
  {
    var params := AstUnwrapper.UnwrapSelectQuery(query).value;
    ValidatedOrderColumnIsAHeader(db, params.tableName, params.columns, params.orderColumnName);
  }

  // ---------------------------------------------------------------------------
  // ORDER BY on projected records
  // ---------------------------------------------------------------------------

  /**
    Both readers answer records already projected onto the selected
    columns, yet `handle_select` looks the ORDER BY column up in the full
    headers and sorts at that position. The corrected order sorts the full
    records, applies the limit, and only then projects.
   */
  function OrderThenProject(records: seq<seq<string>>, headers: seq<string>, columnIndices: seq<nat>, tableName: string,
                            orderColumnName: Option<string>, ascending: bool, limit: Option<nat>): (r: Result<seq<seq<string>>>)
    ensures r.Err? <==> orderColumnName.Some? && orderColumnName.value !in headers
    ensures r.Err? ==> r.error == ColumnDoesNotExist(orderColumnName.value, tableName)
    ensures r.Ok? ==> |r.value| <= |records| && (limit.Some? ==> |r.value| <= limit.value)
    ensures r.Ok? ==> forall k :: 0 <= k < |r.value| ==>
      exists i :: 0 <= i < |records| && r.value[k] == SelectUtils.SelectFields(records[i], columnIndices)
  {
    var rows :- OrderAndLimit(records, headers, tableName, orderColumnName, ascending, limit);
    var projected := SelectUtils.ProjectRecords(rows, columnIndices);
    assert forall k :: 0 <= k < |rows| ==> rows[k] in multiset(records);
    Ok(projected)
  }

  /** The records hold every selected position, and their ORDER BY field carries no surrounding whitespace. */
  predicate SelectableRecords(records: seq<seq<string>>, columnIndices: seq<nat>, orderPosition: nat) {
    forall k :: 0 <= k < |records| ==>
      && (forall m :: 0 <= m < |columnIndices| ==> columnIndices[m] < |records[k]|)
      && orderPosition < |records[k]|
      && FilterChecker.Trim(records[k][orderPosition]) == records[k][orderPosition]
  }

  /**
    With the corrected order, an answer that selects the ORDER BY column
    (at projected position `q`) is sorted on that column: ascending, every
    row's value is at most every later row's; descending, at least.
   */
  lemma CorrectedOrderSortsSelectedColumn(records: seq<seq<string>>, headers: seq<string>, columnIndices: seq<nat>,
                                          tableName: string, column: string, ascending: bool, limit: Option<nat>, q: nat)
    requires column in headers
    requires q < |columnIndices| && columnIndices[q] == Seqs.IndexOf(headers, column).value
    requires SelectableRecords(records, columnIndices, columnIndices[q])
    ensures var r := OrderThenProject(records, headers, columnIndices, tableName, Some(column), ascending, limit);
      && r.Ok?
      && (ascending ==> forall i, j :: 0 <= i < j < |r.value| ==>
            RecordHandler.LexLe(RecordHandler.SortKey(r.value[i], q), RecordHandler.SortKey(r.value[j], q)))
      && (!ascending ==> forall i, j :: 0 <= i < j < |r.value| ==>
            RecordHandler.LexLe(RecordHandler.SortKey(r.value[j], q), RecordHandler.SortKey(r.value[i], q)))
  {
    var p := columnIndices[q];
    var sorted := RecordHandler.SortRecords(records, p, ascending);
    var kept := Seqs.Take(sorted, limit);
    CorrectedOrderIsProjectedSort(records, headers, columnIndices, tableName, column, ascending, limit);
    SortedOrder(records, p, ascending);
    assert forall i :: 0 <= i < |kept| ==> kept[i] == sorted[i];
    ProjectedKeysAreRecordKeys(kept, records, columnIndices, q);
  }

  /** The corrected answer is the projection of the sorted records' first `limit`. */
  lemma CorrectedOrderIsProjectedSort(records: seq<seq<string>>, headers: seq<string>, columnIndices: seq<nat>,
                                      tableName: string, column: string, ascending: bool, limit: Option<nat>)
    requires column in headers
    ensures var p := Seqs.IndexOf(headers, column).value;
      OrderThenProject(records, headers, columnIndices, tableName, Some(column), ascending, limit)
        == Ok(SelectUtils.ProjectRecords(Seqs.Take(RecordHandler.SortRecords(records, p, ascending), limit), columnIndices))
  {
  }

  /** The sorted records' keys are in order, in the direction asked for. */
  lemma SortedOrder(records: seq<seq<string>>, p: nat, ascending: bool)
    ensures var s := RecordHandler.SortRecords(records, p, ascending);
      && multiset(s) == multiset(records)
      && (ascending ==> forall i, j :: 0 <= i < j < |s| ==> RecordHandler.LexLe(RecordHandler.SortKey(s[i], p), RecordHandler.SortKey(s[j], p)))
      && (!ascending ==> forall i, j :: 0 <= i < j < |s| ==> RecordHandler.LexLe(RecordHandler.SortKey(s[j], p), RecordHandler.SortKey(s[i], p)))
  {
    RecordHandler.SortRecordsSpec(records, p, ascending);
  }

  /** Records drawn from selectable ones keep their ORDER BY key at projected position `q`. */
  lemma ProjectedKeysAreRecordKeys(kept: seq<seq<string>>, records: seq<seq<string>>, columnIndices: seq<nat>, q: nat)
    requires q < |columnIndices|
    requires multiset(kept) <= multiset(records) || forall i :: 0 <= i < |kept| ==> kept[i] in records
    requires SelectableRecords(records, columnIndices, columnIndices[q])
    ensures forall i :: 0 <= i < |kept| ==>
      RecordHandler.SortKey(SelectUtils.ProjectRecords(kept, columnIndices)[i], q) == RecordHandler.SortKey(kept[i], columnIndices[q])
  {
    forall i | 0 <= i < |kept|
      ensures RecordHandler.SortKey(SelectUtils.ProjectRecords(kept, columnIndices)[i], q) == RecordHandler.SortKey(kept[i], columnIndices[q])
    {
      assert kept[i] in multiset(kept);
      var k :| 0 <= k < |records| && records[k] == kept[i];
      ProjectedKey(records[k], columnIndices, q);
    }
  }

  /** A record holding every selected position keeps its trimmed ORDER BY field at projected position `q`. */
  lemma ProjectedKey(record: seq<string>, columnIndices: seq<nat>, q: nat)
    requires q < |columnIndices|
    requires forall m :: 0 <= m < |columnIndices| ==> columnIndices[m] < |record|
    requires FilterChecker.Trim(record[columnIndices[q]]) == record[columnIndices[q]]
    ensures RecordHandler.SortKey(SelectUtils.SelectFields(record, columnIndices), q) == RecordHandler.SortKey(record, columnIndices[q])
  {
    var selected := SelectUtils.SelectFields(record, columnIndices);
    assert selected[q] == record[columnIndices[q]];
  }

  /**
    `handle_select` with the corrected order: the reader is asked for whole
    records (every header position, or `*` for the scan), which are sorted
    and limited before the projection onto the selected columns.
   */
  function HandleSelectCorrected(query: Query, loaded: Result<Database>, readers: Readers): (r: Result<seq<map<string, string>>>)
    ensures AstUnwrapper.UnwrapSelectQuery(query).Err? ==> r == Err(AstUnwrapper.UnwrapSelectQuery(query).error)
    ensures AstUnwrapper.UnwrapSelectQuery(query).Ok? && loaded.Err? ==> r == Err(loaded.error)
    ensures AstUnwrapper.UnwrapSelectQuery(query).Ok? && loaded.Ok? ==>
      var name := AstUnwrapper.UnwrapSelectQuery(query).value.tableName;
      Catalog.FindDatabaseTable(loaded.value, name).None? ==> r == Err(TableDoesNotExist(name))
    ensures r.Ok? ==>
      var params := AstUnwrapper.UnwrapSelectQuery(query).value;
      && loaded.Ok?
      && Catalog.FindDatabaseTable(loaded.value, params.tableName).Some?
      && SelectValidator.ValidateSelectQuery(loaded.value, params.tableName, params.columns, params.orderColumnName).Pass?
      && FilterColumnFinder.FindFilterColumns(params.filters).Ok?
      && (params.limitValue.Some? ==> |r.value| <= params.limitValue.value)
  {
    var params :- AstUnwrapper.UnwrapSelectQuery(query);
    var db :- loaded;
    var schemaName := db.configuration.defaultSchema;
    match Catalog.FindDatabaseTable(db, params.tableName)
    case None => Err(TableDoesNotExist(params.tableName))
    case Some(table) =>
      var headers := Catalog.GetHeadersFromTableSchema(table);
      var columnIndices := SelectUtils.GetColumnIndices(headers, params.columns);
      var valid := SelectValidator.ValidateSelectQuery(db, params.tableName, params.columns, params.orderColumnName);
      if valid.Fail? then Err(valid.error)
      else
        var filterColumns :- FilterColumnFinder.FindFilterColumns(params.filters);
        var whole := params.(columns := ["*"]);
        var records :- ReadRecords(readers, schemaName, table, whole, filterColumns, SelectUtils.AllPositions(|headers|));
        var rows :- OrderThenProject(records, headers, columnIndices, table.name, params.orderColumnName, params.ascending, params.limitValue);
        Ok(RecordHandler.FormatResponse(rows, headers, columnIndices))
  }

  const DemoHeaders: seq<string> := ["id", "name"]
  const DemoRows: seq<seq<string>> := [["1", "b"], ["2", "a"]]

  /** A two-element sequence with the elements of `{x, y}` lists them in one order or the other. */
  lemma PairOrders<T>(s: seq<T>, x: T, y: T)
    requires |s| == 2 && multiset(s) == multiset{x, y}
    ensures s == [x, y] || s == [y, x]
  {
    assert s[0] in multiset(s) && s[1] in multiset(s);
    assert s == [s[0], s[1]];
    if s[0] == s[1] {
      assert multiset(s)[s[0]] == 2;
    }
  }

  /** Ascending, the sorted records' keys never decrease. */
  lemma SortedAscending(records: seq<seq<string>>, p: nat)
    ensures var s := RecordHandler.SortRecords(records, p, true);
      forall i, j :: 0 <= i < j < |s| ==> RecordHandler.LexLe(RecordHandler.SortKey(s[i], p), RecordHandler.SortKey(s[j], p))
  {
    RecordHandler.SortRecordsSpec(records, p, true);
  }

  /** Of two records whose keys differ, sorting puts the smaller key first, whatever the input order. */
  lemma SortOfTwo(x: seq<string>, y: seq<string>, input: seq<seq<string>>, p: nat)
    requires input == [x, y] || input == [y, x]
    requires !RecordHandler.LexLe(RecordHandler.SortKey(y, p), RecordHandler.SortKey(x, p))
    ensures RecordHandler.SortRecords(input, p, true) == [x, y]
  {
    var s := RecordHandler.SortRecords(input, p, true);
    assert multiset(input) == multiset{x, y};
    PairOrders(s, x, y);
    SortedAscending(input, p);
  }

  /** The demo's fields carry no whitespace, so trimming keeps them. */
  lemma DemoFieldsTrimmed()
    ensures FilterChecker.Trim("b") == "b" && FilterChecker.Trim("a") == "a"
    ensures FilterChecker.Trim("1") == "1" && FilterChecker.Trim("2") == "2"
  {
    assert !FilterChecker.IsWhitespace('b') && !FilterChecker.IsWhitespace('a');
    assert !FilterChecker.IsWhitespace('1') && !FilterChecker.IsWhitespace('2');
  }

  /** Each demo row projected onto `name, id`. */
  lemma DemoRecordsProjected()
    ensures SelectUtils.SelectFields(["1", "b"], [1, 0]) == ["b", "1"]
    ensures SelectUtils.SelectFields(["2", "a"], [1, 0]) == ["a", "2"]
  {
    DemoFieldsTrimmed();
    assert [1, 0][1..] == [0] && [0][1..] == [];
    assert SelectUtils.SelectFields(["1", "b"], [0]) == ["1"];
    assert SelectUtils.SelectFields(["2", "a"], [0]) == ["2"];
  }

  /** The selected positions of `SELECT name, id`. */
  lemma DemoColumnIndices()
    ensures SelectUtils.GetColumnIndices(DemoHeaders, ["name", "id"]) == [1, 0]
  {
    assert "*" !in ["name", "id"];
    assert Seqs.IndexOf(DemoHeaders, "name") == Some(1);
    assert Seqs.IndexOf(DemoHeaders, "id") == Some(0);
    assert SelectUtils.KnownPositions(DemoHeaders, ["id"]) == [0];
  }

  /** The records the readers answer for `SELECT name, id`. */
  lemma DemoProjection()
    ensures SelectUtils.ProjectRecords(DemoRows, [1, 0]) == [["b", "1"], ["a", "2"]]
  {
    DemoRecordsProjected();
  }

  /** The byte order of the demo's keys. */
  lemma DemoKeys()
    ensures !RecordHandler.LexLe(RecordHandler.SortKey(["b", "1"], 0), RecordHandler.SortKey(["a", "2"], 0))
    ensures !RecordHandler.LexLe(RecordHandler.SortKey(["2", "a"], 0), RecordHandler.SortKey(["1", "b"], 0))
    ensures !RecordHandler.LexLe(RecordHandler.SortKey(["a", "2"], 1), RecordHandler.SortKey(["b", "1"], 1))
  {
    assert Bytes.Utf8("b") == [0x62] && Bytes.Utf8("a") == [0x61];
    assert Bytes.Utf8("2") == [0x32] && Bytes.Utf8("1") == [0x31];
  }

  /** Two records with different keys, sorted ascending without a limit, come out smaller key first. */
  lemma AscendingOrderOfTwo(x: seq<string>, y: seq<string>, input: seq<seq<string>>, headers: seq<string>,
                            tableName: string, column: string)
    requires column in headers
    requires input == [x, y] || input == [y, x]
    requires !RecordHandler.LexLe(RecordHandler.SortKey(y, Seqs.IndexOf(headers, column).value),
                                  RecordHandler.SortKey(x, Seqs.IndexOf(headers, column).value))
    ensures OrderAndLimit(input, headers, tableName, Some(column), true, None) == Ok([x, y])
  {
    SortOfTwo(x, y, input, Seqs.IndexOf(headers, column).value);
  }

  /**
    `SELECT name, id FROM t ORDER BY id` over the rows (1, b) and (2, a):
    the projected records are (b, 1) and (a, 2); as written the sort uses
    position 0 of the full headers, which in a projected record is `name`,
    and answers (a, 2) first, so the ids come out as 2, 1.
   */
  lemma OrderByOnProjectionSortsWrongField()
    ensures OrderAndLimit(SelectUtils.ProjectRecords(DemoRows, [1, 0]), DemoHeaders, "t", Some("id"), true, None)
      == Ok([["a", "2"], ["b", "1"]])
    ensures !RecordHandler.LexLe(RecordHandler.SortKey(["a", "2"], 1), RecordHandler.SortKey(["b", "1"], 1))
  {
    DemoProjection();
    DemoKeys();
    assert Seqs.IndexOf(DemoHeaders, "id") == Some(0);
    AscendingOrderOfTwo(["a", "2"], ["b", "1"], [["b", "1"], ["a", "2"]], DemoHeaders, "t", "id");
  }

  /** The corrected order on the same query answers (b, 1) first: the ids come out as 1, 2. */
  lemma CorrectedOrderOnDemo()
    ensures OrderThenProject(DemoRows, DemoHeaders, [1, 0], "t", Some("id"), true, None) == Ok([["b", "1"], ["a", "2"]])
  {
    DemoKeys();
    assert Seqs.IndexOf(DemoHeaders, "id") == Some(0);
    AscendingOrderOfTwo(["1", "b"], ["2", "a"], DemoRows, DemoHeaders, "t", "id");
    DemoProjection();
  }
}
