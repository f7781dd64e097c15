/**
  The index path of SELECT (table_reader_with_index.rs): the filter is
  evaluated on the restricted rows, the row offsets of the passing rows are
  collected, and only those lines are read from the data file.
 */
module TableReaderWithIndex {

  import opened Wrappers
  import opened Types
  import opened Ast
  import opened Bytes
  import opened IndexReader
  import opened DataFile
  import opened FilterChecker
  import opened FilterManager
  import Seqs
  import IndexUpdater
  import SelectUtils

  /** The filter's verdict on each row, in row order. */
  function Verdicts(rows: seq<Row>, headers: seq<string>, filter: Option<Expr>): (verdicts: seq<Result<bool>>)
    ensures |verdicts| == |rows|
    ensures forall k :: 0 <= k < |rows| ==> verdicts[k] == ApplyFilters(rows[k], headers, filter)
  {
    seq(|rows|, k requires 0 <= k < |rows| => ApplyFilters(rows[k], headers, filter))
  }

  /** The positions whose verdict is `Ok(true)`, in increasing order. */
  function AcceptedPositions(verdicts: seq<Result<bool>>): (indices: seq<nat>)
    ensures |indices| <= |verdicts|
    ensures forall m :: 0 <= m < |indices| ==> indices[m] < |verdicts|
  {
    if |verdicts| == 0 then []
    else
      var n := |verdicts| - 1;
      AcceptedPositions(verdicts[..n]) + (if verdicts[n] == Ok(true) then [n] else [])
  }

  /** Every selected position accepts. */
  lemma {:induction false} OnlyAcceptedPositions(verdicts: seq<Result<bool>>)
    ensures forall m :: 0 <= m < |AcceptedPositions(verdicts)| ==> verdicts[AcceptedPositions(verdicts)[m]] == Ok(true)
  {
    if |verdicts| > 0 {
      var n := |verdicts| - 1;
      var prefix := verdicts[..n];
      var before := AcceptedPositions(prefix);
      OnlyAcceptedPositions(prefix);
      forall m | 0 <= m < |AcceptedPositions(verdicts)| ensures verdicts[AcceptedPositions(verdicts)[m]] == Ok(true) {
        if m < |before| {
          assert AcceptedPositions(verdicts)[m] == before[m];
          assert prefix[before[m]] == Ok(true);
        }
      }
    }
  }

  /** The selected positions increase strictly. */
  lemma {:induction false} AcceptedPositionsIncrease(verdicts: seq<Result<bool>>)
    ensures forall m1, m2 :: 0 <= m1 < m2 < |AcceptedPositions(verdicts)| ==> AcceptedPositions(verdicts)[m1] < AcceptedPositions(verdicts)[m2]
  {
    if |verdicts| > 0 {
      var n := |verdicts| - 1;
      var before := AcceptedPositions(verdicts[..n]);
      AcceptedPositionsIncrease(verdicts[..n]);
      assert forall m :: 0 <= m < |before| ==> AcceptedPositions(verdicts)[m] == before[m];
    }
  }

  /** Every accepting position is selected. */
  lemma {:induction false} EveryAcceptedPosition(verdicts: seq<Result<bool>>)
    ensures forall k :: 0 <= k < |verdicts| && verdicts[k] == Ok(true) ==> k in AcceptedPositions(verdicts)
  {
    if |verdicts| > 0 {
      var n := |verdicts| - 1;
      var prefix := verdicts[..n];
      var before := AcceptedPositions(prefix);
      EveryAcceptedPosition(prefix);
      forall k | 0 <= k < |verdicts| && verdicts[k] == Ok(true) ensures k in AcceptedPositions(verdicts) {
        if k < n {
          assert prefix[k] == Ok(true);
          assert k in before;
        }
      }
    }
  }

  /** Looking at one more verdict adds its position when it accepts. */
  lemma AcceptedPositionsStep(verdicts: seq<Result<bool>>, i: nat)
    requires i < |verdicts|
    ensures AcceptedPositions(verdicts[..i + 1]) == AcceptedPositions(verdicts[..i]) + (if verdicts[i] == Ok(true) then [i] else [])
  {
    assert verdicts[..i + 1][..i] == verdicts[..i];
  }

  /**
    Reference selection: the positions of the rows the filter accepts, in
    increasing order. Only meaningful when the filter evaluates without
    error on every row.
   */
  function MatchingIndices(rows: seq<Row>, headers: seq<string>, filter: Option<Expr>): (indices: seq<nat>)
    ensures |indices| <= |rows|
    ensures forall m :: 0 <= m < |indices| ==> indices[m] < |rows|
  {
    AcceptedPositions(Verdicts(rows, headers, filter))
  }

  /**
    The selection holds exactly the positions of the rows the filter
    accepts, each once, in increasing order.
   */
  lemma MatchingIndicesAreTheAcceptedRows(rows: seq<Row>, headers: seq<string>, filter: Option<Expr>)
    ensures var indices := MatchingIndices(rows, headers, filter);
      && (forall m :: 0 <= m < |indices| ==> ApplyFilters(rows[indices[m]], headers, filter) == Ok(true))
      && (forall m1, m2 :: 0 <= m1 < m2 < |indices| ==> indices[m1] < indices[m2])
      && (forall k :: 0 <= k < |rows| && ApplyFilters(rows[k], headers, filter) == Ok(true) ==> k in indices)
  {
    var verdicts := Verdicts(rows, headers, filter);
    var indices := AcceptedPositions(verdicts);
    assert MatchingIndices(rows, headers, filter) == indices;
    OnlyAcceptedPositions(verdicts);
    AcceptedPositionsIncrease(verdicts);
    EveryAcceptedPosition(verdicts);
    forall m | 0 <= m < |indices| ensures ApplyFilters(rows[indices[m]], headers, filter) == Ok(true) {
      assert verdicts[indices[m]] == Ok(true);
    }
    forall k | 0 <= k < |rows| && ApplyFilters(rows[k], headers, filter) == Ok(true) ensures k in indices {
      assert verdicts[k] == Ok(true);
    }
  }

  /** The restricted rows as filter rows. */
  function RestrictedRows(cells: seq<seq<string>>): (rows: seq<Row>)
    ensures |rows| == |cells|
    ensures forall k :: 0 <= k < |cells| ==> rows[k] == Restricted(cells[k])
  {
    seq(|cells|, k requires 0 <= k < |cells| => Restricted(cells[k]))
  }

  /** The data rows as full records. */
  function Records(table: seq<seq<string>>): (rows: seq<Row>)
    ensures |rows| == |table|
    ensures forall k :: 0 <= k < |table| ==> rows[k] == Record(table[k])
  {
    seq(|table|, k requires 0 <= k < |table| => Record(table[k]))
  }

  /** The row offsets at the given positions. */
  function OffsetsAt(rowOffsets: seq<nat>, indices: seq<nat>): (offsets: seq<nat>)
    requires forall m :: 0 <= m < |indices| ==> indices[m] < |rowOffsets|
    ensures |offsets| == |indices|
    ensures forall m :: 0 <= m < |indices| ==> offsets[m] == rowOffsets[indices[m]]
  {
    seq(|indices|, m requires 0 <= m < |indices| => rowOffsets[indices[m]])
  }

  /** Every row's filter evaluation succeeds. */
  predicate AllEvaluate(rows: seq<Row>, headers: seq<string>, filter: Option<Expr>) {
    forall k :: 0 <= k < |rows| ==> ApplyFilters(rows[k], headers, filter).Ok?
  }

  /**
    The loop of `read_table`: evaluates the filter on every restricted row,
    with the filter columns as headers, and collects the row offset of each
    passing row; the first evaluation error aborts.
   */
  method SelectRowOffsets(restricted: seq<seq<string>>, rowOffsets: seq<nat>, filterColumns: seq<string>, filter: Option<Expr>)
    returns (r: Result<seq<nat>>)
    requires |restricted| <= |rowOffsets|
    ensures r.Ok? <==> AllEvaluate(RestrictedRows(restricted), filterColumns, filter)
    ensures r.Err? ==> exists i :: (0 <= i < |restricted|
      && ApplyFilters(Restricted(restricted[i]), filterColumns, filter) == Err(r.error)
      && forall i' :: 0 <= i' < i ==> ApplyFilters(Restricted(restricted[i']), filterColumns, filter).Ok?)
    ensures r.Ok? ==> r.value == OffsetsAt(rowOffsets, MatchingIndices(RestrictedRows(restricted), filterColumns, filter))
  {
    ghost var rows := RestrictedRows(restricted);
    ghost var verdicts := Verdicts(rows, filterColumns, filter);
    var hits: seq<nat> := [];
    var i := 0;
    while i < |restricted|
      invariant 0 <= i <= |restricted|
      invariant forall i' :: 0 <= i' < i ==> verdicts[i'].Ok?
      invariant hits == OffsetsAt(rowOffsets, AcceptedPositions(verdicts[..i]))
    {
      var evaluated := ApplyFilters(Restricted(restricted[i]), filterColumns, filter);
      assert verdicts[i] == evaluated;
      if evaluated.Err? {
        assert !AllEvaluate(rows, filterColumns, filter);
        return Err(evaluated.error);
      }
      ghost var before := AcceptedPositions(verdicts[..i]);
      AcceptedPositionsStep(verdicts, i);
      if evaluated.value {
        OffsetsAtSnoc(rowOffsets, before, i);
        hits := hits + [rowOffsets[i]];
      } else {
        assert before + [] == before;
      }
      i := i + 1;
    }
    assert verdicts[..|restricted|] == verdicts;
    assert AllEvaluate(rows, filterColumns, filter) by {
      forall k | 0 <= k < |rows| ensures ApplyFilters(rows[k], filterColumns, filter).Ok? {
        assert verdicts[k].Ok?;
      }
    }
    r := Ok(hits);
  }

  /** Taking the offset at one more position appends that offset. */
  lemma OffsetsAtSnoc(rowOffsets: seq<nat>, indices: seq<nat>, k: nat)
    requires forall m :: 0 <= m < |indices| ==> indices[m] < |rowOffsets|
    requires k < |rowOffsets|
    ensures OffsetsAt(rowOffsets, indices + [k]) == OffsetsAt(rowOffsets, indices) + [rowOffsets[k]]
  {
  }

  /**
    The reading part of `read_table` on the index path: reads the row
    index, builds the restricted rows, selects the passing rows' offsets
    and reads those lines. `ReadTableSelected` adds the projection.
   */
  method ReadTable(store: TableIndexes, data: seq<byte>, filter: Option<Expr>, filterColumns: seq<string>)
    returns (r: Result<seq<string>>)
    requires store.rows.Some? ==> |store.rows.value.rowOffsets| >= 1
    ensures store.rows.None? ==> r == Err(IOError)
    ensures r.Ok? ==> store.rows.Some? && GetRestrictedRows(filterColumns, store.rows.value, store, data).Ok?
    ensures r.Ok? ==>
      var restricted := GetRestrictedRows(filterColumns, store.rows.value, store, data).value;
      && AllEvaluate(RestrictedRows(restricted), filterColumns, filter)
      && r.value == GetRowsFromRowOffsets(data,
           OffsetsAt(store.rows.value.rowOffsets, MatchingIndices(RestrictedRows(restricted), filterColumns, filter)))
    ensures store.rows.Some? && GetRestrictedRows(filterColumns, store.rows.value, store, data).Ok?
      && AllEvaluate(RestrictedRows(GetRestrictedRows(filterColumns, store.rows.value, store, data).value), filterColumns, filter)
      ==> r.Ok?
  {
    var rowsIndex :- ReadRowsIndex(store);
    var restricted :- GetRestrictedRows(filterColumns, rowsIndex, store, data);
    var offsets :- SelectRowOffsets(restricted, rowsIndex.rowOffsets, filterColumns, filter);
    r := Ok(GetRowsFromRowOffsets(data, offsets));
  }

  /**
    `read_table` on the index path: the lines `ReadTable` reads, each
    parsed into its fields and projected onto `columnIndices` by
    `select_fields`. The records it answers hold the selected fields only.
   */
  method ReadTableSelected(store: TableIndexes, data: seq<byte>, filter: Option<Expr>, filterColumns: seq<string>,
                           columnIndices: seq<nat>)
    returns (r: Result<seq<seq<string>>>)
    requires store.rows.Some? ==> |store.rows.value.rowOffsets| >= 1
    ensures store.rows.None? ==> r == Err(IOError)
    ensures r.Ok? ==> store.rows.Some? && GetRestrictedRows(filterColumns, store.rows.value, store, data).Ok?
    ensures r.Ok? ==>
      var restricted := GetRestrictedRows(filterColumns, store.rows.value, store, data).value;
      && AllEvaluate(RestrictedRows(restricted), filterColumns, filter)
      && r.value == SelectUtils.ProjectLines(GetRowsFromRowOffsets(data,
           OffsetsAt(store.rows.value.rowOffsets, MatchingIndices(RestrictedRows(restricted), filterColumns, filter))), columnIndices)
    ensures store.rows.Some? && GetRestrictedRows(filterColumns, store.rows.value, store, data).Ok?
      && AllEvaluate(RestrictedRows(GetRestrictedRows(filterColumns, store.rows.value, store, data).value), filterColumns, filter)
      ==> r.Ok?
  {
    var lines :- ReadTable(store, data, filter, filterColumns);
    r := Ok(SelectUtils.ProjectLines(lines, columnIndices));
  }

  /**
    The projected records are the selected rows' fields: read back from a
    data file of plain ASCII rows, the line of each selected row splits
    into that row's fields, so its record is the row projected onto
    `columnIndices`.
   */
  lemma SelectedRecordsAreProjectedRows(store: TableIndexes, header: seq<byte>, table: seq<seq<string>>, indices: seq<nat>,
                                        columnIndices: seq<nat>)
    requires store.rows.Some? && IndexUpdater.RowIndexDescribes(store.rows.value.rowOffsets, |header|, table)
    requires PlainRows(table)
    requires forall k, j :: 0 <= k < |table| && 0 <= j < |table[k]| ==> IsAscii(table[k][j])
    requires forall k :: 0 <= k < |table| ==> |table[k]| >= 1
    requires forall m :: 0 <= m < |indices| ==> indices[m] < |table|
    ensures forall m :: 0 <= m < |indices| ==> indices[m] < |store.rows.value.rowOffsets|
    ensures SelectUtils.ProjectLines(GetRowsFromRowOffsets(header + RowsBytes(table), OffsetsAt(store.rows.value.rowOffsets, indices)), columnIndices)
      == seq(|indices|, m requires 0 <= m < |indices| => SelectUtils.SelectFields(table[indices[m]], columnIndices))
  {
    SelectedLinesAreRows(store, header, table, indices);
    var lines := GetRowsFromRowOffsets(header + RowsBytes(table), OffsetsAt(store.rows.value.rowOffsets, indices));
    var records := SelectUtils.ProjectLines(lines, columnIndices);
    forall m | 0 <= m < |indices|
      ensures records[m] == SelectUtils.SelectFields(table[indices[m]], columnIndices)
    {
      var row := table[indices[m]];
      assert PlainRow(row);
      forall j | 0 <= j < |row|
        ensures ',' !in row[j]
      {
        assert IsPlainField(row[j]);
      }
      SelectUtils.SplitJoinRoundTrip(row);
    }
  }

  // ---------------------------------------------------------------------------
  // The index path agrees with a scan of the full records
  // ---------------------------------------------------------------------------

  /** Two row lists on which the filter agrees row by row select the same rows. */
  lemma MatchingIndicesAgree(rows1: seq<Row>, headers1: seq<string>, rows2: seq<Row>, headers2: seq<string>, filter: Option<Expr>)
    requires |rows1| == |rows2|
    requires forall k :: 0 <= k < |rows1| ==> ApplyFilters(rows1[k], headers1, filter) == ApplyFilters(rows2[k], headers2, filter)
    ensures MatchingIndices(rows1, headers1, filter) == MatchingIndices(rows2, headers2, filter)
  {
    assert Verdicts(rows1, headers1, filter) == Verdicts(rows2, headers2, filter);
  }

  /**
    The values a well-formed filter looks at are the same in a restricted
    row and in the full record it was cut from: every leaf column is a
    filter column, its cell holds the record's field at the column's
    header position, and that field has no surrounding whitespace for the
    record's trimming to remove.
   */
  lemma RestrictedRowAgreesWithRecord(filter: Option<Expr>, filterColumns: seq<string>, positions: seq<nat>, headers: seq<string>, cells: seq<string>, record: seq<string>)
    requires |cells| == |filterColumns| == |positions|
    requires filter.Some? ==> forall n :: n in EqLeafNames(filter.value) ==> n in filterColumns
    requires forall c :: 0 <= c < |filterColumns| ==>
      && filterColumns[c] in headers
      && positions[c] == Seqs.IndexOf(headers, filterColumns[c]).value
      && positions[c] < |record|
      && cells[c] == record[positions[c]]
      && Trim(record[positions[c]]) == record[positions[c]]
    ensures ApplyFilters(Restricted(cells), filterColumns, filter) == ApplyFilters(Record(record), headers, filter)
  {
    if filter.Some? {
      var e := filter.value;
      forall n | n in EqLeafNames(e)
        ensures GetValue(Restricted(cells), n, filterColumns) == GetValue(Record(record), n, headers)
      {
        var c := Seqs.IndexOf(filterColumns, n).value;
        assert filterColumns[c] == n;
      }
      EvalDependsOnlyOnLeafValues(Restricted(cells), filterColumns, Record(record), headers, e);
    }
  }

  /**
    The index path selects what a scan would: when the indexes describe a
    data file of ASCII rows, every leaf column of the filter is a filter
    column stored at its header position, and those values carry no
    surrounding whitespace, then the restricted rows evaluate exactly like
    the full records, so both succeed together and select the same rows.
   */
  lemma IndexPathMatchesScan(filter: Option<Expr>, filterColumns: seq<string>, positions: seq<nat>, headers: seq<string>,
                             store: TableIndexes, header: seq<byte>, table: seq<seq<string>>)
    requires IndexesDescribe(store, header, table, filterColumns, positions)
    requires CompleteAsciiRows(table, positions)
    requires filter.Some? ==> forall n :: n in EqLeafNames(filter.value) ==> n in filterColumns
    requires forall c :: 0 <= c < |filterColumns| ==>
      filterColumns[c] in headers && positions[c] == Seqs.IndexOf(headers, filterColumns[c]).value
    requires forall k, c :: 0 <= k < |table| && 0 <= c < |positions| ==> Trim(table[k][positions[c]]) == table[k][positions[c]]
    ensures var restricted := GetRestrictedRows(filterColumns, store.rows.value, store, header + RowsBytes(table));
      && restricted.Ok?
      && (AllEvaluate(RestrictedRows(restricted.value), filterColumns, filter) <==> AllEvaluate(Records(table), headers, filter))
      && MatchingIndices(RestrictedRows(restricted.value), filterColumns, filter) == MatchingIndices(Records(table), headers, filter)
  {
    var data := header + RowsBytes(table);
    RestrictedRowsProjectTable(filterColumns, positions, store, header, table);
    var restricted := GetRestrictedRows(filterColumns, store.rows.value, store, data).value;
    var rows := RestrictedRows(restricted);
    var records := Records(table);
    forall k | 0 <= k < |table|
      ensures ApplyFilters(rows[k], filterColumns, filter) == ApplyFilters(records[k], headers, filter)
    {
      RestrictedRowAgreesWithRecord(filter, filterColumns, positions, headers, restricted[k], table[k]);
    }
    MatchingIndicesAgree(rows, filterColumns, records, headers, filter);
    AllEvaluateAgree(rows, filterColumns, records, headers, filter);
  }

  /** Rows on which the filter fares alike either all evaluate or not. */
  lemma AllEvaluateAgree(rows1: seq<Row>, headers1: seq<string>, rows2: seq<Row>, headers2: seq<string>, filter: Option<Expr>)
    requires |rows1| == |rows2|
    requires forall k :: 0 <= k < |rows1| ==> ApplyFilters(rows1[k], headers1, filter) == ApplyFilters(rows2[k], headers2, filter)
    ensures AllEvaluate(rows1, headers1, filter) <==> AllEvaluate(rows2, headers2, filter)
  {
    assert Verdicts(rows1, headers1, filter) == Verdicts(rows2, headers2, filter);
  }

  /**
    Reading the selected rows back: at the row-index entries of the
    selected rows, the data file holds exactly those rows' comma-joined
    text.
   */
  lemma SelectedLinesAreRows(store: TableIndexes, header: seq<byte>, table: seq<seq<string>>, indices: seq<nat>)
    requires store.rows.Some? && IndexUpdater.RowIndexDescribes(store.rows.value.rowOffsets, |header|, table)
    requires PlainRows(table)
    requires forall k, j :: 0 <= k < |table| && 0 <= j < |table[k]| ==> IsAscii(table[k][j])
    requires forall m :: 0 <= m < |indices| ==> indices[m] < |table|
    ensures forall m :: 0 <= m < |indices| ==> indices[m] < |store.rows.value.rowOffsets|
    ensures GetRowsFromRowOffsets(header + RowsBytes(table), OffsetsAt(store.rows.value.rowOffsets, indices))
      == seq(|indices|, m requires 0 <= m < |indices| => Seqs.Join(table[indices[m]], ","))
  {
    var data := header + RowsBytes(table);
    var rowOffsets := store.rows.value.rowOffsets;
    var lines := GetRowsFromRowOffsets(data, OffsetsAt(rowOffsets, indices));
    forall m | 0 <= m < |indices|
      ensures lines[m] == Seqs.Join(table[indices[m]], ",")
    {
      var k := indices[m];
      assert rowOffsets[k] == |header| + RowStart(table, k);
      ReadLineOfAsciiRow(header, table, k);
    }
  }
}
