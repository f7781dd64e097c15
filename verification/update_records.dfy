/**
  UPDATE (update/update_records.rs): the validation of the assignments,
  and the rewrite of the table's records, where every record the filter
  selects gets the assigned values in the assigned columns. Reading and
  rewriting the data file and refreshing the indexes are not part of this
  model: the headers and records come in as values, and the rewritten
  records go out as one.
 */
module UpdateRecords {

  import opened Wrappers
  import opened Types
  import Seqs
  import Catalog
  import OffsetCounter
  import ValidationCommon
  import ColumnTypes
  import ColumnConstraints
  import SelectUtils
  import FilterChecker
  import Ast

  // ---------------------------------------------------------------------------
  // The assignments
  // ---------------------------------------------------------------------------

  /**
    The assignments as the engine holds them: a hash map from column name
    to new value, here listed in its iteration order, each name once.
   */
  predicate DistinctKeys(entries: seq<(string, string)>) {
    forall i, j :: 0 <= i < j < |entries| ==> entries[i].0 != entries[j].0
  }

  /** The assigned column names in iteration order (`new_column_values.keys()`). */
  function Keys(entries: seq<(string, string)>): (names: seq<string>)
    ensures |names| == |entries|
    ensures forall i :: 0 <= i < |entries| ==> names[i] == entries[i].0
  {
    seq(|entries|, i requires 0 <= i < |entries| => entries[i].0)
  }

  /** The assignments as a map from column name to new value. */
  function ToMap(entries: seq<(string, string)>): (m: map<string, string>)
    requires DistinctKeys(entries)
    ensures forall name :: name in m <==> name in Keys(entries)
    ensures forall i :: 0 <= i < |entries| ==> entries[i].0 in m && m[entries[i].0] == entries[i].1
  {
    if |entries| == 0 then map[]
    else
      var rest := ToMap(entries[1..]);
      assert forall i :: 1 <= i < |entries| ==> entries[i] == entries[1..][i - 1];
      assert forall name :: name in Keys(entries) <==> name == entries[0].0 || name in Keys(entries[1..]) by {
        assert Keys(entries) == [entries[0].0] + Keys(entries[1..]);
      }
      rest[entries[0].0 := entries[0].1]
  }

  /** The assignments as one inserted row, cell `i` being assignment `i`. */
  function AssignmentRow(entries: seq<(string, string)>): (row: seq<InsertedRowColumn>)
    ensures |row| == |entries|
    ensures forall i :: 0 <= i < |entries| ==> row[i] == InsertedRowColumn(entries[i].0, entries[i].1)
  {
    seq(|entries|, i requires 0 <= i < |entries| => InsertedRowColumn(entries[i].0, entries[i].1))
  }

  /**
    `validate_update`: the table must exist, every assigned column must be
    one of its columns, every value must have its column's type, and the
    assignments, taken as one row, must pass the constraint checks without
    completion.
   */
  function ValidateUpdate(db: Database, tableName: string, entries: seq<(string, string)>,
                          parsesAsFloat: string -> bool, stores: ColumnConstraints.Stores): (r: Result<seq<seq<InsertedRowColumn>>>)
    ensures Catalog.FindDatabaseTable(db, tableName).None? ==> r == Err(TableDoesNotExist(tableName))
    ensures r.Ok? ==>
      var table := Catalog.FindDatabaseTable(db, tableName);
      && table.Some?
      && (forall i :: 0 <= i < |entries| ==> entries[i].0 in OffsetCounter.ColumnNames(table.value.columns))
      && ColumnTypes.ValidateColumnTypes(table.value, [AssignmentRow(entries)], parsesAsFloat).Pass?
      && Ok(r.value) == ColumnConstraints.ValidateColumnConstraints([AssignmentRow(entries)], db.configuration.defaultSchema, table.value, false, stores)
    ensures Catalog.FindDatabaseTable(db, tableName).Some? ==>
      var table := Catalog.FindDatabaseTable(db, tableName).value;
      (forall i :: 0 <= i < |entries| ==> entries[i].0 in OffsetCounter.ColumnNames(table.columns)) || (r.Err? && r.error.ColumnDoesNotExist?)
  {
    var exists_ := ValidationCommon.ValidateTableExists(db, tableName);
    if exists_.Fail? then Err(exists_.error)
    else
      match Catalog.FindDatabaseTable(db, tableName)
      case None => Err(TableDoesNotExist(tableName))
      case Some(table) =>
        var known := ValidationCommon.ValidateColumnsExist(table, Keys(entries));
        if known.Fail? then Err(known.error)
        else
          var rows := [AssignmentRow(entries)];
          var types := ColumnTypes.ValidateColumnTypes(table, rows, parsesAsFloat);
          if types.Fail? then Err(types.error)
          else ColumnConstraints.ValidateColumnConstraints(rows, db.configuration.defaultSchema, table, false, stores)
  }

  /** A valid update assigns every column a value its type accepts. */
  lemma ValidUpdateIsWellTyped(db: Database, tableName: string, entries: seq<(string, string)>,
                               parsesAsFloat: string -> bool, stores: ColumnConstraints.Stores)
    requires ValidateUpdate(db, tableName, entries, parsesAsFloat, stores).Ok?
    ensures var table := Catalog.FindDatabaseTable(db, tableName).value;
      forall i :: 0 <= i < |entries| ==>
        && ColumnTypes.FindColumn(table, entries[i].0).Some?
        && ColumnTypes.Accepts(ColumnTypes.FindColumn(table, entries[i].0).value.dataType, entries[i].1, parsesAsFloat)
  {
    var table := Catalog.FindDatabaseTable(db, tableName).value;
    var row := AssignmentRow(entries);
    forall i | 0 <= i < |entries|
      ensures ColumnTypes.CheckCell(table, InsertedRowColumn(entries[i].0, entries[i].1), parsesAsFloat).Pass?
    {
      assert [row][0][i] == InsertedRowColumn(entries[i].0, entries[i].1);
    }
  }

  // ---------------------------------------------------------------------------
  // The rewrite
  // ---------------------------------------------------------------------------

  /**
    Whether field `j` of a selected record is assigned: `j` is one of the
    target positions, names a header, and that header has a new value.
   */
  predicate Assigned(headers: seq<string>, newValues: map<string, string>, indices: seq<nat>, j: nat) {
    j in indices && j < |headers| && headers[j] in newValues
  }

  /** The record as the rewrite leaves a selected record: assigned fields replaced, the rest kept. */
  function Updated(record: seq<string>, headers: seq<string>, newValues: map<string, string>, indices: seq<nat>): (updated: seq<string>)
    ensures |updated| == |record|
    ensures forall j :: 0 <= j < |record| && Assigned(headers, newValues, indices, j) ==> updated[j] == newValues[headers[j]]
    ensures forall j :: 0 <= j < |record| && !Assigned(headers, newValues, indices, j) ==> updated[j] == record[j]
  {
    seq(|record|, j requires 0 <= j < |record| =>
      if Assigned(headers, newValues, indices, j) then newValues[headers[j]] else record[j])
  }

  /**
    The inner loop of `update_records`: for every target position in turn,
    the field there takes the new value of the header it names, when the
    header has one and the record is long enough.
   */
  method RewriteRecord(record: seq<string>, headers: seq<string>, newValues: map<string, string>, indices: seq<nat>)
    returns (updated: seq<string>)
    ensures updated == Updated(record, headers, newValues, indices)
  {
    updated := record;
    var i := 0;
    while i < |indices|
      invariant 0 <= i <= |indices|
      invariant |updated| == |record|
      invariant forall j :: 0 <= j < |record| ==>
        updated[j] == if Assigned(headers, newValues, indices[..i], j) then newValues[headers[j]] else record[j]
    {
      var columnIndex := indices[i];
      if columnIndex < |headers| {
        var columnName := headers[columnIndex];
        if columnName in newValues {
          if columnIndex < |updated| {
            updated := updated[columnIndex := newValues[columnName]];
          }
        }
      }
      assert indices[..i + 1] == indices[..i] + [indices[i]];
      i := i + 1;
    }
    assert indices[..i] == indices;
  }

  /** What the rewrite makes of one record: the updated record when the filter selects it, else the record itself. */
  function Rewritten(record: seq<string>, hit: bool, headers: seq<string>, newValues: map<string, string>, indices: seq<nat>): seq<string> {
    if hit then Updated(record, headers, newValues, indices) else record
  }

  /**
    The record loop of `update_records`: the target positions are those of
    the assigned columns; every record is tested against the filter, and
    the first filter error aborts the whole update before anything is
    written.
   */
  method UpdateRecords(records: seq<seq<string>>, headers: seq<string>, newValues: map<string, string>, columns: seq<string>,
                       filter: Option<Ast.Expr>) returns (r: Result<seq<seq<string>>>)
    ensures r.Ok? <==> forall k :: 0 <= k < |records| ==> FilterChecker.ApplyFilters(FilterChecker.Record(records[k]), headers, filter).Ok?
    ensures r.Err? ==> exists k :: (0 <= k < |records|
      && FilterChecker.ApplyFilters(FilterChecker.Record(records[k]), headers, filter) == Err(r.error)
      && forall k' :: 0 <= k' < k ==> FilterChecker.ApplyFilters(FilterChecker.Record(records[k']), headers, filter).Ok?)
    ensures r.Ok? ==> |r.value| == |records|
    ensures r.Ok? ==> forall k :: 0 <= k < |records| ==>
      r.value[k] == Rewritten(records[k], FilterChecker.ApplyFilters(FilterChecker.Record(records[k]), headers, filter).value,
                              headers, newValues, SelectUtils.GetColumnIndices(headers, columns))
  {
    var indices := SelectUtils.GetColumnIndices(headers, columns);
    var rewritten: seq<seq<string>> := [];
    var k := 0;
    while k < |records|
      invariant 0 <= k <= |records|
      invariant |rewritten| == k
      invariant forall k' :: 0 <= k' < k ==> FilterChecker.ApplyFilters(FilterChecker.Record(records[k']), headers, filter).Ok?
      invariant forall k' :: 0 <= k' < k ==>
        rewritten[k'] == Rewritten(records[k'], FilterChecker.ApplyFilters(FilterChecker.Record(records[k']), headers, filter).value,
                                   headers, newValues, indices)
    {
      var isHit := FilterChecker.ApplyFilters(FilterChecker.Record(records[k]), headers, filter);
      if isHit.Err? {
        return Err(isHit.error);
      }
      var fields := records[k];
      if isHit.value {
        fields := RewriteRecord(records[k], headers, newValues, indices);
      }
      rewritten := rewritten + [fields];
      k := k + 1;
    }
    return Ok(rewritten);
  }

  /**
    Without a filter every record is updated; in any case a record the
    filter does not select is kept as it is.
   */
  lemma NoFilterUpdatesEveryRecord(records: seq<seq<string>>, headers: seq<string>, newValues: map<string, string>, columns: seq<string>,
                                   rewritten: seq<seq<string>>)
    requires |rewritten| == |records|
    requires forall k :: 0 <= k < |records| ==>
      rewritten[k] == Rewritten(records[k], FilterChecker.ApplyFilters(FilterChecker.Record(records[k]), headers, None).value,
                                headers, newValues, SelectUtils.GetColumnIndices(headers, columns))
    ensures forall k :: 0 <= k < |records| ==>
      rewritten[k] == Updated(records[k], headers, newValues, SelectUtils.GetColumnIndices(headers, columns))
  {
  }

  /**
    A position is among the known positions of some names exactly when it
    is the first position of a header that is one of the names.
   */
  lemma {:induction false} KnownPositionsMembership(headers: seq<string>, columns: seq<string>, j: nat)
    ensures j in SelectUtils.KnownPositions(headers, columns) <==>
      j < |headers| && headers[j] in columns && Seqs.IndexOf(headers, headers[j]) == Some(j)
  {
    if |columns| > 0 {
      KnownPositionsMembership(headers, columns[1..], j);
      var rest := SelectUtils.KnownPositions(headers, columns[1..]);
      assert forall c :: c in columns <==> c == columns[0] || c in columns[1..] by {
        assert columns == [columns[0]] + columns[1..];
      }
      match Seqs.IndexOf(headers, columns[0])
      case None =>
      case Some(p) =>
        assert SelectUtils.KnownPositions(headers, columns) == [p] + rest;
        if j < |headers| && Seqs.IndexOf(headers, headers[j]) == Some(j) && headers[j] == columns[0] {
          assert p == j;
        }
    }
  }

  /**
    Which fields an update changes, independently of the hash map's order:
    with the assigned names as targets, field `j` of a selected record is
    assigned exactly when its header has a new value and is the first
    header of that name — or any header of that name when `*` is itself
    an assigned name, which selects every position.
   */
  lemma AssignedFields(headers: seq<string>, entries: seq<(string, string)>, j: nat)
    requires DistinctKeys(entries)
    ensures var newValues := ToMap(entries);
      Assigned(headers, newValues, SelectUtils.GetColumnIndices(headers, Keys(entries)), j) <==>
        j < |headers| && headers[j] in newValues && ("*" in newValues || Seqs.IndexOf(headers, headers[j]) == Some(j))
  {
    KnownPositionsMembership(headers, Keys(entries), j);
  }

  // ---------------------------------------------------------------------------
  // The statement
  // ---------------------------------------------------------------------------

  /**
    `update_records` from the table name on: the table must be found, the
    update valid, and the header line readable (`FailedTableRead`
    otherwise); then the records are rewritten. The header fields are
    trimmed as read; `records` are the data rows the reader could parse.
   */
  method UpdateTable(db: Database, tableName: string, entries: seq<(string, string)>, filter: Option<Ast.Expr>,
                     headersRead: Result<seq<string>>, records: seq<seq<string>>,
                     parsesAsFloat: string -> bool, stores: ColumnConstraints.Stores) returns (r: Result<seq<seq<string>>>)
    requires DistinctKeys(entries)
    ensures Catalog.FindDatabaseTable(db, tableName).None? ==> r == Err(TableDoesNotExist(tableName))
    ensures ValidateUpdate(db, tableName, entries, parsesAsFloat, stores).Err? ==> r.Err?
    ensures ValidateUpdate(db, tableName, entries, parsesAsFloat, stores).Ok? && headersRead.Err? ==>
      r == Err(FailedTableRead(tableName))
    ensures r.Ok? ==> headersRead.Ok? && |r.value| == |records| && forall k :: 0 <= k < |records| ==>
      var hit := FilterChecker.ApplyFilters(FilterChecker.Record(records[k]), headersRead.value, filter);
      && hit.Ok?
      && (hit.value ==> r.value[k] == Updated(records[k], headersRead.value, ToMap(entries),
                                              SelectUtils.GetColumnIndices(headersRead.value, Keys(entries))))
      && (!hit.value ==> r.value[k] == records[k])
    ensures (&& ValidateUpdate(db, tableName, entries, parsesAsFloat, stores).Ok?
             && headersRead.Ok?
             && forall k :: 0 <= k < |records| ==> FilterChecker.ApplyFilters(FilterChecker.Record(records[k]), headersRead.value, filter).Ok?)
      ==> r.Ok?
  {
    var table := Catalog.FindDatabaseTable(db, tableName);
    if table.None? {
      return Err(TableDoesNotExist(tableName));
    }
    var valid := ValidateUpdate(db, tableName, entries, parsesAsFloat, stores);
    if valid.Err? {
      return Err(valid.error);
    }
    if headersRead.Err? {
      return Err(FailedTableRead(tableName));
    }
    r := UpdateRecords(records, headersRead.value, ToMap(entries), Keys(entries), filter);
  }
}
