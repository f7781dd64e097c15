/**
  Offset arithmetic for appended rows (offset_counter.rs). Inserted rows are
  written at the end of the data file; for every row the engine records
  where the next row starts, and for every field where its value starts.
  The reference definitions below state those positions through the data
  file layout of `DataFile`, so the round-trip lemmas connect the computed
  offsets with what the index reader finds there.
 */
module OffsetCounter {

  import opened Types
  import opened Bytes
  import opened DataFile
  import opened IndexReader
  import Seqs

  /** The values of one inserted row, in column order. */
  function RowValues(row: seq<InsertedRowColumn>): (values: seq<string>)
    ensures |values| == |row|
    ensures forall i :: 0 <= i < |row| ==> values[i] == row[i].value
  {
    seq(|row|, i requires 0 <= i < |row| => row[i].value)
  }

  /** The values of inserted rows, row by row. */
  function TableValues(rows: seq<seq<InsertedRowColumn>>): (table: seq<seq<string>>)
    ensures |table| == |rows|
    ensures forall k :: 0 <= k < |rows| ==> table[k] == RowValues(rows[k])
  {
    seq(|rows|, k requires 0 <= k < |rows| => RowValues(rows[k]))
  }

  /**
    Reference definition of the offset list of column `j` when `table` is
    appended at `eof`: one entry per row that has a field `j`, namely the
    row's start plus the field's offset inside the row.
   */
  function ColumnOffsets(table: seq<seq<string>>, eof: nat, j: nat): seq<nat> {
    if |table| == 0 then []
    else
      var before := table[..|table| - 1];
      var last := table[|table| - 1];
      ColumnOffsets(before, eof, j)
        + (if j < |last| then [eof + |RowsBytes(before)| + FieldOffset(last, j)] else [])
  }

  /** Unfolding the reference definition at row `i`: the row's own offset follows the earlier rows' ones. */
  lemma ColumnOffsetsStep(table: seq<seq<string>>, eof: nat, i: nat, j: nat)
    requires i < |table|
    ensures ColumnOffsets(table[..i + 1], eof, j)
      == ColumnOffsets(table[..i], eof, j) + (if j < |table[i]| then [eof + RowStart(table, i) + FieldOffset(table[i], j)] else [])
  {
    assert table[..i + 1][..i] == table[..i];
  }

  /** Laying out row `i` extends every column's offsets from the first `i` rows to the first `i + 1`. */
  lemma ColumnOffsetsExtend(table: seq<seq<string>>, eof: nat, i: nat, before: seq<seq<nat>>, after: seq<seq<nat>>)
    requires i < |table| && |after| == |before|
    requires forall j :: 0 <= j < |before| ==> before[j] == ColumnOffsets(table[..i], eof, j)
    requires forall j :: 0 <= j < |before| ==>
      after[j] == before[j] + (if j < |table[i]| then [eof + RowStart(table, i) + FieldOffset(table[i], j)] else [])
    ensures forall j :: 0 <= j < |after| ==> after[j] == ColumnOffsets(table[..i + 1], eof, j)
  {
    forall j | 0 <= j < |after|
      ensures after[j] == ColumnOffsets(table[..i + 1], eof, j)
    {
      var next := if j < |table[i]| then [eof + RowStart(table, i) + FieldOffset(table[i], j)] else [];
      assert after[j] == ColumnOffsets(table[..i], eof, j) + next;
      ColumnOffsetsStep(table, eof, i, j);
    }
  }

  /**
    `compute_insertion_offsets`: for rows appended at `eof`, the offset list
    of every column and the end offset of every row. Each row occupies its
    field bytes, a comma between adjacent fields and a newline.
   */
  method ComputeInsertionOffsets(rows: seq<seq<InsertedRowColumn>>, eof: nat, numberOfColumns: nat)
    returns (columnOffsets: seq<seq<nat>>, rowOffsets: seq<nat>)
    requires forall k :: 0 <= k < |rows| ==> |rows[k]| <= numberOfColumns
    ensures |columnOffsets| == numberOfColumns
    ensures |rowOffsets| == |rows|
    ensures forall k :: 0 <= k < |rows| ==> rowOffsets[k] == eof + RowStart(TableValues(rows), k + 1)
    ensures |rows| > 0 ==> rowOffsets[|rows| - 1] == eof + |RowsBytes(TableValues(rows))|
    ensures forall j :: 0 <= j < numberOfColumns ==> columnOffsets[j] == ColumnOffsets(TableValues(rows), eof, j)
  {
    ghost var table := TableValues(rows);
    var currentOffset := eof;
    rowOffsets := [];
    columnOffsets := seq(numberOfColumns, _ => []);
    var i := 0;
    while i < |rows|
      invariant 0 <= i <= |rows|
      invariant |columnOffsets| == numberOfColumns
      invariant |rowOffsets| == i
      invariant currentOffset == eof + RowStart(table, i)
      invariant forall k :: 0 <= k < i ==> rowOffsets[k] == eof + RowStart(table, k + 1)
      invariant forall j :: 0 <= j < numberOfColumns ==> columnOffsets[j] == ColumnOffsets(table[..i], eof, j)
    {
      var rowByteLength;
      ghost var before := columnOffsets;
      columnOffsets, rowByteLength := LayOutRow(columnOffsets, currentOffset, rows[i]);
      assert table[i] == RowValues(rows[i]);
      ColumnOffsetsExtend(table, eof, i, before, columnOffsets);
      assert currentOffset + rowByteLength == eof + RowStart(table, i + 1) by {
        RowStartStep(table, i);
      }
      currentOffset := currentOffset + rowByteLength;
      ghost var earlier := rowOffsets;
      rowOffsets := rowOffsets + [currentOffset];
      forall k | 0 <= k < i + 1
        ensures rowOffsets[k] == eof + RowStart(table, k + 1)
      {
        if k < i {
          assert rowOffsets[k] == earlier[k];
        }
      }
      i := i + 1;
    }
    assert table[..|rows|] == table;
  }

  /**
    The inner loop of `compute_insertion_offsets`: pushes the offset of each
    field of one row starting at `rowStart` onto its column's list and
    returns the row's byte length.
   */
  method LayOutRow(columnOffsets: seq<seq<nat>>, rowStart: nat, row: seq<InsertedRowColumn>)
    returns (updated: seq<seq<nat>>, rowByteLength: nat)
    requires |row| <= |columnOffsets|
    ensures |updated| == |columnOffsets|
    ensures rowByteLength == |RowBytes(RowValues(row))|
    ensures forall j :: 0 <= j < |columnOffsets| ==>
      updated[j] == columnOffsets[j] + (if j < |row| then [rowStart + FieldOffset(RowValues(row), j)] else [])
  {
    ghost var values := RowValues(row);
    updated := columnOffsets;
    rowByteLength := 0;
    var c := 0;
    while c < |row|
      invariant 0 <= c <= |row|
      invariant |updated| == |columnOffsets|
      invariant rowByteLength + (if c > 0 then 1 else 0) == FieldOffset(values, c)
      invariant forall j :: 0 <= j < |columnOffsets| ==>
        updated[j] == columnOffsets[j] + (if j < c then [rowStart + FieldOffset(values, j)] else [])
    {
      if c > 0 {
        rowByteLength := rowByteLength + 1;
      }
      updated := updated[c := updated[c] + [rowStart + rowByteLength]];
      FieldOffsetStep(values, c);
      rowByteLength := rowByteLength + |Utf8(row[c].value)|;
      c := c + 1;
    }
    rowByteLength := rowByteLength + 1;
    RowLength(values);
  }

  /** `compute_headers_offset`: the byte length of the comma-joined column names plus one. */
  function ComputeHeadersOffset(schema: TableSchema): (offset: nat)
    ensures offset == |RowBytes(ColumnNames(schema.columns))|
    ensures offset >= 1
    ensures |schema.columns| == 0 ==> offset == 1
  {
    JoinFieldsEncodesJoin(ColumnNames(schema.columns));
    |Utf8(Seqs.Join(ColumnNames(schema.columns), ","))| + 1
  }

  /** The column names in declaration order. */
  function ColumnNames(columns: seq<Column>): (names: seq<string>)
    ensures |names| == |columns|
    ensures forall i :: 0 <= i < |columns| ==> names[i] == columns[i].name
  {
    seq(|columns|, i requires 0 <= i < |columns| => columns[i].name)
  }

  /** Rows are laid out one after the other: a later row starts strictly after an earlier one. */
  lemma {:induction false} RowStartsIncrease(table: seq<seq<string>>, k1: nat, k2: nat)
    requires k1 < k2 <= |table|
    ensures RowStart(table, k1) < RowStart(table, k2)
    decreases k2
  {
    RowStartStep(table, k2 - 1);
    if k1 < k2 - 1 {
      RowStartsIncrease(table, k1, k2 - 1);
    }
  }

  /** The row offsets the engine appends strictly increase. */
  lemma RowOffsetsIncrease(rows: seq<seq<InsertedRowColumn>>, eof: nat, rowOffsets: seq<nat>, k1: nat, k2: nat)
    requires |rowOffsets| == |rows|
    requires forall k :: 0 <= k < |rows| ==> rowOffsets[k] == eof + RowStart(TableValues(rows), k + 1)
    requires k1 < k2 < |rows|
    ensures eof < rowOffsets[k1] < rowOffsets[k2]
  {
    RowStartsIncrease(TableValues(rows), k1 + 1, k2 + 1);
    RowStartsIncrease(TableValues(rows), 0, k1 + 1);
  }

  /** When every row has field `j`, column `j` gets exactly one offset per row, in row order. */
  lemma {:induction false} ColumnOffsetsOfCompleteRows(table: seq<seq<string>>, eof: nat, j: nat)
    requires forall k :: 0 <= k < |table| ==> j < |table[k]|
    ensures |ColumnOffsets(table, eof, j)| == |table|
    ensures forall k :: 0 <= k < |table| ==> ColumnOffsets(table, eof, j)[k] == eof + RowStart(table, k) + FieldOffset(table[k], j)
  {
    if |table| > 0 {
      var before := table[..|table| - 1];
      ColumnOffsetsOfCompleteRows(before, eof, j);
      forall k | 0 <= k < |table|
        ensures ColumnOffsets(table, eof, j)[k] == eof + RowStart(table, k) + FieldOffset(table[k], j)
      {
        if k < |table| - 1 {
          assert before[k] == table[k];
          assert before[..k] == table[..k];
        } else {
          assert before == table[..k];
        }
      }
    }
  }

  /** Every column offset lies inside the appended bytes: before the end offset of the last row. */
  lemma {:induction false} ColumnOffsetsBounded(table: seq<seq<string>>, eof: nat, j: nat, i: nat)
    requires i < |ColumnOffsets(table, eof, j)|
    ensures eof <= ColumnOffsets(table, eof, j)[i] < eof + |RowsBytes(table)|
  {
    var before := table[..|table| - 1];
    var last := table[|table| - 1];
    RowStartStep(table, |table| - 1);
    assert table[..|table|] == table;
    if i < |ColumnOffsets(before, eof, j)| {
      ColumnOffsetsBounded(before, eof, j, i);
    } else {
      FieldOffsetStep(last, j);
      RowLength(last);
      FieldOffsetMonotone(last, j + 1, |last|);
    }
  }

  lemma {:induction false} FieldOffsetMonotone(fields: seq<string>, a: nat, b: nat)
    requires a <= b <= |fields|
    ensures FieldOffset(fields, a) <= FieldOffset(fields, b)
    decreases b - a
  {
    if a < b {
      FieldOffsetStep(fields, a);
      FieldOffsetMonotone(fields, a + 1, b);
    }
  }

  /**
    The round trip of the index: when plain rows are appended to a file whose
    length is the anchor `eof`, reading the file at the `k`-th offset of
    column `j` yields the `k`-th row's value of that column.
   */
  lemma ColumnOffsetRoundTrip(prefix: seq<byte>, rows: seq<seq<InsertedRowColumn>>, j: nat, k: nat)
    requires PlainRows(TableValues(rows))
    requires forall r :: 0 <= r < |rows| ==> j < |rows[r]|
    requires k < |rows|
    ensures k < |ColumnOffsets(TableValues(rows), |prefix|, j)|
    ensures ReadField(prefix + RowsBytes(TableValues(rows)), ColumnOffsets(TableValues(rows), |prefix|, j)[k]) == Utf8(rows[k][j].value)
  {
    var table := TableValues(rows);
    assert j < |table[k]| && table[k][j] == rows[k][j].value;
    var offset := |prefix| + RowStart(table, k) + FieldOffset(table[k], j);
    assert |ColumnOffsets(table, |prefix|, j)| == |table| && ColumnOffsets(table, |prefix|, j)[k] == offset by {
      forall r | 0 <= r < |table|
        ensures j < |table[r]|
      {
        assert table[r] == RowValues(rows[r]);
      }
      ColumnOffsetsOfCompleteRows(table, |prefix|, j);
    }
    assert ReadField(prefix + RowsBytes(table), offset) == Utf8(table[k][j]) by {
      ReadFieldInFile(prefix, table, k, j);
    }
  }
}
