/**
  Reading the flat data file through offsets (index_reader.rs). The file is
  a byte sequence; a read at an offset seeks there and collects bytes one
  at a time until a stop byte or the end of the file.
 */
module IndexReader {

  import opened Bytes
  import opened Wrappers
  import opened Types
  import Navigator

  /** The reserved column name under which the row index is stored. */
  const RowOffsetsKey: string := "row_offsets"

  /** The file `read_rows_index` opens: the column-index path of the reserved name. */
  function RowsIndexPath(root: string, schemaName: string, tableName: string): (p: string)
    ensures p == Navigator.TableRowIndexPath(root, schemaName, tableName)
  {
    Navigator.RowIndexPathIsReservedColumnPath(root, schemaName, tableName);
    Navigator.TableIndexPath(root, schemaName, tableName, RowOffsetsKey)
  }

  /**
    The index files of one table: the row index (absent until created) and
    the column indexes, keyed by the column name in their file name.
   */
  datatype TableIndexes = TableIndexes(rows: Option<RowsIndex>, columns: map<string, Index>)

  /** `read_rows_index`: a missing file is an I/O error. */
  function ReadRowsIndex(store: TableIndexes): (r: Result<RowsIndex>)
    ensures r.Ok? <==> store.rows.Some?
    ensures r.Ok? ==> r.value == store.rows.value
    ensures r.Err? ==> r.error == IOError
  {
    match store.rows
    case Some(index) => Ok(index)
    case None => Err(IOError)
  }

  /** `read_column_index`: the index file named after the column; a missing file is an I/O error. */
  function ReadColumnIndex(store: TableIndexes, columnName: string): (r: Result<Index>)
    ensures r.Ok? <==> columnName in store.columns
    ensures r.Ok? ==> r.value == store.columns[columnName]
    ensures r.Err? ==> r.error == IOError
  {
    if columnName in store.columns then Ok(store.columns[columnName]) else Err(IOError)
  }

  /**
    The value read at `offset` by `get_column_values_from_index`: the bytes
    from the offset up to (excluding) the first ',' or '\n', or to the end of
    the file.
   */
  function ReadField(data: seq<byte>, offset: nat): seq<byte>
    decreases |data| - offset
  {
    if offset >= |data| || IsDelimiter(data[offset]) then []
    else [data[offset]] + ReadField(data, offset + 1)
  }

  /** The line read at `offset` by `get_rows_from_row_offsets`: bytes up to (excluding) the next '\n' or the end. */
  function ReadLine(data: seq<byte>, offset: nat): seq<byte>
    decreases |data| - offset
  {
    if offset >= |data| || data[offset] == Newline then []
    else [data[offset]] + ReadLine(data, offset + 1)
  }

  /** A field read returns the maximal delimiter-free run of the file that starts at the offset. */
  lemma {:induction false} ReadFieldIsMaximalRun(data: seq<byte>, offset: nat)
    ensures offset >= |data| ==> ReadField(data, offset) == []
    ensures offset < |data| ==> offset + |ReadField(data, offset)| <= |data|
    ensures offset < |data| ==> ReadField(data, offset) == data[offset..offset + |ReadField(data, offset)|]
    ensures forall i :: 0 <= i < |ReadField(data, offset)| ==> !IsDelimiter(ReadField(data, offset)[i])
    ensures offset + |ReadField(data, offset)| < |data| ==> IsDelimiter(data[offset + |ReadField(data, offset)|])
    decreases |data| - offset
  {
    if offset < |data| && !IsDelimiter(data[offset]) {
      ReadFieldIsMaximalRun(data, offset + 1);
    }
  }

  /** A line read returns the maximal newline-free run of the file that starts at the offset. */
  lemma {:induction false} ReadLineIsMaximalRun(data: seq<byte>, offset: nat)
    ensures offset >= |data| ==> ReadLine(data, offset) == []
    ensures offset < |data| ==> offset + |ReadLine(data, offset)| <= |data|
    ensures offset < |data| ==> ReadLine(data, offset) == data[offset..offset + |ReadLine(data, offset)|]
    ensures forall i :: 0 <= i < |ReadLine(data, offset)| ==> ReadLine(data, offset)[i] != Newline
    ensures offset + |ReadLine(data, offset)| < |data| ==> data[offset + |ReadLine(data, offset)|] == Newline
    decreases |data| - offset
  {
    if offset < |data| && data[offset] != Newline {
      ReadLineIsMaximalRun(data, offset + 1);
    }
  }

  /** `get_column_values_from_index`: one value per offset, in offset order, each byte read as a character. */
  function GetColumnValuesFromIndex(data: seq<byte>, offsets: seq<nat>): (values: seq<string>)
    ensures |values| == |offsets|
    ensures forall i :: 0 <= i < |offsets| ==> |values[i]| == |ReadField(data, offsets[i])|
    ensures forall i :: 0 <= i < |offsets| && offsets[i] >= |data| ==> values[i] == ""
  {
    seq(|offsets|, i requires 0 <= i < |offsets| => Latin1(ReadField(data, offsets[i])))
  }

  /** No value read through a column index contains a delimiter character. */
  lemma ColumnValuesHaveNoDelimiter(data: seq<byte>, offsets: seq<nat>, i: nat, k: nat)
    requires i < |offsets|
    requires k < |GetColumnValuesFromIndex(data, offsets)[i]|
    ensures GetColumnValuesFromIndex(data, offsets)[i][k] != ','
    ensures GetColumnValuesFromIndex(data, offsets)[i][k] != '\n'
  {
    ReadFieldIsMaximalRun(data, offsets[i]);
  }

  /** `get_rows_from_row_offsets`: one line per offset, without its newline. */
  function GetRowsFromRowOffsets(data: seq<byte>, offsets: seq<nat>): (rows: seq<string>)
    ensures |rows| == |offsets|
    ensures forall i :: 0 <= i < |offsets| && offsets[i] >= |data| ==> rows[i] == ""
  {
    seq(|offsets|, i requires 0 <= i < |offsets| => Latin1(ReadLine(data, offsets[i])))
  }

  /** What precedes the read position does not matter. */
  lemma {:induction false} ReadFieldShift(p: seq<byte>, q: seq<byte>, i: nat)
    ensures ReadField(p + q, |p| + i) == ReadField(q, i)
    decreases |q| - i
  {
    if i < |q| {
      assert (p + q)[|p| + i] == q[i];
      if !IsDelimiter(q[i]) {
        ReadFieldShift(p, q, i + 1);
      }
    }
  }

  /** A read from inside a delimiter-free run stops at the delimiter that ends it. */
  lemma {:induction false} ReadFieldStops(a: seq<byte>, d: byte, rest: seq<byte>, i: nat)
    requires i <= |a|
    requires forall k :: 0 <= k < |a| ==> !IsDelimiter(a[k])
    requires IsDelimiter(d)
    ensures ReadField(a + [d] + rest, i) == a[i..]
    decreases |a| - i
  {
    var data := a + [d] + rest;
    if i == |a| {
      assert data[i] == d;
    } else {
      assert data[i] == a[i];
      ReadFieldStops(a, d, rest, i + 1);
      assert a[i..] == [a[i]] + a[i + 1..];
    }
  }

  /** Line reads ignore what precedes the read position. */
  lemma {:induction false} ReadLineShift(p: seq<byte>, q: seq<byte>, i: nat)
    ensures ReadLine(p + q, |p| + i) == ReadLine(q, i)
    decreases |q| - i
  {
    if i < |q| {
      assert (p + q)[|p| + i] == q[i];
      if q[i] != Newline {
        ReadLineShift(p, q, i + 1);
      }
    }
  }

  /** A line read from inside a newline-free run stops at the newline that ends it. */
  lemma {:induction false} ReadLineStops(a: seq<byte>, rest: seq<byte>, i: nat)
    requires i <= |a|
    requires forall k :: 0 <= k < |a| ==> a[k] != Newline
    ensures ReadLine(a + [Newline] + rest, i) == a[i..]
    decreases |a| - i
  {
    var data := a + [Newline] + rest;
    if i == |a| {
      assert data[i] == Newline;
    } else {
      assert data[i] == a[i];
      ReadLineStops(a, rest, i + 1);
      assert a[i..] == [a[i]] + a[i + 1..];
    }
  }
}
