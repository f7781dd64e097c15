/**
  The layout of the flat data file: every row is its field values,
  UTF-8 encoded, joined by ',' and terminated by '\n' (what the CSV writer
  produces for fields that need no quoting). The lemmas show that a read at
  a field's computed offset returns that field.
 */
module DataFile {

  import opened Bytes
  import opened IndexReader
  import Seqs

  /** The byte offset of field `j` inside its row: every earlier field's byte length plus one comma per earlier field. */
  function FieldOffset(fields: seq<string>, j: nat): nat
    requires j <= |fields|
  {
    if j == 0 then 0 else |Utf8(fields[0])| + 1 + FieldOffset(fields[1..], j - 1)
  }

  /** The total byte length of the fields. */
  function SumLengths(fields: seq<string>): nat {
    if |fields| == 0 then 0 else |Utf8(fields[0])| + SumLengths(fields[1..])
  }

  /** The fields joined by commas. */
  function JoinFields(fields: seq<string>): seq<byte> {
    if |fields| == 0 then []
    else if |fields| == 1 then Utf8(fields[0])
    else Utf8(fields[0]) + [Comma] + JoinFields(fields[1..])
  }

  /** The joined bytes are the encoding of the comma-joined text, as the CSV writer and the header writer produce it. */
  lemma {:induction false} JoinFieldsEncodesJoin(fields: seq<string>)
    ensures JoinFields(fields) == Utf8(Seqs.Join(fields, ","))
  {
    if |fields| > 1 {
      JoinFieldsEncodesJoin(fields[1..]);
      Utf8Append(fields[0] + ",", Seqs.Join(fields[1..], ","));
      Utf8Append(fields[0], ",");
      assert Utf8(",") == [Comma];
    }
  }

  /** One serialized row: the joined fields and a newline. */
  function RowBytes(fields: seq<string>): seq<byte> {
    JoinFields(fields) + [Newline]
  }

  /** Rows serialized one after the other. */
  function RowsBytes(rows: seq<seq<string>>): seq<byte> {
    if |rows| == 0 then [] else RowBytes(rows[0]) + RowsBytes(rows[1..])
  }

  /** A row whose fields all fit the unquoted format. */
  predicate PlainRow(fields: seq<string>) {
    forall i :: 0 <= i < |fields| ==> IsPlainField(fields[i])
  }

  predicate PlainRows(rows: seq<seq<string>>) {
    forall k :: 0 <= k < |rows| ==> PlainRow(rows[k])
  }

  /** Where row `k` starts, counted from the first data row. */
  function RowStart(rows: seq<seq<string>>, k: nat): nat
    requires k <= |rows|
  {
    |RowsBytes(rows[..k])|
  }

  /** The offset rule in closed form: the sum of the earlier fields' byte lengths plus `j` commas. */
  lemma {:induction false} FieldOffsetIsSum(fields: seq<string>, j: nat)
    requires j <= |fields|
    ensures FieldOffset(fields, j) == SumLengths(fields[..j]) + j
  {
    if j > 0 {
      FieldOffsetIsSum(fields[1..], j - 1);
      assert fields[1..][..j - 1] == fields[..j][1..];
    }
  }

  /** Stepping from field `j` to field `j + 1` skips field `j`'s bytes and one comma. */
  lemma {:induction false} FieldOffsetStep(fields: seq<string>, j: nat)
    requires j < |fields|
    ensures FieldOffset(fields, j + 1) == FieldOffset(fields, j) + |Utf8(fields[j])| + 1
  {
    if j > 0 {
      FieldOffsetStep(fields[1..], j - 1);
    }
  }

  /** A row's length: its field bytes, one comma between adjacent fields, and the newline. */
  lemma {:induction false} RowLength(fields: seq<string>)
    ensures |RowBytes(fields)| == SumLengths(fields) + (if |fields| == 0 then 0 else |fields| - 1) + 1
    ensures |fields| > 0 ==> |RowBytes(fields)| == FieldOffset(fields, |fields|)
  {
    if |fields| > 1 {
      RowLength(fields[1..]);
    }
  }

  /** Serializing a concatenation of row lists concatenates their serializations. */
  lemma {:induction false} RowsBytesAppend(a: seq<seq<string>>, b: seq<seq<string>>)
    ensures RowsBytes(a + b) == RowsBytes(a) + RowsBytes(b)
  {
    if |a| > 0 {
      assert (a + b)[1..] == a[1..] + b;
      RowsBytesAppend(a[1..], b);
    } else {
      assert a + b == b;
    }
  }

  /** The bytes before row `k + 1` are those before row `k` followed by row `k`. */
  lemma RowStartStep(rows: seq<seq<string>>, k: nat)
    requires k < |rows|
    ensures RowsBytes(rows[..k + 1]) == RowsBytes(rows[..k]) + RowBytes(rows[k])
    ensures RowStart(rows, k + 1) == RowStart(rows, k) + |RowBytes(rows[k])|
  {
    assert rows[..k + 1] == rows[..k] + [rows[k]];
    RowsBytesAppend(rows[..k], [rows[k]]);
    assert RowsBytes([rows[k]]) == RowBytes(rows[k]) + RowsBytes([]);
  }

  /** The file seen from row `k` on: row `k` followed by the remaining rows. */
  lemma RowsBytesSplit(rows: seq<seq<string>>, k: nat)
    requires k < |rows|
    ensures RowsBytes(rows) == RowsBytes(rows[..k]) + RowBytes(rows[k]) + RowsBytes(rows[k + 1..])
  {
    assert rows == rows[..k] + rows[k..];
    RowsBytesAppend(rows[..k], rows[k..]);
    assert rows[k..][1..] == rows[k + 1..];
  }

  /** The comma-joined plain fields contain no newline. */
  lemma {:induction false} JoinFieldsHasNoNewline(fields: seq<string>)
    requires PlainRow(fields)
    ensures forall i :: 0 <= i < |JoinFields(fields)| ==> JoinFields(fields)[i] != Newline
  {
    if |fields| > 0 {
      PlainFieldHasNoDelimiter(fields[0]);
      if |fields| > 1 {
        JoinFieldsHasNoNewline(fields[1..]);
      }
    }
  }

  /** Round trip within a row: reading at field `j`'s offset yields field `j`'s bytes. */
  lemma {:induction false} ReadFieldInRow(fields: seq<string>, j: nat, rest: seq<byte>)
    requires PlainRow(fields)
    requires j < |fields|
    ensures ReadField(RowBytes(fields) + rest, FieldOffset(fields, j)) == Utf8(fields[j])
  {
    if j == 0 {
      ReadFirstField(fields, rest);
    } else {
      assert PlainRow(fields[1..]) by {
        forall i | 0 <= i < |fields[1..]| ensures IsPlainField(fields[1..][i]) {
          assert fields[1..][i] == fields[i + 1];
        }
      }
      ReadFieldInRow(fields[1..], j - 1, rest);
      assert fields[1..][j - 1] == fields[j];
      ReadLaterField(fields, j, rest);
    }
  }

  /** The first field of a row is read up to the comma or newline that ends it. */
  lemma ReadFirstField(fields: seq<string>, rest: seq<byte>)
    requires |fields| > 0 && IsPlainField(fields[0])
    ensures ReadField(RowBytes(fields) + rest, 0) == Utf8(fields[0])
  {
    var head := Utf8(fields[0]);
    PlainFieldHasNoDelimiter(fields[0]);
    if |fields| == 1 {
      assert RowBytes(fields) + rest == head + [Newline] + rest;
      ReadFieldStops(head, Newline, rest, 0);
    } else {
      var tail := RowBytes(fields[1..]) + rest;
      assert RowBytes(fields) + rest == head + [Comma] + tail;
      ReadFieldStops(head, Comma, tail, 0);
    }
    assert head[0..] == head;
  }

  /** A later field of a row is read where it is read in the row without its first field. */
  lemma ReadLaterField(fields: seq<string>, j: nat, rest: seq<byte>)
    requires 0 < j < |fields|
    requires ReadField(RowBytes(fields[1..]) + rest, FieldOffset(fields[1..], j - 1)) == Utf8(fields[j])
    ensures ReadField(RowBytes(fields) + rest, FieldOffset(fields, j)) == Utf8(fields[j])
  {
    var head := Utf8(fields[0]);
    var tail := RowBytes(fields[1..]) + rest;
    assert RowBytes(fields) + rest == head + [Comma] + tail;
    ReadFieldAt(RowBytes(fields) + rest, FieldOffset(fields, j), head + [Comma], tail, FieldOffset(fields[1..], j - 1), Utf8(fields[j]));
  }

  /** Round trip of a whole row: reading a line at the row's start yields the joined fields. */
  lemma ReadLineOfRow(fields: seq<string>, rest: seq<byte>)
    requires PlainRow(fields)
    ensures ReadLine(RowBytes(fields) + rest, 0) == JoinFields(fields)
  {
    JoinFieldsHasNoNewline(fields);
    ReadLineStops(JoinFields(fields), rest, 0);
  }

  /**
    Round trip in a data file: whatever precedes the rows (the header), a
    read at `prefix length + row start + field offset` yields the field.
   */
  lemma ReadFieldInFile(prefix: seq<byte>, rows: seq<seq<string>>, k: nat, j: nat)
    requires PlainRows(rows)
    requires k < |rows| && j < |rows[k]|
    ensures ReadField(prefix + RowsBytes(rows), |prefix| + RowStart(rows, k) + FieldOffset(rows[k], j)) == Utf8(rows[k][j])
  {
    var before := prefix + RowsBytes(rows[..k]);
    var rest := RowsBytes(rows[k + 1..]);
    FileAroundRow(prefix, rows, k);
    ReadFieldInRow(rows[k], j, rest);
    ReadFieldAt(prefix + RowsBytes(rows), |prefix| + RowStart(rows, k) + FieldOffset(rows[k], j),
                before, RowBytes(rows[k]) + rest, FieldOffset(rows[k], j), Utf8(rows[k][j]));
  }

  /** Line round trip in a data file: a line read at a row's start yields that row's joined fields. */
  lemma ReadLineInFile(prefix: seq<byte>, rows: seq<seq<string>>, k: nat)
    requires PlainRows(rows)
    requires k < |rows|
    ensures ReadLine(prefix + RowsBytes(rows), |prefix| + RowStart(rows, k)) == JoinFields(rows[k])
  {
    var before := prefix + RowsBytes(rows[..k]);
    var rest := RowsBytes(rows[k + 1..]);
    FileAroundRow(prefix, rows, k);
    ReadLineOfRow(rows[k], rest);
    ReadLineAfter(before, RowBytes(rows[k]) + rest, JoinFields(rows[k]));
    assert ReadLine(before + (RowBytes(rows[k]) + rest), |before|) == JoinFields(rows[k]);
    assert prefix + RowsBytes(rows) == before + (RowBytes(rows[k]) + rest);
    assert |prefix| + RowStart(rows, k) == |before|;
  }

  /** A file with a header, seen around row `k`: everything before the row, the row, everything after it. */
  lemma FileAroundRow(prefix: seq<byte>, rows: seq<seq<string>>, k: nat)
    requires k < |rows|
    ensures prefix + RowsBytes(rows) == (prefix + RowsBytes(rows[..k])) + (RowBytes(rows[k]) + RowsBytes(rows[k + 1..]))
    ensures |prefix + RowsBytes(rows[..k])| == |prefix| + RowStart(rows, k)
  {
    RowsBytesSplit(rows, k);
    SeqAssoc(prefix, RowsBytes(rows[..k]), RowBytes(rows[k]), RowsBytes(rows[k + 1..]));
  }

  /** A field read at an offset inside bytes that follow `before` reads those bytes. */
  lemma ReadFieldAt(data: seq<byte>, offset: nat, before: seq<byte>, after: seq<byte>, inAfter: nat, field: seq<byte>)
    requires data == before + after
    requires offset == |before| + inAfter
    requires ReadField(after, inAfter) == field
    ensures ReadField(data, offset) == field
  {
    ReadFieldShift(before, after, inAfter);
  }

  /** A line read at the start of some bytes is unaffected by bytes placed in front. */
  lemma ReadLineAfter(before: seq<byte>, data: seq<byte>, line: seq<byte>)
    requires ReadLine(data, 0) == line
    ensures ReadLine(before + data, |before|) == line
  {
    ReadLineShift(before, data, 0);
  }

  lemma SeqAssoc(a: seq<byte>, b: seq<byte>, c: seq<byte>, d: seq<byte>)
    ensures a + (b + c + d) == (a + b) + (c + d)
  {
  }

  /** Comma-joining ASCII fields gives ASCII text. */
  lemma {:induction false} JoinOfAsciiIsAscii(fields: seq<string>)
    requires forall j :: 0 <= j < |fields| ==> IsAscii(fields[j])
    ensures IsAscii(Seqs.Join(fields, ","))
  {
    if |fields| > 1 {
      JoinOfAsciiIsAscii(fields[1..]);
      var rest := Seqs.Join(fields[1..], ",");
      var joined := fields[0] + "," + rest;
      forall i | 0 <= i < |joined|
        ensures joined[i] as int < 0x80
      {
        if i < |fields[0]| {
          assert joined[i] == fields[0][i];
        } else if i == |fields[0]| {
          assert joined[i] == ',';
        } else {
          assert joined[i] == rest[i - |fields[0]| - 1];
        }
      }
    }
  }

  /**
    Line round trip for ASCII rows: the line read at a row's start, decoded
    byte by byte, is the row's comma-joined text.
   */
  lemma ReadLineOfAsciiRow(prefix: seq<byte>, rows: seq<seq<string>>, k: nat)
    requires PlainRows(rows)
    requires k < |rows|
    requires forall j :: 0 <= j < |rows[k]| ==> IsAscii(rows[k][j])
    ensures Latin1(ReadLine(prefix + RowsBytes(rows), |prefix| + RowStart(rows, k))) == Seqs.Join(rows[k], ",")
  {
    ReadLineInFile(prefix, rows, k);
    JoinFieldsEncodesJoin(rows[k]);
    JoinOfAsciiIsAscii(rows[k]);
    AsciiRoundTrip(Seqs.Join(rows[k], ","));
  }
}
