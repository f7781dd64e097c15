/**
  Resolution of the projected column names to header positions
  (select/utils.rs), and the projection of a read record onto them.
 */
module SelectUtils {

  import opened Wrappers
  import Seqs
  import FilterChecker

  /** The header positions `0, 1, ..., n - 1`. */
  function AllPositions(n: nat): (r: seq<nat>)
    ensures |r| == n
    ensures forall i :: 0 <= i < n ==> r[i] == i
  {
    seq(n, i requires 0 <= i < n => i)
  }

  /**
    `filter_map(|col| headers.iter().position(...))`: the first header
    position of every requested name, in request order; unknown names are
    dropped.
   */
  function KnownPositions(headers: seq<string>, columns: seq<string>): (r: seq<nat>)
    ensures |r| <= |columns|
    ensures forall k :: 0 <= k < |r| ==> r[k] < |headers| && headers[r[k]] in columns
  {
    if |columns| == 0 then []
    else
      var rest := KnownPositions(headers, columns[1..]);
      assert forall k :: 0 <= k < |rest| ==> headers[rest[k]] in columns[1..];
      match Seqs.IndexOf(headers, columns[0])
      case None => rest
      case Some(p) => [p] + rest
  }

  /**
    `get_column_indices`: a `*` anywhere selects every header position in
    order; otherwise the known names' first positions.
   */
  function GetColumnIndices(headers: seq<string>, columns: seq<string>): (r: seq<nat>)
    ensures forall k :: 0 <= k < |r| ==> r[k] < |headers|
    ensures "*" in columns ==> r == AllPositions(|headers|)
    ensures "*" !in columns ==> r == KnownPositions(headers, columns)
  {
    if "*" in columns then AllPositions(|headers|) else KnownPositions(headers, columns)
  }

  /**
    Unknown names only drop out: the positions are those of the known
    names, kept in request order.
   */
  lemma {:induction false} KnownPositionsOfKnownNames(headers: seq<string>, columns: seq<string>)
    ensures KnownPositions(headers, columns) == KnownPositions(headers, Seqs.Filter(columns, (c: string) => c in headers))
  {
    if |columns| > 0 {
      KnownPositionsOfKnownNames(headers, columns[1..]);
      var known := (c: string) => c in headers;
      if columns[0] in headers {
        var filtered := Seqs.Filter(columns, known);
        assert filtered == [columns[0]] + Seqs.Filter(columns[1..], known);
        assert filtered[1..] == Seqs.Filter(columns[1..], known);
      }
    }
  }

  /**
    When every requested name is a header, there is one position per name
    and it is the name's first header position.
   */
  lemma {:induction false} KnownPositionsExact(headers: seq<string>, columns: seq<string>)
    requires forall k :: 0 <= k < |columns| ==> columns[k] in headers
    ensures |KnownPositions(headers, columns)| == |columns|
    ensures forall k :: 0 <= k < |columns| ==>
      Seqs.IndexOf(headers, columns[k]) == Some(KnownPositions(headers, columns)[k])
  {
    if |columns| > 0 {
      KnownPositionsExact(headers, columns[1..]);
      var r := KnownPositions(headers, columns);
      forall k | 1 <= k < |columns|
        ensures Seqs.IndexOf(headers, columns[k]) == Some(r[k])
      {
        assert columns[k] == columns[1..][k - 1];
      }
    }
  }

  // ---------------------------------------------------------------------------
  // Projection of a read record
  // ---------------------------------------------------------------------------

  /**
    A line of the data file read as a record: the text between commas.
    Fields hold no quoting here (see `DataFile.PlainRows`), so this is what
    the CSV reader gives for the line.
   */
  function SplitFields(line: string): (fields: seq<string>)
    ensures |fields| >= 1
    ensures forall k :: 0 <= k < |fields| ==> ',' !in fields[k]
    decreases |line|
  {
    match Seqs.IndexOf(line, ',')
    case None => [line]
    case Some(p) => [line[..p]] + SplitFields(line[p + 1..])
  }

  /** Splitting `a + "," + b`, with no comma in `a`, cuts `a` off first. */
  lemma SplitAtFirstComma(a: string, b: string)
    requires ',' !in a
    ensures SplitFields(a + "," + b) == [a] + SplitFields(b)
  {
    var line := a + "," + b;
    assert line[|a|] == ',';
    assert Seqs.IndexOf(line, ',') == Some(|a|);
    assert line[..|a|] == a;
    assert line[|a| + 1..] == b;
  }

  /** Splitting the comma-joined fields gives the fields back. */
  lemma {:induction false} SplitJoinRoundTrip(fields: seq<string>)
    requires |fields| >= 1
    requires forall k :: 0 <= k < |fields| ==> ',' !in fields[k]
    ensures SplitFields(Seqs.Join(fields, ",")) == fields
  {
    if |fields| > 1 {
      SplitAtFirstComma(fields[0], Seqs.Join(fields[1..], ","));
      SplitJoinRoundTrip(fields[1..]);
      assert fields == [fields[0]] + fields[1..];
    }
  }

  /** Joining the split fields with commas gives the line back. */
  lemma {:induction false} JoinSplitRoundTrip(line: string)
    ensures Seqs.Join(SplitFields(line), ",") == line
    decreases |line|
  {
    match Seqs.IndexOf(line, ',')
    case None =>
    case Some(p) =>
      var rest := SplitFields(line[p + 1..]);
      JoinSplitRoundTrip(line[p + 1..]);
      var fields := SplitFields(line);
      assert fields == [line[..p]] + rest;
      assert fields[1..] == rest;
      assert line == line[..p] + "," + line[p + 1..];
  }

  /**
    `select_fields`: the trimmed field at each requested position, in
    request order; a position past the record's end is skipped.
   */
  function SelectFields(record: seq<string>, indices: seq<nat>): (selected: seq<string>)
    ensures |selected| <= |indices|
    ensures (forall m :: 0 <= m < |indices| ==> indices[m] < |record|) ==>
      |selected| == |indices| && forall m :: 0 <= m < |indices| ==> selected[m] == FilterChecker.Trim(record[indices[m]])
  {
    if |indices| == 0 then []
    else
      var rest := SelectFields(record, indices[1..]);
      assert forall m :: 1 <= m < |indices| ==> indices[m] == indices[1..][m - 1];
      (if indices[0] < |record| then [FilterChecker.Trim(record[indices[0]])] else []) + rest
  }

  /**
    Positions past the record's end only drop out: the projection is that
    onto the positions the record has, which gives one field each.
   */
  lemma {:induction false} SelectFieldsSkipsMissing(record: seq<string>, indices: seq<nat>)
    ensures SelectFields(record, indices) == SelectFields(record, Seqs.Filter(indices, (i: nat) => i < |record|))
  {
    if |indices| > 0 {
      SelectFieldsSkipsMissing(record, indices[1..]);
      var present := (i: nat) => i < |record|;
      var filtered := Seqs.Filter(indices, present);
      if indices[0] < |record| {
        assert filtered == [indices[0]] + Seqs.Filter(indices[1..], present);
        assert filtered[1..] == Seqs.Filter(indices[1..], present);
      }
    }
  }

  /** Each read line parsed into its fields and projected onto `indices`. */
  function ProjectLines(lines: seq<string>, indices: seq<nat>): (records: seq<seq<string>>)
    ensures |records| == |lines|
    ensures forall k :: 0 <= k < |lines| ==> records[k] == SelectFields(SplitFields(lines[k]), indices)
  {
    seq(|lines|, k requires 0 <= k < |lines| => SelectFields(SplitFields(lines[k]), indices))
  }

  /** Every record projected onto `indices`, in order. */
  function ProjectRecords(records: seq<seq<string>>, indices: seq<nat>): (projected: seq<seq<string>>)
    ensures |projected| == |records|
    ensures forall k :: 0 <= k < |records| ==> projected[k] == SelectFields(records[k], indices)
  {
    seq(|records|, k requires 0 <= k < |records| => SelectFields(records[k], indices))
  }
}
