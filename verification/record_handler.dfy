/**
  Post-processing of the selected records (record_handler.rs): ordering by
  one column and attaching the column names to the values. A record is the
  list of its field strings.
 */
module RecordHandler {

  import opened Bytes
  import StableSort

  // ---------------------------------------------------------------------------
  // Byte-lexicographic order (Rust's `str::cmp`)
  // ---------------------------------------------------------------------------

  /** `a <= b` in lexicographic order of bytes: a prefix precedes every extension. */
  predicate LexLe(a: seq<byte>, b: seq<byte>) {
    if |a| == 0 then true
    else if |b| == 0 then false
    else if a[0] != b[0] then a[0] < b[0]
    else LexLe(a[1..], b[1..])
  }

  lemma {:induction false} LexLeTotal(a: seq<byte>, b: seq<byte>)
    ensures LexLe(a, b) || LexLe(b, a)
  {
    if |a| > 0 && |b| > 0 && a[0] == b[0] {
      LexLeTotal(a[1..], b[1..]);
    }
  }

  lemma {:induction false} LexLeTransitive(a: seq<byte>, b: seq<byte>, c: seq<byte>)
    requires LexLe(a, b) && LexLe(b, c)
    ensures LexLe(a, c)
  {
    if |a| > 0 && |b| > 0 && |c| > 0 && a[0] == b[0] && b[0] == c[0] {
      LexLeTransitive(a[1..], b[1..], c[1..]);
    }
  }

  lemma {:induction false} LexLeAntisymmetric(a: seq<byte>, b: seq<byte>)
    requires LexLe(a, b) && LexLe(b, a)
    ensures a == b
  {
    if |a| > 0 && |b| > 0 {
      LexLeAntisymmetric(a[1..], b[1..]);
      assert a == [a[0]] + a[1..] && b == [b[0]] + b[1..];
    }
  }

  lemma LexLeReflexive(a: seq<byte>)
    ensures LexLe(a, a)
  {
    LexLeTotal(a, a);
  }

  // ---------------------------------------------------------------------------
  // Sorting
  // ---------------------------------------------------------------------------

  /** `record.get(i).unwrap_or_default()`: a missing field reads as the empty string. */
  function FieldOrEmpty(record: seq<string>, columnIndex: nat): (value: string)
    ensures columnIndex >= |record| ==> value == ""
    ensures columnIndex < |record| ==> value == record[columnIndex]
  {
    if columnIndex < |record| then record[columnIndex] else ""
  }

  /** The bytes a record is ordered by. */
  function SortKey(record: seq<string>, columnIndex: nat): seq<byte> {
    Utf8(FieldOrEmpty(record, columnIndex))
  }

  /** The comparison passed to `sort_by`, as "may come first". */
  function Comparison(columnIndex: nat, ascending: bool): (seq<string>, seq<string>) -> bool {
    if ascending then
      (a: seq<string>, b: seq<string>) => LexLe(SortKey(a, columnIndex), SortKey(b, columnIndex))
    else
      (a: seq<string>, b: seq<string>) => LexLe(SortKey(b, columnIndex), SortKey(a, columnIndex))
  }

  /** `sort_records`: a stable sort of the records by the key column, ascending or descending. */
  function SortRecords(records: seq<seq<string>>, columnIndex: nat, ascending: bool): (sorted: seq<seq<string>>)
    ensures |sorted| == |records|
    ensures multiset(sorted) == multiset(records)
  {
    StableSort.Sort(records, Comparison(columnIndex, ascending))
  }

  lemma ComparisonIsTotalPreorder(columnIndex: nat, ascending: bool)
    ensures StableSort.TotalPreorder(Comparison(columnIndex, ascending))
  {
    var le := Comparison(columnIndex, ascending);
    forall a, b
      ensures le(a, b) || le(b, a)
    {
      LexLeTotal(SortKey(a, columnIndex), SortKey(b, columnIndex));
    }
    forall a, b, c | le(a, b) && le(b, c)
      ensures le(a, c)
    {
      if ascending {
        LexLeTransitive(SortKey(a, columnIndex), SortKey(b, columnIndex), SortKey(c, columnIndex));
      } else {
        LexLeTransitive(SortKey(c, columnIndex), SortKey(b, columnIndex), SortKey(a, columnIndex));
      }
    }
  }

  /** The records whose key column holds exactly `key`, in order. */
  function WithKey(records: seq<seq<string>>, columnIndex: nat, key: seq<byte>): (r: seq<seq<string>>)
    ensures |r| <= |records|
  {
    if |records| == 0 then []
    else
      var last := records[|records| - 1];
      WithKey(records[..|records| - 1], columnIndex, key) + (if SortKey(last, columnIndex) == key then [last] else [])
  }

  /** Under the record comparison, two records tie exactly when their keys are equal. */
  lemma {:induction false} TiesAreEqualKeys(records: seq<seq<string>>, x: seq<string>, columnIndex: nat, ascending: bool)
    ensures StableSort.Equivalents(records, x, Comparison(columnIndex, ascending))
      == WithKey(records, columnIndex, SortKey(x, columnIndex))
  {
    if |records| > 0 {
      var last := records[|records| - 1];
      var kx := SortKey(x, columnIndex);
      var kl := SortKey(last, columnIndex);
      TiesAreEqualKeys(records[..|records| - 1], x, columnIndex, ascending);
      if LexLe(kx, kl) && LexLe(kl, kx) {
        LexLeAntisymmetric(kx, kl);
      }
      if kx == kl {
        LexLeReflexive(kx);
      }
    }
  }

  /**
    What `sort_records` guarantees: the result is a permutation of the
    input; ascending, the keys never decrease, descending they never
    increase; and records with equal keys keep their input order.
   */
  lemma SortRecordsSpec(records: seq<seq<string>>, columnIndex: nat, ascending: bool)
    ensures multiset(SortRecords(records, columnIndex, ascending)) == multiset(records)
    ensures var s := SortRecords(records, columnIndex, ascending);
      ascending ==> forall i, j :: 0 <= i < j < |s| ==> LexLe(SortKey(s[i], columnIndex), SortKey(s[j], columnIndex))
    ensures var s := SortRecords(records, columnIndex, ascending);
      !ascending ==> forall i, j :: 0 <= i < j < |s| ==> LexLe(SortKey(s[j], columnIndex), SortKey(s[i], columnIndex))
    ensures forall key :: WithKey(SortRecords(records, columnIndex, ascending), columnIndex, key) == WithKey(records, columnIndex, key)
  {
    var le := Comparison(columnIndex, ascending);
    ComparisonIsTotalPreorder(columnIndex, ascending);
    StableSort.SortIsSorted(records, le);
    var s := SortRecords(records, columnIndex, ascending);
    forall key
      ensures WithKey(s, columnIndex, key) == WithKey(records, columnIndex, key)
    {
      WithKeyStable(records, columnIndex, ascending, key);
    }
  }

  /** One key class at a time: a class that occurs is the tie class of one of its members. */
  lemma WithKeyStable(records: seq<seq<string>>, columnIndex: nat, ascending: bool, key: seq<byte>)
    requires StableSort.TotalPreorder(Comparison(columnIndex, ascending))
    ensures WithKey(SortRecords(records, columnIndex, ascending), columnIndex, key) == WithKey(records, columnIndex, key)
  {
    var le := Comparison(columnIndex, ascending);
    var s := SortRecords(records, columnIndex, ascending);
    if r :| r in records && SortKey(r, columnIndex) == key {
      StableSort.SortIsStable(records, r, le);
      TiesAreEqualKeys(records, r, columnIndex, ascending);
      TiesAreEqualKeys(s, r, columnIndex, ascending);
    } else {
      WithKeyEmpty(records, columnIndex, key);
      assert forall r :: r in s ==> r in multiset(s);
      WithKeyEmpty(s, columnIndex, key);
    }
  }

  lemma {:induction false} WithKeyEmpty(records: seq<seq<string>>, columnIndex: nat, key: seq<byte>)
    requires forall r :: r in records ==> SortKey(r, columnIndex) != key
    ensures WithKey(records, columnIndex, key) == []
  {
    if |records| > 0 {
      WithKeyEmpty(records[..|records| - 1], columnIndex, key);
    }
  }

  // ---------------------------------------------------------------------------
  // Formatting
  // ---------------------------------------------------------------------------

  /** The header positions a row's fields can be named by without indexing out of bounds. */
  predicate IndicesFit(row: seq<string>, headers: seq<string>, indices: seq<nat>) {
    forall i :: 0 <= i < |indices| && i < |row| ==> indices[i] < |headers|
  }

  /**
    The map `format_response` builds for one row after its first `n`
    inserts: field `i` goes under `headers[indices[i]]` when the row has
    a field `i`; a later insert under the same name replaces an earlier one.
   */
  function RowMapUpTo(row: seq<string>, headers: seq<string>, indices: seq<nat>, n: nat): (m: map<string, string>)
    requires n <= |indices|
    requires IndicesFit(row, headers, indices)
  {
    if n == 0 then map[]
    else
      var m := RowMapUpTo(row, headers, indices, n - 1);
      if n - 1 < |row| then m[headers[indices[n - 1]] := row[n - 1]] else m
  }

  function RowMap(row: seq<string>, headers: seq<string>, indices: seq<nat>): map<string, string>
    requires IndicesFit(row, headers, indices)
  {
    RowMapUpTo(row, headers, indices, |indices|)
  }

  /** `format_response` before serialization: one map per row, in row order. */
  function FormatResponse(rows: seq<seq<string>>, headers: seq<string>, indices: seq<nat>): (maps: seq<map<string, string>>)
    requires forall k :: 0 <= k < |rows| ==> IndicesFit(rows[k], headers, indices)
    ensures |maps| == |rows|
    ensures forall k :: 0 <= k < |rows| ==> maps[k] == RowMap(rows[k], headers, indices)
  {
    seq(|rows|, k requires 0 <= k < |rows| => RowMap(rows[k], headers, indices))
  }

  /** Field `i` of the row is written under its header name. */
  predicate Writes(row: seq<string>, headers: seq<string>, indices: seq<nat>, i: nat, name: string)
    requires IndicesFit(row, headers, indices)
  {
    i < |indices| && i < |row| && headers[indices[i]] == name
  }

  /**
    The keys of a row map are the header names of the row's present
    fields, and each key holds the field of the last insert under it.
   */
  lemma {:induction false} RowMapUpToContents(row: seq<string>, headers: seq<string>, indices: seq<nat>, n: nat, name: string)
    requires n <= |indices|
    requires IndicesFit(row, headers, indices)
    ensures name in RowMapUpTo(row, headers, indices, n) <==> exists i :: 0 <= i < n && Writes(row, headers, indices, i, name)
    ensures name in RowMapUpTo(row, headers, indices, n) ==>
      exists i :: 0 <= i < n && Writes(row, headers, indices, i, name)
        && RowMapUpTo(row, headers, indices, n)[name] == row[i]
        && forall i' :: i < i' < n ==> !Writes(row, headers, indices, i', name)
  {
    if n > 0 {
      RowMapUpToContents(row, headers, indices, n - 1, name);
      var m := RowMapUpTo(row, headers, indices, n);
      if Writes(row, headers, indices, n - 1, name) {
        assert m[name] == row[n - 1];
      } else if name in RowMapUpTo(row, headers, indices, n - 1) {
        var i :| 0 <= i < n - 1 && Writes(row, headers, indices, i, name)
          && RowMapUpTo(row, headers, indices, n - 1)[name] == row[i]
          && forall i' :: i < i' < n - 1 ==> !Writes(row, headers, indices, i', name);
        assert m[name] == row[i];
      }
    }
  }

  /**
    With distinct header names and distinct indices, no insert overwrites
    another, so every present field appears under its own header name.
   */
  lemma RowMapOfDistinct(row: seq<string>, headers: seq<string>, indices: seq<nat>, i: nat)
    requires IndicesFit(row, headers, indices)
    requires forall a, b :: 0 <= a < b < |headers| ==> headers[a] != headers[b]
    requires forall a, b :: 0 <= a < b < |indices| ==> indices[a] != indices[b]
    requires i < |indices| && i < |row|
    ensures headers[indices[i]] in RowMap(row, headers, indices)
    ensures RowMap(row, headers, indices)[headers[indices[i]]] == row[i]
  {
    var name := headers[indices[i]];
    RowMapUpToContents(row, headers, indices, |indices|, name);
    assert Writes(row, headers, indices, i, name);
    var w :| 0 <= w < |indices| && Writes(row, headers, indices, w, name)
      && RowMap(row, headers, indices)[name] == row[w]
      && forall i' :: w < i' < |indices| ==> !Writes(row, headers, indices, i', name);
    assert w == i;
  }
}
