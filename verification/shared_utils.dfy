/** Matrix transposition (shared/utils.rs). */
module SharedUtils {

  /**
    Unless the first row is empty (which short-cuts to the empty result),
    no row is longer than the first; a longer row would index past the
    transposed matrix.
   */
  predicate NoRowLongerThanFirst<T>(matrix: seq<seq<T>>) {
    forall i :: 0 <= i < |matrix| && |matrix[0]| > 0 ==> |matrix[i]| <= |matrix[0]|
  }

  /** Every row has exactly `width` entries. */
  predicate Rectangular<T>(matrix: seq<seq<T>>, width: nat) {
    forall i :: 0 <= i < |matrix| ==> |matrix[i]| == width
  }

  /**
    The transposed matrix as a definition: `matrix[0].len()` rows of
    `matrix.len()` entries, entry `[j][i]` being `matrix[i][j]` where row
    `i` has an entry `j` and the filler `matrix[0][0]` where it does not.
   */
  function Transposed<T>(matrix: seq<seq<T>>): (t: seq<seq<T>>)
    requires NoRowLongerThanFirst(matrix)
    ensures |matrix| == 0 || |matrix[0]| == 0 ==> t == []
    ensures |matrix| > 0 && |matrix[0]| > 0 ==> |t| == |matrix[0]| && Rectangular(t, |matrix|)
    ensures forall j, i :: 0 <= j < |t| && 0 <= i < |matrix| && j < |matrix[i]| ==> |t[j]| == |matrix| && t[j][i] == matrix[i][j]
    ensures forall j, i :: 0 <= j < |t| && 0 <= i < |matrix| && j >= |matrix[i]| ==> |t[j]| == |matrix| && t[j][i] == matrix[0][0]
  {
    if |matrix| == 0 || |matrix[0]| == 0 then []
    else
      seq(|matrix[0]|, j requires 0 <= j < |matrix[0]| =>
        seq(|matrix|, i requires 0 <= i < |matrix| => if j < |matrix[i]| then matrix[i][j] else matrix[0][0]))
  }

  /**
    `transpose_matrix`: allocate the result filled with `matrix[0][0]`,
    then copy every entry `matrix[i][j]` to `[j][i]`.
   */
  method TransposeMatrix<T>(matrix: seq<seq<T>>) returns (t: seq<seq<T>>)
    requires NoRowLongerThanFirst(matrix)
    ensures t == Transposed(matrix)
  {
    if |matrix| == 0 || |matrix[0]| == 0 {
      return [];
    }
    var rowCount := |matrix[0]|;
    var colCount := |matrix|;
    var filler := matrix[0][0];
    t := seq(rowCount, _ => seq(colCount, _ => filler));
    var i := 0;
    while i < colCount
      invariant 0 <= i <= colCount
      invariant |t| == rowCount && Rectangular(t, colCount)
      invariant forall j, i' :: 0 <= j < rowCount && 0 <= i' < colCount ==>
        t[j][i'] == (if i' < i && j < |matrix[i']| then matrix[i'][j] else filler)
    {
      var j := 0;
      while j < |matrix[i]|
        invariant 0 <= j <= |matrix[i]|
        invariant |t| == rowCount && Rectangular(t, colCount)
        invariant forall j', i' :: 0 <= j' < rowCount && 0 <= i' < colCount && i' != i ==>
          t[j'][i'] == (if i' < i && j' < |matrix[i']| then matrix[i'][j'] else filler)
        invariant forall j' :: 0 <= j' < rowCount ==> t[j'][i] == (if j' < j then matrix[i][j'] else filler)
      {
        t := t[j := t[j][i := matrix[i][j]]];
        j := j + 1;
      }
      i := i + 1;
    }
    var expected := Transposed(matrix);
    forall j | 0 <= j < rowCount
      ensures t[j] == expected[j]
    {
    }
  }

  /** Transposing a non-empty rectangular matrix twice gives it back. */
  lemma TransposeInvolution<T>(matrix: seq<seq<T>>, width: nat)
    requires |matrix| > 0 && width > 0 && Rectangular(matrix, width)
    ensures NoRowLongerThanFirst(Transposed(matrix))
    ensures Transposed(Transposed(matrix)) == matrix
  {
    var t := Transposed(matrix);
    var tt := Transposed(t);
    forall i | 0 <= i < |matrix|
      ensures tt[i] == matrix[i]
    {
    }
  }

  /** A short row is padded with the first entry of the first row. */
  lemma ShortRowsArePadded()
    ensures Transposed([[1, 2], [3]]) == [[1, 3], [2, 1]]
  {
    var t := Transposed([[1, 2], [3]]);
    assert t[0] == [1, 3];
    assert t[1] == [2, 1];
  }
}
