/** Matrix transposition, t04/08 (Trasposizione.java). */
module Trasposizione {
  import opened Exceptions

  /** The rows of a Java int[][] as values. */
  ghost function Rows(matrix: array<array<int>>): (m: seq<seq<int>>)
    reads matrix, set i | 0 <= i < matrix.Length :: matrix[i]
    ensures |m| == matrix.Length && forall i :: 0 <= i < matrix.Length ==> m[i] == matrix[i][..]
  {
    seq(matrix.Length, i requires 0 <= i < matrix.Length reads matrix, (if 0 <= i < matrix.Length then {matrix[i]} else {}) => matrix[i][..])
  }

  /**
   * The transpose as trasponi lays it out: |m[0]| rows of |m| entries, with entry (j, i) taken
   * from m[i][j], or left 0 where row i is shorter than the first row.
   */
  function Transpose(m: seq<seq<int>>): (t: seq<seq<int>>)
    requires |m| > 0
    ensures |t| == |m[0]| && forall j :: 0 <= j < |t| ==> |t[j]| == |m|
    ensures forall j, i :: 0 <= j < |m[0]| && 0 <= i < |m| ==>
              t[j][i] == if j < |m[i]| then m[i][j] else 0
  {
    seq(|m[0]|, j requires 0 <= j < |m[0]| =>
      seq(|m|, i requires 0 <= i < |m| => if j < |m[i]| then m[i][j] else 0))
  }

  /** Every row has the length of the first one. */
  ghost predicate Rectangular(m: seq<seq<int>>)
  {
    |m| > 0 && forall i :: 0 <= i < |m| ==> |m[i]| == |m[0]|
  }

  /** A rectangular matrix with at least one column comes back from two transpositions. */
  lemma TransposeTwice(m: seq<seq<int>>)
    requires Rectangular(m) && |m[0]| > 0
    ensures Rectangular(Transpose(m))
    ensures Transpose(Transpose(m)) == m
  {
    var t := Transpose(m);
    var tt := Transpose(t);
    assert |tt| == |m|;
    forall i | 0 <= i < |m|
      ensures tt[i] == m[i]
    {
      assert |tt[i]| == |m[i]|;
      forall j | 0 <= j < |m[i]|
        ensures tt[i][j] == m[i][j]
      {
        assert tt[i][j] == t[j][i];
      }
    }
  }

  /**
   * trasponi: a new |matrix[0]| x |matrix| matrix with result[j][i] = matrix[i][j]. It raises
   * ArrayIndexOutOfBoundsException when matrix has no rows, or when a row is longer than the first.
   */
  method Trasponi(matrix: array<array<int>>) returns (r: Result<array2<int>>)
    ensures r.Err? <==> matrix.Length == 0 || exists i :: 0 <= i < matrix.Length && matrix[i].Length > matrix[0].Length
    ensures r.Err? ==> r.error == ArrayIndexOutOfBoundsException
    ensures r.Ok? ==> fresh(r.value) && r.value.Length0 == matrix[0].Length && r.value.Length1 == matrix.Length
    ensures r.Ok? ==> forall j, i :: 0 <= j < r.value.Length0 && 0 <= i < r.value.Length1 ==>
                        r.value[j, i] == Transpose(Rows(matrix))[j][i]
  {
    if matrix.Length == 0 {
      return Err(ArrayIndexOutOfBoundsException);
    }
    var cols := matrix[0].Length;
    var t := new int[cols, matrix.Length]((_, _) => 0);
    var i := 0;
    while i < matrix.Length
      invariant 0 <= i <= matrix.Length
      invariant forall k :: 0 <= k < i ==> matrix[k].Length <= cols
      invariant forall j, k :: 0 <= j < cols && 0 <= k < matrix.Length ==>
                  t[j, k] == if k < i && j < matrix[k].Length then matrix[k][j] else 0
    {
      var j := 0;
      while j < matrix[i].Length
        invariant 0 <= j <= matrix[i].Length && j <= cols
        invariant forall jj, k :: 0 <= jj < cols && 0 <= k < matrix.Length ==>
                    t[jj, k] == if (k < i && jj < matrix[k].Length) || (k == i && jj < j) then matrix[k][jj] else 0
      {
        if j >= cols {
          return Err(ArrayIndexOutOfBoundsException);
        }
        t[j, i] := matrix[i][j];
        j := j + 1;
      }
      i := i + 1;
    }
    return Ok(t);
  }
}
