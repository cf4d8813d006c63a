/** Integer matrices as sequences of rows, and the arithmetic the workers do on
    them: the dot product a worker accumulates, the column the driver extracts,
    and the textbook matrix product the driver is meant to compute. */
module Matrices {

  type Matrix = seq<seq<int>>

  /** Every row of `m` has exactly `width` entries. */
  predicate Rectangular(m: Matrix, width: nat)
  {
    forall i :: 0 <= i < |m| ==> |m[i]| == width
  }

  /** `a` times `b` is defined: `b` is a non-empty rectangular matrix and every
      row of `a` has as many entries as `b` has rows. */
  predicate Compatible(a: Matrix, b: Matrix)
  {
    |b| > 0 && Rectangular(b, |b[0]|) && Rectangular(a, |b|)
  }

  /** The dot product of `row` with the first `|row|` entries of `col`,
      accumulated from the first index upwards, the way a worker's loop does. */
  function Dot(row: seq<int>, col: seq<int>): int
    requires |row| <= |col|
    decreases |row|
  {
    if row == [] then 0
    else Dot(row[..|row| - 1], col) + row[|row| - 1] * col[|row| - 1]
  }

  /** Column `j` of the first `n` rows of `b`. */
  function Column(b: Matrix, j: nat, n: nat): seq<int>
    requires n <= |b|
    requires forall k :: 0 <= k < n ==> j < |b[k]|
  {
    seq(n, k requires 0 <= k < n => b[k][j])
  }

  /** The reference definition of one cell of a product:
      the sum over `k < |row|` of `row[k] * b[k][j]`. */
  function RowColumnSum(row: seq<int>, b: Matrix, j: nat): int
    requires |row| <= |b|
    requires forall k :: 0 <= k < |row| ==> j < |b[k]|
  {
    if row == [] then 0
    else row[0] * b[0][j] + RowColumnSum(row[1..], b[1..], j)
  }

  /** The product of two compatible matrices, cell by cell. */
  function Product(a: Matrix, b: Matrix): (p: Matrix)
    requires Compatible(a, b)
    ensures |p| == |a| && Rectangular(p, |b[0]|)
  {
    seq(|a|, i requires 0 <= i < |a| =>
      seq(|b[0]|, j requires 0 <= j < |b[0]| => RowColumnSum(a[i], b, j)))
  }

  /** The reference sum peels its last term off like the worker's loop does. */
  lemma {:induction false} RowColumnSumLast(row: seq<int>, b: Matrix, j: nat)
    requires 0 < |row| <= |b|
    requires forall k :: 0 <= k < |row| ==> j < |b[k]|
    ensures RowColumnSum(row, b, j)
         == RowColumnSum(row[..|row| - 1], b, j) + row[|row| - 1] * b[|row| - 1][j]
  {
    var last := |row| - 1;
    if last == 0 {
      assert row[..last] == [];
      assert row[1..] == [];
    } else {
      RowColumnSumLast(row[1..], b[1..], j);
      assert row[1..][..last - 1] == row[..last][1..];
    }
  }

  /** What a worker computes from a row and an extracted column is the
      reference cell value, whenever the column is at least as long as the row. */
  lemma {:induction false} DotOfColumn(row: seq<int>, b: Matrix, j: nat, n: nat)
    requires |row| <= n <= |b|
    requires forall k :: 0 <= k < n ==> j < |b[k]|
    ensures Dot(row, Column(b, j, n)) == RowColumnSum(row, b, j)
  {
    if row != [] {
      var last := |row| - 1;
      DotOfColumn(row[..last], b, j, n);
      RowColumnSumLast(row, b, j);
    }
  }

  /** The first worked example: [[1,2],[3,4]] times [[5,6],[7,8]]. */
  lemma ProductExample()
    ensures Compatible([[1, 2], [3, 4]], [[5, 6], [7, 8]])
    ensures Product([[1, 2], [3, 4]], [[5, 6], [7, 8]]) == [[19, 22], [43, 50]]
  {
    var a: Matrix := [[1, 2], [3, 4]];
    var b: Matrix := [[5, 6], [7, 8]];
    assert RowColumnSum(a[0], b, 0) == 19;
    assert RowColumnSum(a[0], b, 1) == 22;
    assert RowColumnSum(a[1], b, 0) == 43;
    assert RowColumnSum(a[1], b, 1) == 50;
    assert Product(a, b)[0] == [19, 22];
    assert Product(a, b)[1] == [43, 50];
  }
}
