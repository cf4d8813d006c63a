/** The driver: for every cell of the result it extracts a column of the right
    matrix, asks the store for a worker and lets the worker write the dot
    product of the left row and that column. Everything runs on the calling
    thread, one cell after another.

    The driver as written takes the column length from the row count of the
    LEFT matrix. `MultiplyMatrices` models that; `MultiplyMatricesCorrected`
    takes it from the row count of the right matrix, which is what a matrix
    product needs. Both share `MultiplyCells`, which is parameterised by the column
    length. */
module Dispatch {
  import opened Matrices
  import opened Pool

  /** The inputs for which the driver, with column length `n`, never indexes
      out of range: the right matrix has a first row (its length is the
      result's width), and whenever there is a cell to compute, each of the
      first `n` rows of the right matrix is at least that wide and no row of
      the left matrix is longer than `n`. */
  predicate Dispatchable(a: Matrix, b: Matrix, n: nat)
  {
    |b| > 0 &&
    (|a| > 0 && |b[0]| > 0 ==>
       n <= |b| &&
       (forall k :: 0 <= k < n ==> |b[0]| <= |b[k]|) &&
       (forall i :: 0 <= i < |a| ==> |a[i]| <= n))
  }

  /** Fills a fresh array with column `j` of the first `n` rows of `b`. */
  method ExtractColumn(b: Matrix, j: nat, n: nat) returns (col: array<int>)
    requires n <= |b|
    requires forall k :: 0 <= k < n ==> j < |b[k]|
    ensures fresh(col)
    ensures col.Length == n && forall k :: 0 <= k < n ==> col[k] == b[k][j]
  {
    col := new int[n](_ => 0);
    for k := 0 to n
      invariant forall k' :: 0 <= k' < k ==> col[k'] == b[k'][j]
    {
      col[k] := b[k][j];
    }
  }

  /** One cell: column `j` of the first `n` rows of `matrix2` is extracted, a
      worker is taken from the store and computes its dot product with `row`.
      The worker found is idle, so it is idle again afterwards, and the
      permit count is back where it started. */
  method ComputeCell(row: seq<int>, matrix2: Matrix, j: nat, n: nat, ws: WorkerStore)
      returns (cell: int)
    requires |row| <= n <= |matrix2|
    requires forall k :: 0 <= k < n ==> j < |matrix2[k]|
    requires ws.Valid() && ws.CanServe()
    modifies ws.semaphore, ws.workers
    ensures cell == RowColumnSum(row, matrix2, j)
    ensures ws.Valid() && ws.semaphore.cur == old(ws.semaphore.cur)
    ensures forall k :: 0 <= k < |ws.workers| ==> ws.workers[k].busy == old(ws.workers[k].busy)
  {
    var col := ExtractColumn(matrix2, j, n);
    assert col[..] == Column(matrix2, j, n);
    ghost var idle :| 0 <= idle < |ws.workers| && !ws.workers[idle].busy;
    assert !ws.Busy()[idle];
    var worker := ws.GetWorker();
    // never null, since worker `idle` is idle
    cell := worker.MultiplyMatrices(row, col[..]);
    DotOfColumn(row, matrix2, j, n);
  }

  /** The cell loop with column length `n`. Each cell gets the reference sum
      over the left row; the store's permit count and every busy flag are as
      they were on entry. */
  method MultiplyCells(matrix1: Matrix, matrix2: Matrix, ws: WorkerStore, n: nat)
      returns (result: array2<int>)
    requires Dispatchable(matrix1, matrix2, n)
    requires ws.Valid()
    requires |matrix1| > 0 && |matrix2[0]| > 0 ==> ws.CanServe()
    modifies ws.semaphore, ws.workers
    ensures fresh(result)
    ensures result.Length0 == |matrix1| && result.Length1 == |matrix2[0]|
    ensures forall i, j :: 0 <= i < result.Length0 && 0 <= j < result.Length1 ==>
              result[i, j] == RowColumnSum(matrix1[i], matrix2, j)
    ensures ws.Valid() && ws.semaphore.cur == old(ws.semaphore.cur)
    ensures ws.Busy() == old(ws.Busy())
  {
    var rows := |matrix1|;
    var m := |matrix2[0]|;
    result := new int[rows, m]((_, _) => 0);
    for i := 0 to rows
      invariant ws.Valid() && ws.semaphore.cur == old(ws.semaphore.cur)
      invariant forall k :: 0 <= k < |ws.workers| ==> ws.workers[k].busy == old(ws.workers[k].busy)
      invariant forall i', j :: 0 <= i' < i && 0 <= j < m ==>
                  result[i', j] == RowColumnSum(matrix1[i'], matrix2, j)
    {
      for j := 0 to m
        invariant ws.Valid() && ws.semaphore.cur == old(ws.semaphore.cur)
        invariant forall k :: 0 <= k < |ws.workers| ==> ws.workers[k].busy == old(ws.workers[k].busy)
        invariant forall i', j' :: 0 <= i' < i && 0 <= j' < m ==>
                    result[i', j'] == RowColumnSum(matrix1[i'], matrix2, j')
        invariant forall j' :: 0 <= j' < j ==>
                    result[i, j'] == RowColumnSum(matrix1[i], matrix2, j')
      {
        var cell := ComputeCell(matrix1[i], matrix2, j, n, ws);
        result[i, j] := cell;
      }
    }
  }

  /** The driver as written: columns of length `|matrix1|`. */
  method MultiplyMatrices(matrix1: Matrix, matrix2: Matrix, ws: WorkerStore)
      returns (result: array2<int>)
    requires Dispatchable(matrix1, matrix2, |matrix1|)
    requires ws.Valid()
    requires |matrix1| > 0 && |matrix2[0]| > 0 ==> ws.CanServe()
    modifies ws.semaphore, ws.workers
    ensures fresh(result)
    ensures result.Length0 == |matrix1| && result.Length1 == |matrix2[0]|
    ensures forall i, j :: 0 <= i < result.Length0 && 0 <= j < result.Length1 ==>
              result[i, j] == RowColumnSum(matrix1[i], matrix2, j)
    ensures Compatible(matrix1, matrix2) ==>
              forall i, j :: 0 <= i < result.Length0 && 0 <= j < result.Length1 ==>
                result[i, j] == Product(matrix1, matrix2)[i][j]
    ensures ws.Valid() && ws.semaphore.cur == old(ws.semaphore.cur)
    ensures ws.Busy() == old(ws.Busy())
  {
    result := MultiplyCells(matrix1, matrix2, ws, |matrix1|);
  }

  /** The driver with the column length the product needs, `|matrix2|`. */
  method MultiplyMatricesCorrected(matrix1: Matrix, matrix2: Matrix, ws: WorkerStore)
      returns (result: array2<int>)
    requires Compatible(matrix1, matrix2)
    requires ws.Valid()
    requires |matrix1| > 0 && |matrix2[0]| > 0 ==> ws.CanServe()
    modifies ws.semaphore, ws.workers
    ensures fresh(result)
    ensures result.Length0 == |matrix1| && result.Length1 == |matrix2[0]|
    ensures forall i, j :: 0 <= i < result.Length0 && 0 <= j < result.Length1 ==>
              result[i, j] == Product(matrix1, matrix2)[i][j]
    ensures ws.Valid() && ws.semaphore.cur == old(ws.semaphore.cur)
    ensures ws.Busy() == old(ws.Busy())
  {
    CorrectedIsDispatchable(matrix1, matrix2);
    result := MultiplyCells(matrix1, matrix2, ws, |matrix2|);
  }

  /** On compatible inputs with at least one cell, the driver as written stays
      in range exactly when the left matrix is square. */
  lemma AsWrittenDispatchableIffSquare(a: Matrix, b: Matrix)
    requires Compatible(a, b) && |a| > 0 && |b[0]| > 0
    ensures Dispatchable(a, b, |a|) <==> |a| == |b|
  {
    if Dispatchable(a, b, |a|) {
      assert |a[0]| <= |a|;
    }
  }

  /** A compatible 2x1 times 1x2 product on which the driver as written reads
      a second row of the right matrix that does not exist. */
  lemma AsWrittenRejectsCompatibleInput()
    ensures Compatible([[1], [2]], [[3, 4]])
    ensures !Dispatchable([[1], [2]], [[3, 4]], 2)
  {
  }

  /** With column length `|b|` every compatible pair is in range. */
  lemma CorrectedIsDispatchable(a: Matrix, b: Matrix)
    requires Compatible(a, b)
    ensures Dispatchable(a, b, |b|)
  {
  }

  /** A store is created once and then serves request after request with the
      driver as written: a fresh store of positive capacity runs it twice on
      the same inputs, and both runs give the same matrix, the product when the
      inputs are compatible. The first run leaves every worker idle and every
      permit free, which is what lets the second run get a worker. */
  method RepeatedRequests(matrix1: Matrix, matrix2: Matrix, capacity: nat)
      returns (first: array2<int>, second: array2<int>)
    requires Dispatchable(matrix1, matrix2, |matrix1|)
    requires 0 < capacity
    ensures first.Length0 == second.Length0 == |matrix1|
    ensures first.Length1 == second.Length1 == |matrix2[0]|
    ensures forall i, j :: 0 <= i < |matrix1| && 0 <= j < |matrix2[0]| ==>
              first[i, j] == second[i, j] == RowColumnSum(matrix1[i], matrix2, j)
    ensures Compatible(matrix1, matrix2) ==>
              forall i, j :: 0 <= i < |matrix1| && 0 <= j < |matrix2[0]| ==>
                first[i, j] == second[i, j] == Product(matrix1, matrix2)[i][j]
  {
    var ws := new WorkerStore(capacity);
    assert !ws.Busy()[0];
    first := MultiplyMatrices(matrix1, matrix2, ws);
    assert ws.semaphore.cur == 0 && forall k :: 0 <= k < capacity ==> !ws.Busy()[k];
    second := MultiplyMatrices(matrix1, matrix2, ws);
  }
}
