/** The workers and the store that hands them out. All workers of a store
    share the store's semaphore; a worker holds a permit and is marked busy
    while it computes one dot product. */
module Pool {
  import Semaphore
  import opened Matrices

  datatype Option<T> = None | Some(value: T)

  /** The index of the first `false` in `busy`, or `None` when all are `true`. */
  function FirstIdle(busy: seq<bool>): (r: Option<nat>)
    ensures r.None? <==> forall k :: 0 <= k < |busy| ==> busy[k]
    ensures r.Some? ==> r.value < |busy| && !busy[r.value]
    ensures r.Some? ==> forall k :: 0 <= k < r.value ==> busy[k]
  {
    if busy == [] then None
    else if !busy[0] then Some(0)
    else match FirstIdle(busy[1..])
      case None => None
      case Some(k) => Some(k + 1)
  }

  class Worker {
    const semaphore: Semaphore.Weighted
    var busy: bool

    constructor (s: Semaphore.Weighted)
      ensures semaphore == s && !busy
    {
      semaphore := s;
      busy := false;
    }

    /** Computes the dot product of `row` and `col` under one permit of the
        shared semaphore; the permit and the busy flag are given back on
        exit. `col` must be at least as long as `row`, or the loop indexes
        out of range. */
    method MultiplyMatrices(row: seq<int>, col: seq<int>) returns (result: int)
      requires |row| <= |col|
      requires semaphore.Valid() && semaphore.cur < semaphore.size
      modifies this, semaphore
      ensures result == Dot(row, col)
      ensures !busy
      ensures semaphore.Valid() && semaphore.cur == old(semaphore.cur)
    {
      semaphore.Acquire();
      busy := true;
      result := 0;
      for i := 0 to |row|
        invariant result == Dot(row[..i], col)
      {
        assert row[..i + 1][..i] == row[..i];
        result := result + row[i] * col[i];
      }
      assert row[..|row|] == row;
      // the deferred clean-up
      semaphore.Release();
      busy := false;
    }
  }

  class WorkerStore {
    const workers: seq<Worker>
    const semaphore: Semaphore.Weighted

    /** One worker per permit, all sharing the store's semaphore. */
    ghost predicate Valid()
      reads semaphore
    {
      semaphore.Valid() &&
      |workers| == semaphore.size &&
      forall k :: 0 <= k < |workers| ==> workers[k].semaphore == semaphore
    }

    /** The busy flags of the workers, in order. */
    function Busy(): seq<bool>
      reads workers
    {
      seq(|workers|, k requires 0 <= k < |workers| reads workers => workers[k].busy)
    }

    /** A permit is free and some worker is idle: what handing out a worker needs. */
    ghost predicate CanServe()
      reads semaphore, workers
    {
      semaphore.cur < semaphore.size &&
      exists k :: 0 <= k < |workers| && !workers[k].busy
    }

    /** A store of `noOfWorkers` fresh, idle workers sharing a fresh semaphore
        of that many permits. */
    constructor (noOfWorkers: nat)
      ensures Valid()
      ensures |workers| == noOfWorkers
      ensures semaphore.size == noOfWorkers && semaphore.cur == 0
      ensures forall k :: 0 <= k < |workers| ==> !workers[k].busy
      ensures fresh(semaphore)
      ensures forall k :: 0 <= k < |workers| ==> fresh(workers[k])
      ensures forall k, l :: 0 <= k < l < |workers| ==> workers[k] != workers[l]
    {
      var s := new Semaphore.Weighted(noOfWorkers);
      var ws: seq<Worker> := [];
      for i := 0 to noOfWorkers
        invariant |ws| == i && s.cur == 0
        invariant forall k :: 0 <= k < i ==> fresh(ws[k])
        invariant forall k :: 0 <= k < i ==> ws[k].semaphore == s && !ws[k].busy
        invariant forall k, l :: 0 <= k < l < i ==> ws[k] != ws[l]
      {
        var w := new Worker(s);
        ws := ws + [w];
      }
      workers := ws;
      semaphore := s;
    }

    /** Gives one permit back to the store's semaphore. */
    method ReleaseWorker()
      requires Valid() && 1 <= semaphore.cur
      modifies semaphore
      ensures Valid() && semaphore.cur == old(semaphore.cur) - 1
    {
      semaphore.Release();
    }

    /** Returns the first idle worker, or null when every worker is busy. A
        permit is taken for the search and given back before returning; with
        no permit free the source spins forever, so a free permit is required. */
    method GetWorker() returns (w: Worker?)
      requires Valid() && semaphore.cur < semaphore.size
      modifies semaphore
      ensures Valid() && semaphore.cur == old(semaphore.cur)
      ensures FirstIdle(Busy()).None? ==> w == null
      ensures FirstIdle(Busy()).Some? ==> w == workers[FirstIdle(Busy()).value]
    {
      // the spin exits on its first try, since a permit is free
      var acquired := semaphore.TryAcquire();
      assert acquired;
      for i := 0 to |workers|
        invariant semaphore.Valid() && semaphore.cur == old(semaphore.cur) + 1
        invariant forall k :: 0 <= k < i ==> workers[k].busy
      {
        if !workers[i].busy {
          assert FirstIdle(Busy()) == Some(i) by {
            assert !Busy()[i] && forall k :: 0 <= k < i ==> Busy()[k];
          }
          semaphore.Release();
          return workers[i];
        }
      }
      semaphore.Release();
      return null;
    }
  }
}
