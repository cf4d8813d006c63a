# Matrix multiplication through a worker store

A model of the core of a small Go service that multiplies two integer
matrices. The service routes every dot product through a "worker store", which
holds a fixed set of workers and one shared weighted semaphore. The driver
`multiplyMatrices` walks the result cell by cell on the calling thread. For
each cell it does four things:

- it extracts a column of the right matrix;
- it asks the store for the first idle worker (`getWorker`);
- that worker computes the dot product under a permit and marks itself busy
  while it does (`Worker.multiplyMatrices`);
- the value is written into the result.

No goroutine is started anywhere in the core, so the model is sequential and
covers one request at a time.

Modules:

- `Semaphore`: the class `Weighted` is the semaphore reduced to its counter,
  with `size` permits and `cur` held. `TryAcquire`, `Acquire` and `Release`
  change that counter.
- `Matrices`: matrices as `seq<seq<int>>`. `Dot` is the worker's
  accumulation, `Column` is the extracted column, and `RowColumnSum` and
  `Product` are a reference definition of the matrix product. The lemmas link
  them.
- `Pool`: the classes `Worker` (a shared semaphore and a `busy` flag) and
  `WorkerStore` (a sequence of workers and the shared semaphore), plus
  `FirstIdle`, the specification of the worker search.
- `Dispatch`: the driver as written, a corrected driver, the per-cell step
  they share, and the lemmas behind the finding below.

Points where the code is narrower than its names suggest; the model follows the code:

- A worker needs its column to be at least as long as its row. Equal lengths
  are not required.
- `getWorker` does not mark the worker it returns as busy. The worker marks
  itself inside its own computation.
- `getWorker` gives its permit back before returning. In a sequential run it
  therefore never returns null, as long as some worker was idle when the
  driver started.
- The column length is the row count of the left matrix (see Findings).

## Model

| member | source | states |
|---|---|---|
| Semaphore.Weighted.constructor | main.go:30 | a new semaphore has `n` permits and none held |
| Semaphore.Weighted.TryAcquire | main.go:62 | takes a permit exactly when one is free, reports that, and leaves the count alone otherwise |
| Semaphore.Weighted.Acquire | main.go:44 | takes one permit; only called when one is free (blocking is not modelled) |
| Semaphore.Weighted.Release | main.go:48 | gives one permit back; releasing when none is held is excluded, as the library panics |
| Matrices.Product | main.go:78-81 | the reference product of compatible matrices has `len(matrix1)` rows, each of length `len(matrix2[0])` |
| Matrices.RowColumnSumLast | main.go:54-56 | the reference cell sum splits off its last term the same way the worker's loop adds it |
| Matrices.DotOfColumn | main.go:85-92 | the worker's dot product of row `i` with an extracted column of length at least the row's equals the reference sum over `k < len(row)` of `row[k] * matrix2[k][j]` |
| Matrices.ProductExample | main.go:74-96 | [[1,2],[3,4]] times [[5,6],[7,8]] is [[19,22],[43,50]] |
| Pool.FirstIdle | main.go:66-71 | returns `None` exactly when every flag is busy; otherwise returns the lowest index whose flag is idle |
| Pool.Worker.constructor | main.go:34-37 | a new worker shares the given semaphore and is not busy |
| Pool.Worker.MultiplyMatrices | main.go:43-59 | returns the sum over `i < len(row)` of `row[i] * col[i]` when `len(col) >= len(row)`; afterwards the worker is not busy and the permit count equals its value on entry |
| Pool.WorkerStore.constructor | main.go:27-41 | `n` fresh, distinct, idle workers, all sharing one fresh semaphore with `n` permits and none held |
| Pool.WorkerStore.ReleaseWorker | main.go:23-25 | returns one permit to the store's semaphore |
| Pool.WorkerStore.GetWorker | main.go:61-72 | returns the lowest-index idle worker, or null when all are busy; the permit count is unchanged; needs a free permit, since the source otherwise spins forever |
| Dispatch.Dispatchable | main.go:75-88 | exactly the inputs on which the driver with column length `n` stays in range: `matrix2` has a first row (main.go:76), and when there is a cell, the first `n` rows of `matrix2` are at least `len(matrix2[0])` wide (main.go:88) and no row of `matrix1` is longer than `n` (the read of `col` at main.go:55) |
| Dispatch.ExtractColumn | main.go:86-89 | a fresh array of length `n` holding `matrix2[k][j]` for each `k < n` |
| Dispatch.ComputeCell | main.go:85-92 | one cell's value is the reference sum for row `i` and column `j`; no worker's busy flag changes and the permit count is restored |
| Dispatch.MultiplyCells | main.go:74-96 | for any in-range input, the result is a fresh `len(matrix1)` by `len(matrix2[0])` matrix whose cell `(i, j)` is the sum over `k < len(matrix1[i])` of `matrix1[i][k] * matrix2[k][j]`; the store ends with the same busy flags and permit count it started with |
| Dispatch.MultiplyMatrices | main.go:74-96 | the driver as written (column length `len(matrix1)`): the same shape and cells, which equal the product whenever the inputs are compatible; the store is left as it was found |
| Dispatch.MultiplyMatricesCorrected | main.go:74-96 | with column length `len(matrix2)`, every compatible pair gives exactly the product, and the store is left as it was found |
| Dispatch.AsWrittenDispatchableIffSquare | main.go:75-88 | on compatible inputs with at least one cell, the driver as written stays in range if and only if the left matrix is square |
| Dispatch.AsWrittenRejectsCompatibleInput | main.go:86-88 | the compatible pair [[1],[2]] times [[3,4]] is out of range for the driver as written |
| Dispatch.CorrectedIsDispatchable | main.go:86-88 | with column length `len(matrix2)`, every compatible pair is in range |
| Dispatch.RepeatedRequests | main.go:157-160 | a store made once with positive capacity serves two identical requests through the driver as written with identical results: the reference sum in every cell, and the product when the inputs are compatible |

## Findings

| source | as written | input that shows it | evidently intended | confidence | as-written member | corrected member |
|---|---|---|---|---|---|---|
| main.go:86 | the extracted column has length `len(matrix1)`, the row count of the left matrix | `matrix1 = [[1],[2]]`, `matrix2 = [[3,4]]`: a valid 2x1 by 1x2 product, but the column loop reads `matrix2[1]`, which does not exist (index out of range) | the column length is `len(matrix2)`, the row count of the right matrix | high; not executed | Dispatch.AsWrittenRejectsCompatibleInput | Dispatch.MultiplyMatricesCorrected |

The reverse shape fails too. When the left matrix has more columns than rows,
the worker indexes past the end of the shorter column.
`Dispatch.AsWrittenDispatchableIffSquare` proves that, on compatible inputs,
only a square left matrix avoids both failures.

## Left out

- The HTTP handlers, routing, JSON decoding and encoding, and status codes
  (`multiplyHandler`, `main`, `Request`, `Response`): transport plumbing
  outside the core.
- `printMatrix`: console output only.
- `numberHandler` and its `strconv.Atoi` parsing: a foreign library call.
- The store replacement on the `/change` route (main.go:163): a
  process-wide reference swapped by a request handler. `Dispatch.RepeatedRequests`
  models only the store made once at start-up and reused across requests.
- The real semaphore library: blocking, context cancellation and waking of
  waiters. It is a counter here. An acquisition that would block is excluded
  by a precondition, because within one request nothing else could release
  the permit.
- Pool.WorkerStore.GetWorker: the busy-wait at main.go:62-64 becomes a
  precondition that a permit is free. The source spins forever without one,
  which is the case for a store of capacity 0.
- Concurrent requests: the core starts no goroutine, but the HTTP server runs
  each handler (main.go:158-160) on its own goroutine, so two requests can
  race on the shared store. Interleavings of `getWorker` and
  `Worker.multiplyMatrices` across requests are left out; the model covers one
  request at a time.
- Panic paths, which the preconditions exclude rather than model:
  `len(matrix2[0])` on an empty `matrix2` (main.go:76) and the out-of-range
  reads at main.go:88 and main.go:55 are excluded by `Dispatch.Dispatchable`
  and by `len(row) <= len(col)` on `Pool.Worker.MultiplyMatrices`; the
  nil-worker dereference at main.go:91-92 is excluded by `CanServe` (a free
  permit and an idle worker). On a panic at main.go:55 the deferred restore
  at main.go:47-50 still runs; the model does not capture that path.
- Go's 64-bit `int` wrap-around: products and sums use unbounded `int`.
- A negative worker count: `createWorkerStore` panics in `make` on one, so
  the model's constructor takes a `nat`.
- The result's separately allocated row slices: the result is one `array2<int>`, so
  aliasing between rows is not modelled.
- Mutation of the input matrices: they are `seq` values here. That they come
  back unmodified holds by construction, and the code never writes them.
