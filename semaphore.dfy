/** The weighted semaphore the worker store and its workers share, reduced to
    its counter: `size` permits in all, `cur` of them currently held. Blocking,
    cancellation and waking of waiters are not modelled; an acquisition that
    would block is excluded by a precondition instead, since in a program that
    runs on one thread nobody else could ever release the permit. */
module Semaphore {

  class Weighted {
    const size: nat
    var cur: nat

    ghost predicate Valid()
      reads this
    {
      cur <= size
    }

    /** A fresh semaphore with `n` permits, none held. */
    constructor (n: nat)
      ensures Valid() && size == n && cur == 0
    {
      size := n;
      cur := 0;
    }

    /** Takes one permit without blocking; reports whether it got one. */
    method TryAcquire() returns (ok: bool)
      requires Valid()
      modifies this
      ensures Valid()
      ensures ok <==> old(cur) < size
      ensures cur == if ok then old(cur) + 1 else old(cur)
    {
      ok := cur < size;
      if ok {
        cur := cur + 1;
      }
    }

    /** Takes one permit; the blocking case is ruled out by the precondition. */
    method Acquire()
      requires Valid() && cur < size
      modifies this
      ensures Valid() && cur == old(cur) + 1
    {
      cur := cur + 1;
    }

    /** Gives one permit back; releasing more than is held is an error. */
    method Release()
      requires Valid() && 1 <= cur
      modifies this
      ensures Valid() && cur == old(cur) - 1
    {
      cur := cur - 1;
    }
  }
}
