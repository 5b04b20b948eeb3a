/** `UniqueActionThreadPoolExecutor`: a thread pool whose work queue is a
    `SetQueue`, so that a work item already waiting is not queued twice, and
    which lets callers search and prune the waiting work. The worker threads
    are not modelled; only the work queue the executor owns. */
module Executor {
  import opened Common
  import opened SetQueues

  class UniqueActionThreadPoolExecutor<T(==)> {
    var workQueue: SetQueue<T>

    ghost predicate Valid()
      reads this, workQueue
    {
      workQueue.Valid()
    }

    /** The base pool is built first; its work queue is then replaced by a
        fresh, empty `SetQueue` constructed with the default `maxsize` of 0. */
    constructor ()
      ensures Valid() && fresh(workQueue)
      ensures workQueue.items == [] && workQueue.maxsize == 0
    {
      workQueue := new SetQueue(0);
    }

    /** Delegates to the work queue's `find_and_remove`. */
    method FindAndRemove(fn: T -> bool)
      requires Valid()
      modifies workQueue
      ensures Valid()
      ensures workQueue.items == Drop(old(workQueue.items), fn)
      ensures workQueue.maxsize == old(workQueue.maxsize)
    {
      workQueue.FindAndRemove(fn);
    }

    /** `find` as written: the work queue is searched, but the result is
        discarded and the method has no `return`, so the caller always gets
        `None`. The queue is not modified (no `modifies` clause). */
    method Find(fn: T -> bool) returns (r: Option<T>)
      ensures r == None
    {
      var found := workQueue.Find(fn);
      r := None;
    }

    /** `find` as evidently intended: hand back the work queue's answer, the
        first waiting item, in queue order, that satisfies `fn`. */
    method FindQueued(fn: T -> bool) returns (r: Option<T>)
      ensures r.None? <==> forall i :: 0 <= i < |workQueue.items| ==> !fn(workQueue.items[i])
      ensures r.Some? ==> exists i :: 0 <= i < |workQueue.items| && workQueue.items[i] == r.value &&
                                      fn(r.value) && forall j :: 0 <= j < i ==> !fn(workQueue.items[j])
    {
      r := workQueue.Find(fn);
    }
  }

  /** With one waiting item that satisfies `fn`, `find` as written reports
      nothing while the work queue's own answer is that item. */
  method FindLosesQueuedMatch<T(==)>(x: T, fn: T -> bool) returns (asWritten: Option<T>, intended: Option<T>)
    requires fn(x)
    ensures asWritten == None
    ensures intended == Some(x)
  {
    var executor := new UniqueActionThreadPoolExecutor<T>();
    executor.workQueue.Put(x);
    assert executor.workQueue.items == [x];
    asWritten := executor.Find(fn);
    intended := executor.FindQueued(fn);
  }
}
