/**
 The pool of event views kept for reuse: a stack that `enqueue` pushes onto, after
 resetting each view's frame, and `dequeue` pops from, making a new view when it
 is empty. The pool is a value here; the shared instance is left out.
 */
module ReusePool {
  import opened CalendarStyle

  /** Identity of a view object; a new view gets an id the caller supplies. */
  type ViewId = nat

  datatype EventView = EventView(id: ViewId, frame: Frame)

  datatype Pool = Pool(storage: seq<EventView>)

  /** `init()`: a pool with nothing stored. */
  function NewPool(): (p: Pool)
    ensures |p.storage| == 0
  {
    Pool([])
  }

  /** The same view with its frame reset to zero. */
  function Reset(v: EventView): (r: EventView)
    ensures r.id == v.id && r.frame == ZeroFrame
  {
    v.(frame := ZeroFrame)
  }

  function ResetAll(views: seq<EventView>): (r: seq<EventView>)
    ensures |r| == |views|
    ensures forall i :: 0 <= i < |r| ==> r[i] == Reset(views[i])
  {
    if |views| == 0 then [] else ResetAll(views[..|views| - 1]) + [Reset(views[|views| - 1])]
  }

  /** `enqueue(views:)`: the views, frames reset, pushed in order after those already stored. */
  function Enqueue(pool: Pool, views: seq<EventView>): (r: Pool)
    ensures |r.storage| == |pool.storage| + |views|
    ensures r.storage[..|pool.storage|] == pool.storage
    ensures forall i :: 0 <= i < |views| ==>
      r.storage[|pool.storage| + i] == EventView(views[i].id, ZeroFrame)
  {
    Pool(pool.storage + ResetAll(views))
  }

  /** The view `dequeue` hands out and the pool it leaves behind. */
  datatype Dequeued = Dequeued(view: EventView, pool: Pool)

  /**
   `dequeue()`: the most recently stored view, removed from storage; when nothing
   is stored, a new view with id `newId` and a zero frame, storage left empty.
   */
  function Dequeue(pool: Pool, newId: ViewId): (r: Dequeued)
    ensures |pool.storage| == 0 ==> r.view == EventView(newId, ZeroFrame) && r.pool == pool
    ensures |pool.storage| > 0 ==>
      && r.view == pool.storage[|pool.storage| - 1]
      && r.pool.storage + [r.view] == pool.storage
  {
    if |pool.storage| == 0 then Dequeued(EventView(newId, ZeroFrame), pool)
    else Dequeued(pool.storage[|pool.storage| - 1], Pool(pool.storage[..|pool.storage| - 1]))
  }

  /** Every stored view has a zero frame, as long as it only ever came in through `enqueue`. */
  predicate AllReset(pool: Pool) {
    forall i :: 0 <= i < |pool.storage| ==> pool.storage[i].frame == ZeroFrame
  }

  lemma EnqueueKeepsReset(pool: Pool, views: seq<EventView>)
    requires AllReset(pool)
    ensures AllReset(Enqueue(pool, views))
  {
    var r := Enqueue(pool, views);
    var n := |pool.storage|;
    forall i | 0 <= i < |r.storage|
      ensures r.storage[i].frame == ZeroFrame
    {
      if i < n {
        assert r.storage[i] == r.storage[..n][i];
      } else {
        assert r.storage[n + (i - n)] == EventView(views[i - n].id, ZeroFrame);
      }
    }
  }

  /** Whatever `dequeue` hands out has a zero frame when the pool holds only reset views. */
  lemma DequeueGivesReset(pool: Pool, newId: ViewId)
    requires AllReset(pool)
    ensures Dequeue(pool, newId).view.frame == ZeroFrame
    ensures AllReset(Dequeue(pool, newId).pool)
  {
    var rest := Dequeue(pool, newId).pool;
    if |pool.storage| > 0 {
      forall i | 0 <= i < |rest.storage|
        ensures rest.storage[i].frame == ZeroFrame
      {
        assert rest.storage[i] == pool.storage[i];
      }
    }
  }

  /** Enqueueing one view and dequeueing gives that view back, frame reset, and
      leaves the storage as it was. */
  lemma EnqueueDequeueRoundTrip(pool: Pool, v: EventView, newId: ViewId)
    ensures Dequeue(Enqueue(pool, [v]), newId) == Dequeued(Reset(v), pool)
  {
    var pushed := Enqueue(pool, [v]);
    var n := |pool.storage|;
    assert pushed.storage[n] == Reset(v);
    assert pushed.storage[..n] == pool.storage;
  }

  /** `n` dequeues in a row: the views in the order handed out, and the pool left behind.
      Fresh views get the ids `newId`, `newId + 1`, … */
  function DequeueMany(pool: Pool, n: nat, newId: ViewId): (seq<EventView>, Pool)
    decreases n
  {
    if n == 0 then ([], pool)
    else
      var first := Dequeue(pool, newId);
      var (more, left) := DequeueMany(first.pool, n - 1, newId + 1);
      ([first.view] + more, left)
  }

  function Reverse<T>(s: seq<T>): (r: seq<T>)
    ensures |r| == |s|
    ensures forall i :: 0 <= i < |s| ==> r[i] == s[|s| - 1 - i]
  {
    if |s| == 0 then [] else [s[|s| - 1]] + Reverse(s[..|s| - 1])
  }

  /** Last in, first out: draining as many views as were enqueued hands them back in
      reverse order, frames reset, and restores the storage. */
  lemma {:induction false} DrainReversesEnqueue(pool: Pool, views: seq<EventView>, newId: ViewId)
    ensures DequeueMany(Enqueue(pool, views), |views|, newId) == (Reverse(ResetAll(views)), pool)
    decreases |views|
  {
    if |views| > 0 {
      var n := |views|;
      var front := views[..n - 1];
      var pushed := Enqueue(pool, views);
      assert pushed.storage == Enqueue(pool, front).storage + [Reset(views[n - 1])];
      assert Dequeue(pushed, newId) == Dequeued(Reset(views[n - 1]), Enqueue(pool, front));
      DrainReversesEnqueue(pool, front, newId + 1);
      assert ResetAll(views)[..n - 1] == ResetAll(front);
      assert Reverse(ResetAll(views)) == [Reset(views[n - 1])] + Reverse(ResetAll(front));
    } else {
      assert Enqueue(pool, views).storage == pool.storage + [];
      assert Enqueue(pool, views) == pool;
      assert ResetAll(views) == [];
      assert Reverse(ResetAll(views)) == [];
      assert DequeueMany(pool, 0, newId) == ([], pool);
    }
  }
}
