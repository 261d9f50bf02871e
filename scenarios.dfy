/**
 * Short client sessions on fresh pools, each proved to end in the outcome the
 * pools promise: LIFO reuse, a blocked borrower woken by a return, a bounded wait
 * that times out, a closed pool refusing work, an eviction run dropping only
 * the stale entry, and the rolling mean of the v2 timing statistics.
 */
module Scenarios {
  import opened Optional
  import opened Pool1Spec
  import opened Pool1
  import opened Pool2Stats

  /** A factory that always hands out `obj` and whose checks all pass. */
  function Making(obj: Option<int>): (hooks: Hooks<int>)
    ensures hooks.make == obj
    ensures forall x :: Usable(x, hooks, true) && ReturnPasses(x, hooks, true)
  {
    Hooks(obj, x => true, x => true, x => true, x => true)
  }

  /** A pool of defaults with a factory installed and the given cap, exhausted
   *  action and wait limit. */
  method FreshPool(maxActive: int, action: WhenExhaustedAction, maxWait: int, minEvictable: int)
    returns (pool: GenericObjectPool<int>)
    ensures fresh(pool) && pool.Valid() && !pool.closed
    ensures pool.idle == [] && pool.numActive == 0 && pool.evictionCursor == None
    ensures pool.factory == Some(0) && pool.maxActive == maxActive && pool.maxWait == maxWait
    ensures pool.whenExhaustedAction == action && pool.maxIdle == DEFAULT_MAX_IDLE
    ensures !pool.testOnBorrow && !pool.testOnReturn && !pool.testWhileIdle
    ensures pool.numTestsPerEvictionRun == DEFAULT_NUM_TESTS_PER_EVICTION_RUN
    ensures pool.minEvictableIdleTimeMillis == minEvictable
  {
    pool := new GenericObjectPool(Some(0), maxActive, action, maxWait, DEFAULT_MAX_IDLE, false, false,
                                  DEFAULT_TIME_BETWEEN_EVICTION_RUNS_MILLIS, DEFAULT_NUM_TESTS_PER_EVICTION_RUN,
                                  minEvictable, false);
  }

  /** Objects 1 and 2 are lent out and returned in that order; the next two
   *  borrows hand back 2 first, then 1. */
  method LifoReuse() returns (first: BorrowResult<int>, second: BorrowResult<int>)
    ensures first == Borrowed(2) && second == Borrowed(1)
  {
    var pool := FreshPool(8, Block, -1, DEFAULT_MIN_EVICTABLE_IDLE_TIME_MILLIS);
    var a := pool.BorrowObject(0, Making(Some(1)));
    var b := pool.BorrowObject(0, Making(Some(2)));
    assert a == Borrowed(1) && b == Borrowed(2);
    var c := pool.ReturnObject(1, 5, Making(None));
    c := pool.ReturnObject(2, 6, Making(None));
    assert pool.idle == [Pair(2, 6), Pair(1, 5)];
    first := pool.BorrowObject(10, Making(None));
    second := pool.BorrowObject(11, Making(None));
  }

  /** With two objects lent out of a pool capped at two, a third borrower at
   *  time 10 must wait until at most 110; a return at 50 lets it resume and
   *  take the returned object. */
  method BlockedBorrowerIsServed() returns (waiting: BorrowResult<int>, resumed: BorrowResult<int>)
    ensures waiting == MustWait(Some(110))
    ensures resumed == Borrowed(1)
  {
    var pool := FreshPool(2, Block, 100, DEFAULT_MIN_EVICTABLE_IDLE_TIME_MILLIS);
    var a := pool.BorrowObject(0, Making(Some(1)));
    var b := pool.BorrowObject(0, Making(Some(2)));
    assert pool.numActive == 2;
    waiting := pool.BorrowObject(10, Making(Some(3)));
    var c := pool.ReturnObject(1, 50, Making(None));
    resumed := pool.ResumeBorrow(10, 50, Making(Some(3)));
  }

  /** Under the corrected deadline, a borrower that started at 0 on a full pool
   *  with maxWait 100 waits again when woken at 60 and times out when woken
   *  at 100. */
  method BoundedWaitTimesOut() returns (early: BorrowResult<int>, late: BorrowResult<int>)
    ensures early == MustWait(Some(100))
    ensures late == BorrowFailed(TimedOut)
  {
    var pool := FreshPool(1, Block, 100, DEFAULT_MIN_EVICTABLE_IDLE_TIME_MILLIS);
    var a := pool.BorrowObject(0, Making(Some(1)));
    var waiting := pool.BorrowObject(0, Making(Some(2)));
    assert waiting == MustWait(Some(100));
    early := pool.ResumeBorrow(0, 60, Making(Some(2)));
    late := pool.ResumeBorrow(0, 100, Making(Some(2)));
  }

  /** Under FAIL, the borrow beyond the cap throws at once; under GROW it is
   *  served with a new object. */
  method ExhaustedActions() returns (failed: BorrowResult<int>, grown: BorrowResult<int>)
    ensures failed == BorrowFailed(Exhausted)
    ensures grown == Borrowed(2)
  {
    var strict := FreshPool(1, Fail, -1, DEFAULT_MIN_EVICTABLE_IDLE_TIME_MILLIS);
    var a := strict.BorrowObject(0, Making(Some(1)));
    failed := strict.BorrowObject(0, Making(Some(2)));
    var growing := FreshPool(1, Grow, -1, DEFAULT_MIN_EVICTABLE_IDLE_TIME_MILLIS);
    var b := growing.BorrowObject(0, Making(Some(1)));
    grown := growing.BorrowObject(0, Making(Some(2)));
  }

  /** A closed pool refuses borrows and returns, and a second close throws. */
  method ClosedPoolRefuses() returns (borrow: BorrowResult<int>, giveBack: Completion, again: Completion)
    ensures borrow == BorrowFailed(IllegalState)
    ensures giveBack == Threw(IllegalState) && again == Threw(IllegalState)
  {
    var pool := FreshPool(8, Block, -1, DEFAULT_MIN_EVICTABLE_IDLE_TIME_MILLIS);
    var added := pool.AddObject(0, Making(Some(1)));
    var c := pool.Close();
    assert pool.closed;
    borrow := pool.BorrowObject(1, Making(Some(2)));
    giveBack := pool.ReturnObject(1, 2, Making(None));
    again := pool.Close();
  }

  /** With a 1000 ms idle limit, an eviction run at 2000 drops the object idle
   *  since 0 and keeps the one idle since 1500. */
  method EvictionDropsStaleEntry() returns (kept: seq<Pair<int>>)
    ensures kept == [Pair(2, 1500)]
  {
    var pool := FreshPool(8, Block, -1, 1000);
    var c := pool.AddObject(0, Making(Some(1)));
    c := pool.AddObject(1500, Making(Some(2)));
    assert pool.idle == [Pair(2, 1500), Pair(1, 0)];
    var env := pool.EvictSettings(2000, Making(None));
    var first := IdleScan(pool.idle, 2);
    assert ScanStep(first, env) == IdleScan([Pair(2, 1500)], 1);
    assert ScanStep(IdleScan([Pair(2, 1500)], 1), env) == IdleScan([Pair(2, 1500)], 0);
    c := pool.Evict(2000, Making(None));
    kept := pool.idle;
  }

  /** A store of two slots fed 5, 7 and 9 keeps the last two samples, and
   *  their mean is 8. */
  method RollingMean() returns (kept: seq<int>, mean: int)
    ensures kept == [9, 7] && mean == 8
  {
    var store := new StatsStore(2);
    store.Add(5);
    store.Add(7);
    store.Add(9);
    kept := store.values[..];
    assert kept[..1] == [9] && kept[..1][..0] == [];
    assert PopulatedSum(kept[..1]) == 9;
    assert PopulatedCount(kept) == 2 && PopulatedSum(kept) == 16;
    mean := store.GetMean();
  }
}
