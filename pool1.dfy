/**
 * The v1 GenericObjectPool: a LIFO list of idle objects with timestamps, a
 * count of objects lent out, the configuration that bounds both, and the
 * operations that lend, take back, destroy and evict objects.
 *
 * Each operation runs to completion on the calling thread; a borrow that would
 * block returns `MustWait` instead, and the caller resumes it with
 * `ResumeBorrow` once it is woken. The clock reading (`now`) and the factory's
 * behaviour (`hooks`) are parameters of each operation.
 */
module Pool1 {
  import opened Optional
  import opened Pool1Spec

  /** Names the factory object installed in the pool; what that factory does
   *  reaches each operation as its `Hooks`. */
  type FactoryId = nat

  class GenericObjectPool<T> {
    var factory: Option<FactoryId>
    var maxActive: int
    var whenExhaustedAction: WhenExhaustedAction
    var maxWait: int
    var maxIdle: int
    var testOnBorrow: bool
    var testOnReturn: bool
    var timeBetweenEvictionRunsMillis: int
    var numTestsPerEvictionRun: int
    var minEvictableIdleTimeMillis: int
    var testWhileIdle: bool

    /** The idle objects, most recently returned first. */
    var idle: seq<Pair<T>>
    /** Objects lent out and not yet returned or invalidated. */
    var numActive: int
    /** The evictor's position in `idle` between runs (see Pool1Spec). */
    var evictionCursor: Option<nat>
    /** The period of the running evictor thread, if one runs. */
    var evictor: Option<int>
    var closed: bool

    ghost predicate Valid()
      reads this
    {
      && (evictionCursor.Some? ==> evictionCursor.value <= |idle|)
      && (evictor.Some? ==> evictor.value > 0)
      && (closed ==> idle == [] && factory.None? && evictionCursor.None?)
    }

    function BorrowSettings(): BorrowConfig
      reads this`maxActive, this`whenExhaustedAction, this`maxWait, this`testOnBorrow
    {
      BorrowConfig(maxActive, whenExhaustedAction, maxWait, testOnBorrow)
    }

    function EvictSettings(now: int, hooks: Hooks<T>): EvictEnv<T>
      reads this`minEvictableIdleTimeMillis, this`testWhileIdle
    {
      EvictEnv(minEvictableIdleTimeMillis, testWhileIdle, now, hooks)
    }

    /** The full constructor, given an already recognised exhausted action; an
     *  evictor starts when the period is positive. */
    constructor (factory: Option<FactoryId>, maxActive: int, whenExhaustedAction: WhenExhaustedAction,
                 maxWait: int, maxIdle: int, testOnBorrow: bool, testOnReturn: bool,
                 timeBetweenEvictionRunsMillis: int, numTestsPerEvictionRun: int,
                 minEvictableIdleTimeMillis: int, testWhileIdle: bool)
      ensures Valid() && !closed
      ensures this.factory == factory && this.maxActive == maxActive
      ensures this.whenExhaustedAction == whenExhaustedAction && this.maxWait == maxWait
      ensures this.maxIdle == maxIdle && this.testOnBorrow == testOnBorrow && this.testOnReturn == testOnReturn
      ensures this.timeBetweenEvictionRunsMillis == timeBetweenEvictionRunsMillis
      ensures this.numTestsPerEvictionRun == numTestsPerEvictionRun
      ensures this.minEvictableIdleTimeMillis == minEvictableIdleTimeMillis
      ensures this.testWhileIdle == testWhileIdle
      ensures idle == [] && numActive == 0 && evictionCursor == None
      ensures evictor.Some? <==> timeBetweenEvictionRunsMillis > 0
    {
      this.factory := factory;
      this.maxActive := maxActive;
      this.whenExhaustedAction := whenExhaustedAction;
      this.maxWait := maxWait;
      this.maxIdle := maxIdle;
      this.testOnBorrow := testOnBorrow;
      this.testOnReturn := testOnReturn;
      this.timeBetweenEvictionRunsMillis := timeBetweenEvictionRunsMillis;
      this.numTestsPerEvictionRun := numTestsPerEvictionRun;
      this.minEvictableIdleTimeMillis := minEvictableIdleTimeMillis;
      this.testWhileIdle := testWhileIdle;
      idle := [];
      numActive := 0;
      evictionCursor := None;
      evictor := None;
      closed := false;
      new;
      StartEvictor(timeBetweenEvictionRunsMillis);
    }

    /** The full constructor as called, with the exhausted action as a code:
     *  an unrecognised code is the IllegalArgumentException (None). */
    static method Create(factory: Option<FactoryId>, maxActive: int, whenExhaustedAction: int,
                         maxWait: int, maxIdle: int, testOnBorrow: bool, testOnReturn: bool,
                         timeBetweenEvictionRunsMillis: int, numTestsPerEvictionRun: int,
                         minEvictableIdleTimeMillis: int, testWhileIdle: bool)
      returns (pool: Option<GenericObjectPool<T>>)
      ensures pool.None? <==> ParseWhenExhaustedAction(whenExhaustedAction).None?
      ensures pool.Some? ==> fresh(pool.value) && pool.value.Valid() && !pool.value.closed
      ensures pool.Some? ==> ActionCode(pool.value.whenExhaustedAction) == whenExhaustedAction
      ensures pool.Some? ==> pool.value.idle == [] && pool.value.numActive == 0
      ensures pool.Some? ==> pool.value.factory == factory && pool.value.maxActive == maxActive
                             && pool.value.maxWait == maxWait && pool.value.maxIdle == maxIdle
      ensures pool.Some? ==> pool.value.testOnBorrow == testOnBorrow && pool.value.testOnReturn == testOnReturn
                             && pool.value.testWhileIdle == testWhileIdle
      ensures pool.Some? ==> pool.value.timeBetweenEvictionRunsMillis == timeBetweenEvictionRunsMillis
                             && pool.value.numTestsPerEvictionRun == numTestsPerEvictionRun
                             && pool.value.minEvictableIdleTimeMillis == minEvictableIdleTimeMillis
      ensures pool.Some? ==> pool.value.evictionCursor == None
      ensures pool.Some? ==> (pool.value.evictor.Some? <==> timeBetweenEvictionRunsMillis > 0)
    {
      match ParseWhenExhaustedAction(whenExhaustedAction)
      case None =>
        pool := None;
      case Some(action) =>
        var p := new GenericObjectPool(factory, maxActive, action, maxWait, maxIdle, testOnBorrow, testOnReturn,
                                       timeBetweenEvictionRunsMillis, numTestsPerEvictionRun,
                                       minEvictableIdleTimeMillis, testWhileIdle);
        pool := Some(p);
    }

    /** The no-argument constructor: no factory and every setting at its default. */
    static method WithDefaults() returns (pool: GenericObjectPool<T>)
      ensures fresh(pool) && pool.Valid() && !pool.closed
      ensures pool.factory == None && pool.idle == [] && pool.numActive == 0
      ensures pool.maxActive == DEFAULT_MAX_ACTIVE && pool.maxIdle == DEFAULT_MAX_IDLE
      ensures pool.whenExhaustedAction == Block && pool.maxWait == DEFAULT_MAX_WAIT
      ensures !pool.testOnBorrow && !pool.testOnReturn && !pool.testWhileIdle
      ensures pool.numTestsPerEvictionRun == 3 && pool.minEvictableIdleTimeMillis == 1800000
      ensures pool.timeBetweenEvictionRunsMillis == DEFAULT_TIME_BETWEEN_EVICTION_RUNS_MILLIS
      ensures pool.evictionCursor == None && pool.evictor == None
    {
      pool := new GenericObjectPool(None, DEFAULT_MAX_ACTIVE, DEFAULT_WHEN_EXHAUSTED_ACTION, DEFAULT_MAX_WAIT,
                                    DEFAULT_MAX_IDLE, DEFAULT_TEST_ON_BORROW, DEFAULT_TEST_ON_RETURN,
                                    DEFAULT_TIME_BETWEEN_EVICTION_RUNS_MILLIS, DEFAULT_NUM_TESTS_PER_EVICTION_RUN,
                                    DEFAULT_MIN_EVICTABLE_IDLE_TIME_MILLIS, DEFAULT_TEST_WHILE_IDLE);
    }

    /** Accepts only the three action codes; any other leaves the setting as it
     *  was and throws IllegalArgumentException. */
    method SetWhenExhaustedAction(code: int) returns (c: Completion)
      modifies this`whenExhaustedAction
      ensures c == Completed <==> ParseWhenExhaustedAction(code).Some?
      ensures c == Completed ==> ActionCode(whenExhaustedAction) == code
      ensures c != Completed ==> c == Threw(IllegalArgument) && whenExhaustedAction == old(whenExhaustedAction)
    {
      match ParseWhenExhaustedAction(code)
      case None =>
        c := Threw(IllegalArgument);
      case Some(action) =>
        whenExhaustedAction := action;
        c := Completed;
    }

    /** Records the period and restarts the evictor with it. */
    method SetTimeBetweenEvictionRunsMillis(millis: int)
      requires Valid()
      modifies this`timeBetweenEvictionRunsMillis, this`evictor
      ensures Valid()
      ensures timeBetweenEvictionRunsMillis == millis
      ensures evictor == (if millis > 0 then Some(millis) else None)
    {
      timeBetweenEvictionRunsMillis := millis;
      StartEvictor(millis);
    }

    /** Cancels a running evictor and, for a positive delay, starts a new one. */
    method StartEvictor(delay: int)
      requires evictor.Some? ==> evictor.value > 0
      modifies this`evictor
      ensures evictor == (if delay > 0 then Some(delay) else None)
    {
      if evictor.Some? {
        evictor := None;
      }
      if delay > 0 {
        evictor := Some(delay);
      }
    }

    /** borrowObject: on an open pool, one pass of the borrow loop started at
     *  `now` (see Pool1Spec.Acquire). */
    method BorrowObject(now: int, hooks: Hooks<T>) returns (r: BorrowResult<T>)
      requires Valid()
      modifies this`idle, this`numActive, this`evictionCursor
      ensures Valid()
      ensures old(closed) ==> r == BorrowFailed(IllegalState) && unchanged(this)
      ensures r != BorrowFailed(TimedOut) && r != BorrowFailed(NullPointer)
      ensures !old(closed) ==>
        BorrowStep(r, idle, numActive, evictionCursor)
        == Acquire(old(idle), old(numActive), old(evictionCursor), BorrowSettings(), now, hooks)
    {
      if closed {
        return BorrowFailed(IllegalState);
      }
      r := AcquireLoop(now, hooks);
    }

    /** A borrower that started at `start` and was told to wait goes on at
     *  `now`: it times out once maxWait has elapsed since `start`; otherwise it
     *  loops again (on a pool closed meanwhile, the cleared list throws). */
    method ResumeBorrow(start: int, now: int, hooks: Hooks<T>) returns (r: BorrowResult<T>)
      requires Valid()
      modifies this`idle, this`numActive, this`evictionCursor
      ensures Valid()
      ensures WaitExpired(maxWait, start, now) ==> r == BorrowFailed(TimedOut) && unchanged(this)
      ensures r == BorrowFailed(TimedOut) <==> WaitExpired(maxWait, start, now)
      ensures r == BorrowFailed(NullPointer) <==> !WaitExpired(maxWait, start, now) && old(closed)
      ensures !WaitExpired(maxWait, start, now) && old(closed) ==> r == BorrowFailed(NullPointer) && unchanged(this)
      ensures !WaitExpired(maxWait, start, now) && !old(closed) ==>
        BorrowStep(r, idle, numActive, evictionCursor)
        == Acquire(old(idle), old(numActive), old(evictionCursor), BorrowSettings(), start, hooks)
    {
      if maxWait > 0 && now - start >= maxWait {
        return BorrowFailed(TimedOut);
      }
      if closed {
        return BorrowFailed(NullPointer);
      }
      r := AcquireLoop(start, hooks);
    }

    /** The body of borrowObject's loop, run until it hands out an object,
     *  throws or must wait: idle objects are taken off the head (and counted
     *  as active) one at a time, and one that fails activation or validation
     *  is destroyed and uncounted; once the list is empty, BorrowDrained
     *  decides. */
    method AcquireLoop(start: int, hooks: Hooks<T>) returns (r: BorrowResult<T>)
      requires Valid()
      modifies this`idle, this`numActive, this`evictionCursor
      ensures Valid()
      ensures BorrowStep(r, idle, numActive, evictionCursor)
              == Acquire(old(idle), old(numActive), old(evictionCursor), BorrowSettings(), start, hooks)
    {
      ghost var config := BorrowSettings();
      ghost var target := Acquire(idle, numActive, evictionCursor, config, start, hooks);
      while idle != []
        invariant Valid()
        invariant numActive == old(numActive)
        invariant Acquire(idle, numActive, evictionCursor, config, start, hooks) == target
        decreases |idle|
      {
        numActive := numActive + 1;
        var pair := idle[0];
        idle := idle[1..];
        evictionCursor := AfterRemoveFirst(evictionCursor, 1);
        if hooks.activate(pair.value) && (!testOnBorrow || hooks.validate(pair.value)) {
          return Borrowed(pair.value);
        }
        // the object is destroyed, and a failure to destroy it is ignored
        numActive := numActive - 1;
      }
      r := BorrowDrained(start, hooks);
    }

    /** borrowObject's loop once no idle object is left: make a new object
     *  within the cap (or beyond it under GROW), else throw (FAIL) or wait
     *  (BLOCK); a new object that fails activation or validation is destroyed
     *  and the borrow throws. */
    method BorrowDrained(start: int, hooks: Hooks<T>) returns (r: BorrowResult<T>)
      requires idle == []
      modifies this`numActive
      ensures BorrowStep(r, idle, numActive, evictionCursor)
              == AcquireDrained(old(numActive), evictionCursor, BorrowSettings(), start, hooks)
    {
      if !(maxActive <= 0 || numActive < maxActive) {
        match whenExhaustedAction
        case Grow =>
        case Fail =>
          return BorrowFailed(Exhausted);
        case Block =>
          return MustWait(WakeBy(maxWait, start));
      }
      numActive := numActive + 1;
      match hooks.make
      case None =>
        numActive := numActive - 1;
        r := BorrowFailed(FactoryFailed);
      case Some(obj) =>
        if hooks.activate(obj) && (!testOnBorrow || hooks.validate(obj)) {
          r := Borrowed(obj);
        } else {
          // the object is destroyed, and a failure to destroy it is ignored
          numActive := numActive - 1;
          r := BorrowFailed(NotValidated);
        }
    }

    /** returnObject: the object is kept at the head of the idle list when it
     *  passes test-on-return and passivation and the list is below maxIdle;
     *  otherwise it is destroyed. Either way one fewer object is active. */
    method ReturnObject(obj: T, now: int, hooks: Hooks<T>) returns (c: Completion)
      requires Valid()
      modifies this`idle, this`numActive, this`evictionCursor
      ensures Valid()
      ensures old(closed) ==> c == Threw(IllegalState) && unchanged(this)
      ensures !old(closed) ==> c == Completed && numActive == old(numActive) - 1
      ensures !old(closed) ==>
        var keep := KeepOnReturn(maxIdle, |old(idle)|, ReturnPasses(obj, hooks, testOnReturn));
        && idle == (if keep then [Pair(obj, now)] + old(idle) else old(idle))
        && evictionCursor == (if keep then AfterAddFirst(old(evictionCursor)) else old(evictionCursor))
      ensures maxIdle >= 0 && |old(idle)| <= maxIdle ==> |idle| <= maxIdle
    {
      if closed {
        return Threw(IllegalState);
      }
      var success := true;
      if testOnReturn && !hooks.validate(obj) {
        success := false;
      } else if !hooks.passivate(obj) {
        success := false;
      }
      numActive := numActive - 1;
      if maxIdle >= 0 && |idle| >= maxIdle {
        // destroyed: the idle list is full
      } else if success {
        idle := [Pair(obj, now)] + idle;
        evictionCursor := AfterAddFirst(evictionCursor);
      }
      c := Completed;
    }

    /** invalidateObject: one fewer object is active and the object is
     *  destroyed; a failing destroy is rethrown after the count changed. */
    method InvalidateObject(obj: T, hooks: Hooks<T>) returns (c: Completion)
      requires Valid()
      modifies this`numActive
      ensures old(closed) ==> c == Threw(IllegalState) && numActive == old(numActive)
      ensures !old(closed) ==> numActive == old(numActive) - 1
      ensures !old(closed) ==> c == (if hooks.destroy(obj) then Completed else Threw(FactoryFailed))
    {
      if closed {
        return Threw(IllegalState);
      }
      numActive := numActive - 1;
      if !hooks.destroy(obj) {
        return Threw(FactoryFailed);
      }
      c := Completed;
    }

    /** clear: every idle object is destroyed (failures ignored); a cursor is
     *  left on the empty list. */
    method Clear() returns (c: Completion)
      requires Valid()
      modifies this`idle, this`evictionCursor
      ensures Valid()
      ensures old(closed) ==> c == Threw(IllegalState) && unchanged(this)
      ensures !old(closed) ==> c == Completed && idle == []
      ensures !old(closed) ==> evictionCursor == (if old(evictionCursor).Some? then Some(0) else None)
    {
      if closed {
        return Threw(IllegalState);
      }
      idle := [];
      if evictionCursor.Some? {
        evictionCursor := Some(0);
      }
      c := Completed;
    }

    /** close: clears the pool (so closing twice throws), drops the idle list,
     *  the factory and the cursor, stops the evictor and marks the pool closed. */
    method Close() returns (c: Completion)
      requires Valid()
      modifies this`idle, this`evictionCursor, this`factory, this`evictor, this`closed
      ensures Valid()
      ensures old(closed) ==> c == Threw(IllegalState) && unchanged(this)
      ensures !old(closed) ==> c == Completed && closed
      ensures !old(closed) ==> idle == [] && factory == None && evictionCursor == None && evictor == None
    {
      c := Clear();
      if c != Completed {
        return;
      }
      idle := [];
      factory := None;
      evictionCursor := None;
      StartEvictor(-1);
      closed := true;
    }

    /** setFactory: refused while objects are lent out; otherwise the idle
     *  objects of the old factory are cleared and the new one installed. */
    method SetFactory(f: Option<FactoryId>) returns (c: Completion)
      requires Valid()
      modifies this`idle, this`evictionCursor, this`factory
      ensures Valid()
      ensures old(closed) ==> c == Threw(IllegalState) && unchanged(this)
      ensures !old(closed) && old(numActive) > 0 ==> c == Threw(ObjectsActive) && unchanged(this)
      ensures !old(closed) && old(numActive) <= 0 ==> c == Completed && factory == f && idle == []
      ensures !old(closed) && old(numActive) <= 0 ==>
        evictionCursor == (if old(evictionCursor).Some? then Some(0) else None)
    {
      if closed {
        return Threw(IllegalState);
      }
      if 0 < numActive {
        return Threw(ObjectsActive);
      }
      c := Clear();
      factory := f;
    }

    /** evict: one run of the evictor over the idle list, resuming where the
     *  cursor stopped (see Pool1Spec.EvictRun). */
    method Evict(now: int, hooks: Hooks<T>) returns (c: Completion)
      requires Valid()
      modifies this`idle, this`evictionCursor
      ensures Valid()
      ensures old(closed) ==> c == Threw(IllegalState) && unchanged(this)
      ensures !old(closed) ==> c == Completed
      ensures !old(closed) ==>
        (idle, evictionCursor)
        == EvictRun(old(idle), old(evictionCursor), numTestsPerEvictionRun, EvictSettings(now, hooks))
    {
      if closed {
        return Threw(IllegalState);
      }
      c := Completed;
      if idle == [] {
        return;
      }
      if evictionCursor.None? || evictionCursor.value == 0 {
        evictionCursor := Some(|idle|);
      }
      ghost var env := EvictSettings(now, hooks);
      ghost var first := IdleScan(idle, evictionCursor.value);
      var m := NumTests(numTestsPerEvictionRun, |idle|);
      var i := 0;
      while i < m
        invariant 0 <= i <= m
        invariant evictionCursor.Some? && evictionCursor.value <= |idle|
        invariant IdleScan(idle, evictionCursor.value) == Scan(first, env, i)
      {
        EvictStep(now, hooks);
        i := i + 1;
      }
    }

    /** One iteration of evict()'s loop: a cursor at the head restarts at the
     *  tail; otherwise it steps back over one entry, removing it if the
     *  examination says so (see Pool1Spec.ScanStep). */
    method EvictStep(now: int, hooks: Hooks<T>)
      requires evictionCursor.Some? && evictionCursor.value <= |idle|
      modifies this`idle, this`evictionCursor
      ensures evictionCursor.Some? && evictionCursor.value <= |idle|
      ensures IdleScan(idle, evictionCursor.value)
              == ScanStep(IdleScan(old(idle), old(evictionCursor).value), EvictSettings(now, hooks))
    {
      var cursor := evictionCursor.value;
      if cursor == 0 {
        evictionCursor := Some(|idle|);
      } else {
        var pair := idle[cursor - 1];
        evictionCursor := Some(cursor - 1);
        var removeObject := ExamineIdle(pair, now, hooks);
        if removeObject {
          // the object is destroyed, and a failure to destroy it is ignored
          idle := RemoveAt(idle, cursor - 1);
        }
      }
    }

    /** One examination by the evictor: an entry idle for longer than a
     *  positive minEvictableIdleTimeMillis is removed; otherwise, under
     *  testWhileIdle, one that fails activation, validation or passivation is. */
    method ExamineIdle(pair: Pair<T>, now: int, hooks: Hooks<T>) returns (removeObject: bool)
      ensures removeObject == ShouldEvict(pair, EvictSettings(now, hooks))
    {
      removeObject := false;
      if minEvictableIdleTimeMillis > 0 && now - pair.tstamp > minEvictableIdleTimeMillis {
        removeObject := true;
      } else if testWhileIdle {
        var active := false;
        if hooks.activate(pair.value) {
          active := true;
        } else {
          removeObject := true;
        }
        if active {
          if !hooks.validate(pair.value) {
            removeObject := true;
          } else if !hooks.passivate(pair.value) {
            removeObject := true;
          }
        }
      }
    }

    /** addObject: makes an object and hands it to returnObject as if it had
     *  been lent out, so the active count ends where it started. */
    method AddObject(now: int, hooks: Hooks<T>) returns (c: Completion)
      requires Valid()
      modifies this`idle, this`numActive, this`evictionCursor
      ensures Valid()
      ensures old(factory).None? ==> c == Threw(NullPointer) && unchanged(this)
      ensures old(factory).Some? && hooks.make.None? ==> c == Threw(FactoryFailed) && unchanged(this)
      ensures old(factory).Some? && hooks.make.Some? ==>
        var obj := hooks.make.value;
        var keep := KeepOnReturn(maxIdle, |old(idle)|, ReturnPasses(obj, hooks, testOnReturn));
        && c == Completed
        && numActive == old(numActive)
        && idle == (if keep then [Pair(obj, now)] + old(idle) else old(idle))
        && evictionCursor == (if keep then AfterAddFirst(old(evictionCursor)) else old(evictionCursor))
    {
      if factory.None? {
        return Threw(NullPointer);
      }
      match hooks.make
      case None =>
        c := Threw(FactoryFailed);
      case Some(obj) =>
        numActive := numActive + 1;
        c := ReturnObject(obj, now, hooks);
    }
  }
}
