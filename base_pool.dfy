/**
 * State shared by the v2 pools: the open/closed flag, the evictor schedule and
 * the eviction iterator, the borrow/return statistics, the order in which the
 * evictor walks the idle deque, and the identity wrapper used to key the
 * registry of all managed objects.
 */
module Pool2Base {
  import opened Optional
  import opened Pool2Stats

  /** Defaults of the pool configuration. */
  const DEFAULT_LIFO: bool := true
  const DEFAULT_TIME_BETWEEN_EVICTION_RUNS_MILLIS: int := -1

  /** Result of `assertOpen`: nothing, or an IllegalStateException. */
  datatype Outcome = Pass | IllegalState

  function Max(a: int, b: int): int
  {
    if a >= b then a else b
  }

  /** The recorded maximum after the given wait times were reported one by one,
   *  starting from `init`. */
  function RunningMax(init: int, waits: seq<int>): (max: int)
    ensures max >= init
    ensures forall i :: 0 <= i < |waits| ==> max >= waits[i]
  {
    if waits == [] then init else Max(RunningMax(init, waits[..|waits| - 1]), waits[|waits| - 1])
  }

  /** The running maximum is attained: it is the initial value or one of the
   *  waits reported, so with RunningMax's bounds it is the largest of them. */
  lemma {:induction false} RunningMaxIsMaximum(init: int, waits: seq<int>)
    ensures RunningMax(init, waits) == init || RunningMax(init, waits) in waits
  {
    if waits != [] {
      var front := waits[..|waits| - 1];
      RunningMaxIsMaximum(init, front);
      assert forall i :: 0 <= i < |front| ==> waits[i] == front[i];
    }
  }

  /** Tail-to-head order of a deque: the deque reversed. */
  function Descending<T>(s: seq<T>): (r: seq<T>)
    ensures |r| == |s|
    ensures forall k :: 0 <= k < |s| ==> r[k] == s[|s| - 1 - k]
  {
    if s == [] then [] else [s[|s| - 1]] + Descending(s[..|s| - 1])
  }

  lemma {:induction false} DescendingPermutes<T>(s: seq<T>)
    ensures multiset(Descending(s)) == multiset(s)
  {
    if s != [] {
      DescendingPermutes(s[..|s| - 1]);
      assert s == s[..|s| - 1] + [s[|s| - 1]];
    }
  }

  /** The order in which the eviction iterator visits the idle deque: tail to
   *  head when the pool is LIFO, head to tail otherwise. */
  function EvictionOrder<T>(idle: seq<T>, lifo: bool): (order: seq<T>)
    ensures |order| == |idle|
    ensures forall k :: 0 <= k < |idle| ==> order[k] == if lifo then idle[|idle| - 1 - k] else idle[k]
  {
    if lifo then Descending(idle) else idle
  }

  /** Either way, the evictor visits every idle object exactly once. */
  lemma EvictionOrderPermutes<T>(idle: seq<T>, lifo: bool)
    ensures multiset(EvictionOrder(idle, lifo)) == multiset(idle)
  {
    if lifo {
      DescendingPermutes(idle);
    }
  }

  /** Iterator over the idle deque used by one eviction run. It walks the deque
   *  as it stood when the iterator was made, in EvictionOrder. */
  class EvictionIterator<T> {
    const idleObjects: seq<T>
    const lifo: bool
    var visited: nat

    ghost predicate Valid()
      reads this
    {
      visited <= |idleObjects|
    }

    /** Chooses the walking direction from the pool's LIFO setting at creation. */
    constructor (idleObjects: seq<T>, lifo: bool)
      ensures Valid() && visited == 0
      ensures this.idleObjects == idleObjects && this.lifo == lifo
    {
      this.idleObjects := idleObjects;
      this.lifo := lifo;
      visited := 0;
    }

    predicate HasNext()
      reads this
    {
      visited < |idleObjects|
    }

    /** The next object in eviction order; None stands for the
     *  NoSuchElementException of an exhausted iterator. */
    method Next() returns (next: Option<T>)
      requires Valid()
      modifies this
      ensures Valid()
      ensures old(HasNext()) ==> next == Some(EvictionOrder(idleObjects, lifo)[old(visited)]) && visited == old(visited) + 1
      ensures !old(HasNext()) ==> next == None && visited == old(visited)
    {
      if visited < |idleObjects| {
        next := Some(EvictionOrder(idleObjects, lifo)[visited]);
        visited := visited + 1;
      } else {
        next := None;
      }
    }
  }

  /** Wraps a managed object so that maps key on its identity rather than on its
   *  own equals. */
  class IdentityWrapper {
    const instance: object?

    constructor (instance: object?)
      ensures this.instance == instance
    {
      this.instance := instance;
    }

    /** Equal exactly to another wrapper of the very same instance. */
    predicate Equals(other: object?): (equal: bool)
      ensures equal ==> other != null && other is IdentityWrapper
      ensures other == this ==> equal
    {
      other is IdentityWrapper && (other as IdentityWrapper).instance == instance
    }

    /** The identity hash of the wrapped instance; the platform's identity hash
     *  is a parameter. */
    function HashCode(identityHashCode: object? -> int): int
    {
      identityHashCode(instance)
    }
  }

  /** Two wrappers are equal exactly when they wrap the same reference, even when
   *  they are distinct wrapper objects. */
  lemma WrapperEqualityIsIdentity(a: IdentityWrapper, b: IdentityWrapper)
    ensures a.Equals(b) <==> a.instance == b.instance
  {
  }

  /** Nothing but a wrapper, and never null, equals a wrapper. */
  lemma OnlyWrappersAreEqual(a: IdentityWrapper, other: object?)
    requires other == null || !(other is IdentityWrapper)
    ensures !a.Equals(other)
  {
  }

  /** Equals is an equivalence relation on wrappers. */
  lemma WrapperEqualityIsEquivalence(a: IdentityWrapper, b: IdentityWrapper, c: IdentityWrapper)
    ensures a.Equals(a)
    ensures a.Equals(b) ==> b.Equals(a)
    ensures a.Equals(b) && b.Equals(c) ==> a.Equals(c)
  {
  }

  /** Equal wrappers hash alike, so they may key a hash map. */
  lemma EqualWrappersHashAlike(a: IdentityWrapper, b: IdentityWrapper, identityHashCode: object? -> int)
    requires a.Equals(b)
    ensures a.HashCode(identityHashCode) == b.HashCode(identityHashCode)
  {
  }

  class BaseGenericObjectPool<T> {
    var closed: bool
    var lifo: bool
    var timeBetweenEvictionRunsMillis: int
    /** The scheduled evictor task, as its period; None when no evictor runs. */
    var evictor: Option<int>
    var evictionIterator: EvictionIterator?<T>
    var borrowedCount: int
    var returnedCount: int
    var maxBorrowWaitTimeMillis: int
    const activeTimes: StatsStore
    const idleTimes: StatsStore
    const waitTimes: StatsStore

    ghost predicate Valid()
      reads this, activeTimes, idleTimes, waitTimes
    {
      && activeTimes.Valid() && idleTimes.Valid() && waitTimes.Valid()
      && activeTimes != idleTimes && idleTimes != waitTimes && activeTimes != waitTimes
      && activeTimes.values != idleTimes.values
      && idleTimes.values != waitTimes.values
      && activeTimes.values != waitTimes.values
      && (evictor.Some? ==> evictor.value > 0)
      && 0 <= borrowedCount && 0 <= returnedCount && 0 <= maxBorrowWaitTimeMillis
    }

    /** A new pool: open, no evictor, zeroed counters, empty statistics caches. */
    constructor ()
      ensures Valid()
      ensures !closed && lifo == DEFAULT_LIFO
      ensures timeBetweenEvictionRunsMillis == DEFAULT_TIME_BETWEEN_EVICTION_RUNS_MILLIS
      ensures evictor == None && evictionIterator == null
      ensures borrowedCount == 0 && returnedCount == 0 && maxBorrowWaitTimeMillis == 0
      ensures fresh(activeTimes) && fresh(idleTimes) && fresh(waitTimes)
      ensures fresh(activeTimes.values) && fresh(idleTimes.values) && fresh(waitTimes.values)
      ensures activeTimes.size == idleTimes.size == waitTimes.size == MEAN_TIMING_STATS_CACHE_SIZE
      ensures activeTimes.index == 0 && idleTimes.index == 0 && waitTimes.index == 0
      ensures forall i :: 0 <= i < MEAN_TIMING_STATS_CACHE_SIZE ==>
        activeTimes.values[i] == UNPOPULATED && idleTimes.values[i] == UNPOPULATED && waitTimes.values[i] == UNPOPULATED
    {
      closed := false;
      lifo := DEFAULT_LIFO;
      timeBetweenEvictionRunsMillis := DEFAULT_TIME_BETWEEN_EVICTION_RUNS_MILLIS;
      evictor := None;
      evictionIterator := null;
      borrowedCount := 0;
      returnedCount := 0;
      maxBorrowWaitTimeMillis := 0;
      activeTimes := new StatsStore(MEAN_TIMING_STATS_CACHE_SIZE);
      idleTimes := new StatsStore(MEAN_TIMING_STATS_CACHE_SIZE);
      waitTimes := new StatsStore(MEAN_TIMING_STATS_CACHE_SIZE);
    }

    /** Fails exactly when the pool has been closed. */
    function AssertOpen(): (r: Outcome)
      reads this
      ensures r == IllegalState <==> closed
    {
      if closed then IllegalState else Pass
    }

    /** Cancels the running evictor, if any (dropping the eviction iterator with
     *  it), then schedules a new one with the given period when it is positive. */
    method StartEvictor(delay: int)
      requires Valid()
      modifies this`evictor, this`evictionIterator
      ensures Valid()
      ensures evictor.Some? <==> delay > 0
      ensures evictor.Some? ==> evictor.value == delay
      ensures evictionIterator == if old(evictor).Some? then null else old(evictionIterator)
    {
      if evictor.Some? {
        evictor := None;
        evictionIterator := null;
      }
      if delay > 0 {
        evictor := Some(delay);
      }
    }

    /** Stores the new interval and restarts the evictor with it. */
    method SetTimeBetweenEvictionRunsMillis(millis: int)
      requires Valid()
      modifies this`timeBetweenEvictionRunsMillis, this`evictor, this`evictionIterator
      ensures Valid()
      ensures timeBetweenEvictionRunsMillis == millis
      ensures evictor == if millis > 0 then Some(millis) else None
      ensures evictionIterator == if old(evictor).Some? then null else old(evictionIterator)
    {
      timeBetweenEvictionRunsMillis := millis;
      StartEvictor(millis);
    }

    /** Statistics after a borrow: one more borrow, the object's idle time and
     *  the wait time go to their caches, and the maximum wait never decreases. */
    method UpdateStatsBorrow(idleTimeMillis: int, waitTime: int)
      requires Valid()
      modifies this`borrowedCount, this`maxBorrowWaitTimeMillis
      modifies idleTimes, idleTimes.values, waitTimes, waitTimes.values
      ensures Valid()
      ensures borrowedCount == old(borrowedCount) + 1
      ensures maxBorrowWaitTimeMillis == RunningMax(old(maxBorrowWaitTimeMillis), [waitTime])
      ensures maxBorrowWaitTimeMillis >= old(maxBorrowWaitTimeMillis) && maxBorrowWaitTimeMillis >= waitTime
      ensures idleTimes.values[..] == old(idleTimes.values[..])[old(idleTimes.index) := idleTimeMillis]
      ensures waitTimes.values[..] == old(waitTimes.values[..])[old(waitTimes.index) := waitTime]
      ensures idleTimes.index == (old(idleTimes.index) + 1) % idleTimes.size
      ensures waitTimes.index == (old(waitTimes.index) + 1) % waitTimes.size
      ensures unchanged(activeTimes, activeTimes.values)
    {
      borrowedCount := borrowedCount + 1;
      idleTimes.Add(idleTimeMillis);
      waitTimes.Add(waitTime);
      if maxBorrowWaitTimeMillis < waitTime {
        maxBorrowWaitTimeMillis := waitTime;
      }
    }

    /** Statistics after a return: one more return, and the active time goes to
     *  its cache. */
    method UpdateStatsReturn(activeTime: int)
      requires Valid()
      modifies this`returnedCount, activeTimes, activeTimes.values
      ensures Valid()
      ensures returnedCount == old(returnedCount) + 1
      ensures activeTimes.values[..] == old(activeTimes.values[..])[old(activeTimes.index) := activeTime]
      ensures activeTimes.index == (old(activeTimes.index) + 1) % activeTimes.size
      ensures unchanged(idleTimes, idleTimes.values, waitTimes, waitTimes.values)
    {
      returnedCount := returnedCount + 1;
      activeTimes.Add(activeTime);
    }
  }
}
