# commons-pool: the generic object pool, modelled in Dafny

This project models the core of Apache commons-pool. It covers two generations
of the generic object pool.

- **v1 `GenericObjectPool`.** The pool keeps a LIFO list of idle objects, each
  with the time it was returned. It counts the objects lent out and holds the
  configuration that bounds both: `maxActive`, `maxIdle`, the exhausted action
  (FAIL, BLOCK or GROW), `maxWait`, the test flags and the evictor settings.
  Its operations lend objects (`borrowObject`), take them back
  (`returnObject`), destroy them (`invalidateObject`, `clear`, `close`), add
  them (`addObject`) and evict idle ones with a cursor that walks the list from
  tail to head across runs (`evict`).
  - `Pool1Spec` (pool1_spec.dfy) states each decision as a function of the
    pool's state.
  - `Pool1.GenericObjectPool` (pool1.dfy) is the class, whose methods update
    its fields and are proved against those functions.
- **v2 `BaseGenericObjectPool` support code.**
  - `Pool2Stats` (stats_store.dfy) is the ring of timing samples and its
    incremental mean.
  - `Pool2Base` (base_pool.dfy) holds the open/closed check, the evictor
    restart, the statistics updates after a borrow and a return, the order of
    the eviction iterator and the identity wrapper.
  - `Pool2EvictionPolicy` (eviction_policy.dfy) is the default eviction policy.
- `Scenarios` (scenarios.dfy) states short client sessions on fresh pools and
  proves their outcomes: LIFO reuse, a blocked borrower served after a
  return, a wait that times out, FAIL and GROW, a closed pool, an eviction run
  and a rolling mean.

Each pool operation runs to completion on the caller's thread. When v1
`borrowObject` would block, the model returns `MustWait(wakeBy)` instead, and
`ResumeBorrow(start, now)` continues the borrow once the thread is woken. The
clock reading `now` is a parameter. The factory is an oracle (`Hooks`): it says
whether `makeObject` yields an object and whether activation, validation,
passivation and destruction of each object succeed.

The eviction cursor of v1 (a cursor of the `CursorableLinkedList`) is modelled
as the index of the gap it stands in:
- `removeFirst` moves it one place toward the head, unless it is already there;
- `addFirst` moves it one place toward the tail, unless it stands at the head;
- `clear` puts it at 0.

The model follows the code on these points, which its documentation leaves open:
- `returnObject` and `invalidateObject` decrement the active count even for an
  object that was never borrowed, or one returned twice (src/java/org/apache/commons/pool/impl/GenericObjectPool.java:883, :838).
- A `maxActive` of zero or less means no cap (:739).
- In v2, `startEvictor` drops the eviction iterator only when an evictor was
  running (src/main/java/org/apache/commons/pool2/impl/BaseGenericObjectPool.java:453-457).
- The default pool configuration sets the soft eviction threshold from the
  hard default, not from the soft default of -1 (src/main/java/org/apache/commons/pool2/impl/BaseObjectPoolConfig.java:132-133).

## Model

| member | source | states |
|---|---|---|
| Pool1Spec.ParseWhenExhaustedAction | src/java/org/apache/commons/pool/impl/GenericObjectPool.java:391-400 | A code is accepted exactly when it is 0, 1 or 2 (FAIL, BLOCK, GROW), and the action accepted has that code; anything else is the IllegalArgumentException |
| Pool1Spec.ActionCodeRoundTrip | src/java/org/apache/commons/pool/impl/GenericObjectPool.java:182-207 | Parsing the code of any action gives that action back |
| Pool1Spec.FirstUsable | src/java/org/apache/commons/pool/impl/GenericObjectPool.java:807-831 | Reference definition: the index of the first idle entry that passes activation (and validation under testOnBorrow); every entry before it fails |
| Pool1Spec.Acquire | src/java/org/apache/commons/pool/impl/GenericObjectPool.java:718-834 | One pass of the borrow loop: a borrow that hands out an object adds exactly one to the active count; a borrow that fails or waits leaves the count unchanged and the idle list empty; the idle list never grows; a pass fails only with a factory failure, a failed validation of a new object or FAIL's exhaustion (never a timeout), and waits only under BLOCK |
| Pool1Spec.AcquireDrained | src/java/org/apache/commons/pool/impl/GenericObjectPool.java:736-801 | With no idle entry left the list stays empty and the cursor stays put; only a handed-out new object is counted as active; it fails only through the factory, a failed new object or FAIL, and waits only under BLOCK |
| Pool1Spec.AcquireTakesFirstUsable | src/java/org/apache/commons/pool/impl/GenericObjectPool.java:719-734 | If some idle entry passes, the borrow hands out the first one that does; the entries after it stay idle in order; the count rises by one; the cursor moves past every entry taken |
| Pool1Spec.AcquireDrainsUnusable | src/java/org/apache/commons/pool/impl/GenericObjectPool.java:814-831 | If no idle entry passes, all of them are destroyed and the borrow goes on to the create-or-exhausted decision with an unchanged count |
| Pool1Spec.BorrowTakesTheHead | src/java/org/apache/commons/pool/impl/GenericObjectPool.java:721-727 | A head entry that passes is the one handed out, and the rest of the list stays idle |
| Pool1Spec.BorrowFailsOnNewObjectFailure | src/java/org/apache/commons/pool/impl/GenericObjectPool.java:826-828 | A newly made object that fails activation or validation ends the borrow with "Could not create a validated object" and no change to the count |
| Pool1Spec.BorrowCreatesOnlyWithinCap | src/java/org/apache/commons/pool/impl/GenericObjectPool.java:739-776 | A borrow that found no usable idle entry hands out an object only when the cap allowed creation or the action is GROW, and that object is the factory's new one |
| Pool1Spec.BorrowFailsOnlyWhenDrained | src/java/org/apache/commons/pool/impl/GenericObjectPool.java:736-801 | A borrow fails or waits only after every idle entry failed its checks, and the idle list is then empty |
| Pool1Spec.ExhaustedPoolChoices | src/java/org/apache/commons/pool/impl/GenericObjectPool.java:758-801 | On an empty pool at its cap, FAIL throws NoSuchElementException, BLOCK waits until the deadline, and GROW makes an object anyway |
| Pool1Spec.WaitExpired | src/java/org/apache/commons/pool/impl/GenericObjectPool.java:796-800 | The timeout test fires exactly when the borrow has a deadline (a positive maxWait) and the clock has reached it |
| Pool1Spec.BlockedWaitEndsAtDeadline | src/java/org/apache/commons/pool/impl/GenericObjectPool.java:779-800 | Intended bounded wait: on an empty pool at its cap under BLOCK with a positive maxWait, the borrower is woken exactly maxWait after its start; the timeout test holds from that moment and at no earlier one |
| Pool1Spec.WaitAsWrittenOvershoots | src/java/org/apache/commons/pool/impl/GenericObjectPool.java:787-791 | As written: a borrower woken before its deadline waits a full maxWait again, past the deadline that the timeout test enforces |
| Pool1Spec.ReturnPasses | src/java/org/apache/commons/pool/impl/GenericObjectPool.java:870-878 | A returned object passes only if passivation succeeds, and also validation under testOnReturn; without testOnReturn, passing is exactly a successful passivation |
| Pool1Spec.KeepOnReturn | src/java/org/apache/commons/pool/impl/GenericObjectPool.java:880-888 | A returned object is kept only if it passed, and then only while the idle list is below a non-negative maxIdle; with a negative maxIdle, every object that passed is kept |
| Pool1Spec.ReturnThenBorrowIsLifo | src/java/org/apache/commons/pool/impl/GenericObjectPool.java:884-888 | From the idle list `[b, a] + idle` that ReturnObject's ensures give after returning A and then B, two borrows yield B and then A |
| Pool1Spec.NumTests | src/java/org/apache/commons/pool/impl/GenericObjectPool.java:1021-1027 | The number of tests per run is numTestsPerEvictionRun when it is not negative; otherwise it is the ceiling of the idle count divided by its magnitude |
| Pool1Spec.MinusOneTestsAll | src/java/org/apache/commons/pool/impl/GenericObjectPool.java:1021-1027 | With -1, every idle object is examined |
| Pool1Spec.ScanStep | src/java/org/apache/commons/pool/impl/GenericObjectPool.java:932-969 | One examination keeps the cursor within the list |
| Pool1Spec.Scan | src/java/org/apache/commons/pool/impl/GenericObjectPool.java:932-970 | Any number of examinations keeps the cursor within the list |
| Pool1Spec.EvictRun | src/java/org/apache/commons/pool/impl/GenericObjectPool.java:923-973 | A whole evict() call leaves a cursor within the remaining list |
| Pool1Spec.Survivors | src/java/org/apache/commons/pool/impl/GenericObjectPool.java:940-963 | Reference definition: the entries a full examination keeps, none of which should be evicted |
| Pool1Spec.ShouldEvict | src/java/org/apache/commons/pool/impl/GenericObjectPool.java:939-960 | Without testWhileIdle, an entry is evicted exactly when idle longer than a positive limit; with no positive limit, exactly when testWhileIdle is on and activation, validation or passivation fails |
| Pool1Spec.ScanEvictsOnly | src/java/org/apache/commons/pool/impl/GenericObjectPool.java:940-968 | Examinations remove only entries that should be evicted, at most one each; every entry that should stay keeps its multiplicity |
| Pool1Spec.StepEvictsOnly | src/java/org/apache/commons/pool/impl/GenericObjectPool.java:937-968 | One examination removes at most one entry, and only one that should be evicted |
| Pool1Spec.EvictsOnlyTransitive | src/java/org/apache/commons/pool/impl/GenericObjectPool.java:932-970 | Successive examinations that each remove only evictable entries together remove only evictable entries |
| Pool1Spec.ScanWalksBack | src/java/org/apache/commons/pool/impl/GenericObjectPool.java:932-969 | Walking back j entries from the cursor filters exactly those j entries and leaves the rest of the list alone |
| Pool1Spec.WalkBackOneMore | src/java/org/apache/commons/pool/impl/GenericObjectPool.java:937-968 | One more step back extends the filtered stretch over the entry just passed |
| Pool1Spec.StepOverEntry | src/java/org/apache/commons/pool/impl/GenericObjectPool.java:937-968 | A step over an entry drops it exactly when it should be evicted |
| Pool1Spec.SurvivorsOfSlice | src/java/org/apache/commons/pool/impl/GenericObjectPool.java:940-963 | The survivors of a stretch are those of its first entry followed by those of the rest |
| Pool1Spec.StepKeepsClean | src/java/org/apache/commons/pool/impl/GenericObjectPool.java:932-935 | On a list where nothing should be evicted, an examination moves only the cursor |
| Pool1Spec.ScanFromTailSweeps | src/java/org/apache/commons/pool/impl/GenericObjectPool.java:925-970 | From the tail, with at least as many tests as entries, what remains is exactly the survivors |
| Pool1Spec.EvictRunEvictsOnly | src/java/org/apache/commons/pool/impl/GenericObjectPool.java:923-973 | evict() removes only entries that should be evicted, at most the number of tests |
| Pool1Spec.EvictRunSweepsWholePool | src/java/org/apache/commons/pool/impl/GenericObjectPool.java:925-931 | From a fresh cursor (or one left at the head), with enough tests, evict() removes every entry that should be evicted and keeps every other one |
| Pool1.GenericObjectPool.constructor | src/java/org/apache/commons/pool/impl/GenericObjectPool.java:388-411 | Stores every setting; the pool starts open, empty and with no active objects; an evictor runs exactly when the period is positive |
| Pool1.GenericObjectPool.Create | src/java/org/apache/commons/pool/impl/GenericObjectPool.java:388-400 | The constructor as called with a code: it fails exactly for unrecognised codes, and otherwise builds a fresh, open pool with every given setting, an empty idle list, no active objects, no cursor, and an evictor exactly when the period is positive |
| Pool1.GenericObjectPool.WithDefaults | src/java/org/apache/commons/pool/impl/GenericObjectPool.java:294-296 | The no-argument pool has no factory and every default: 8 active, 8 idle, BLOCK, wait forever, no tests, 3 tests per run, 30 minutes, an eviction period of -1, no cursor and no evictor |
| Pool1.GenericObjectPool.SetWhenExhaustedAction | src/java/org/apache/commons/pool/impl/GenericObjectPool.java:461-472 | A setting succeeds exactly for the three codes; otherwise the action is unchanged and IllegalArgumentException is thrown |
| Pool1.GenericObjectPool.SetTimeBetweenEvictionRunsMillis | src/java/org/apache/commons/pool/impl/GenericObjectPool.java:606-609 | Records the period and leaves an evictor with that period running exactly when it is positive |
| Pool1.GenericObjectPool.StartEvictor | src/java/org/apache/commons/pool/impl/GenericObjectPool.java:994-1005 | Any running evictor is cancelled, and a new one runs exactly when the delay is positive |
| Pool1.GenericObjectPool.BorrowObject | src/java/org/apache/commons/pool/impl/GenericObjectPool.java:709-834 | On a closed pool it throws IllegalStateException and changes nothing; otherwise result, idle list, count and cursor are those of Acquire from the old state; a first pass never times out |
| Pool1.GenericObjectPool.ResumeBorrow | src/java/org/apache/commons/pool/impl/GenericObjectPool.java:785-801 | After a wait, the timeout check comes first: the borrow times out exactly when maxWait is positive and at least maxWait has passed since the start; a pool closed meanwhile throws on the cleared list, and only then; otherwise the borrow goes on as Acquire with the original start |
| Pool1.GenericObjectPool.AcquireLoop | src/java/org/apache/commons/pool/impl/GenericObjectPool.java:718-834 | The loop over the idle list ends in exactly the state Acquire describes |
| Pool1.GenericObjectPool.BorrowDrained | src/java/org/apache/commons/pool/impl/GenericObjectPool.java:736-831 | The create/fail/wait branch ends in exactly the state AcquireDrained describes |
| Pool1.GenericObjectPool.ReturnObject | src/java/org/apache/commons/pool/impl/GenericObjectPool.java:867-899 | A closed pool throws; otherwise the count drops by one and the object is pushed at the head, stamped now, exactly when it passes and the list is below maxIdle; the list never exceeds maxIdle |
| Pool1.GenericObjectPool.InvalidateObject | src/java/org/apache/commons/pool/impl/GenericObjectPool.java:836-841 | A closed pool throws; otherwise the count drops by one, and a failing destroy is rethrown after that |
| Pool1.GenericObjectPool.Clear | src/java/org/apache/commons/pool/impl/GenericObjectPool.java:843-855 | A closed pool throws; otherwise every idle object is gone |
| Pool1.GenericObjectPool.Close | src/java/org/apache/commons/pool/impl/GenericObjectPool.java:901-911 | Closing twice throws; the first close leaves no idle objects, no factory, no cursor and no evictor |
| Pool1.GenericObjectPool.SetFactory | src/java/org/apache/commons/pool/impl/GenericObjectPool.java:913-921 | It throws while objects are lent out; otherwise it clears the idle list, puts an existing cursor back at the head and installs the factory |
| Pool1.GenericObjectPool.Evict | src/java/org/apache/commons/pool/impl/GenericObjectPool.java:923-973 | A closed pool throws; otherwise the idle list and the cursor end as EvictRun describes |
| Pool1.GenericObjectPool.EvictStep | src/java/org/apache/commons/pool/impl/GenericObjectPool.java:932-968 | One loop iteration leaves the idle list and cursor as ScanStep describes |
| Pool1.GenericObjectPool.ExamineIdle | src/java/org/apache/commons/pool/impl/GenericObjectPool.java:940-963 | The examination removes an entry exactly when ShouldEvict holds: idle longer than a positive limit, or, under testWhileIdle, failing activation, validation or passivation |
| Pool1.GenericObjectPool.AddObject | src/java/org/apache/commons/pool/impl/GenericObjectPool.java:979-985 | Without a factory it throws and changes nothing; a failed makeObject changes nothing; otherwise the new object is returned as if lent out, so the count ends where it started, and it is pushed at the head, with the cursor shifting past it, exactly when the return keeps it |
| Pool2Stats.TruncateToLong | src/main/java/org/apache/commons/pool2/impl/BaseGenericObjectPool.java:875 | The (long) cast truncates toward zero |
| Pool2Stats.PopulatedCount | src/main/java/org/apache/commons/pool2/impl/BaseGenericObjectPool.java:866-872 | The number of samples counted never exceeds the number of slots |
| Pool2Stats.PopulatedSum | src/main/java/org/apache/commons/pool2/impl/BaseGenericObjectPool.java:866-874 | A cache with no samples sums to 0 |
| Pool2Stats.Mean | src/main/java/org/apache/commons/pool2/impl/BaseGenericObjectPool.java:864-876 | With no samples the mean is 0; with samples of non-negative sum, the mean is the floor of sum over count (sum lies in [mean·count, (mean+1)·count)) |
| Pool2Stats.StatsStore.constructor | src/main/java/org/apache/commons/pool2/impl/BaseGenericObjectPool.java:837-843 | Every slot starts unpopulated (-1) and the cursor at slot 0 |
| Pool2Stats.StatsStore.Add | src/main/java/org/apache/commons/pool2/impl/BaseGenericObjectPool.java:851-857 | Only the slot under the cursor is overwritten, and the cursor advances, wrapping at the size |
| Pool2Stats.StatsStore.GetMean | src/main/java/org/apache/commons/pool2/impl/BaseGenericObjectPool.java:864-876 | The incremental loop computes the mean of the populated slots, truncated |
| Pool2Stats.IncrementalMeanStep | src/main/java/org/apache/commons/pool2/impl/BaseGenericObjectPool.java:871-872 | One update step keeps the running result equal to sum divided by count |
| Pool2Stats.UnpopulatedMeanIsZero | src/main/java/org/apache/commons/pool2/impl/BaseGenericObjectPool.java:864-876 | A cache with no samples reports a mean of 0 |
| Pool2Stats.SingleSlotTotals | src/main/java/org/apache/commons/pool2/impl/BaseGenericObjectPool.java:866-874 | With one written slot, the count is 1 and the sum is that sample |
| Pool2Stats.UnpopulatedSumIsZero | src/main/java/org/apache/commons/pool2/impl/BaseGenericObjectPool.java:866-874 | Unwritten slots add nothing to the sum |
| Pool2Stats.SingleSampleMean | src/main/java/org/apache/commons/pool2/impl/BaseGenericObjectPool.java:864-876 | After one sample in a fresh cache the mean is that sample |
| Pool2Stats.PopulatedSumBounds | src/main/java/org/apache/commons/pool2/impl/BaseGenericObjectPool.java:866-874 | Bounds on every sample bound the sum by count times the bound |
| Pool2Stats.MeanWithinBounds | src/main/java/org/apache/commons/pool2/impl/BaseGenericObjectPool.java:864-876 | The mean lies between the smallest and the largest sample |
| Pool2Base.RunningMaxIsMaximum | src/main/java/org/apache/commons/pool2/impl/BaseGenericObjectPool.java:653-660 | The recorded maximum wait is attained: it is one of the reported waits, or the initial 0 |
| Pool2Base.RunningMax | src/main/java/org/apache/commons/pool2/impl/BaseGenericObjectPool.java:653-660 | The recorded maximum wait is at least the initial 0 and at least every reported wait |
| Pool2Base.Descending | src/main/java/org/apache/commons/pool2/impl/BaseGenericObjectPool.java:908-911 | A descending walk has the deque's length and visits position k of the deque k-th from the tail |
| Pool2Base.DescendingPermutes | src/main/java/org/apache/commons/pool2/impl/BaseGenericObjectPool.java:908-911 | A descending walk visits every element exactly once |
| Pool2Base.EvictionOrder | src/main/java/org/apache/commons/pool2/impl/BaseGenericObjectPool.java:905-913 | A LIFO pool is walked tail to head, a FIFO pool head to tail |
| Pool2Base.EvictionOrderPermutes | src/main/java/org/apache/commons/pool2/impl/BaseGenericObjectPool.java:905-913 | Either way, every idle object is visited exactly once |
| Pool2Base.EvictionIterator.constructor | src/main/java/org/apache/commons/pool2/impl/BaseGenericObjectPool.java:903-914 | The iterator fixes the deque and the direction at creation and starts at the beginning |
| Pool2Base.EvictionIterator.Next | src/main/java/org/apache/commons/pool2/impl/BaseGenericObjectPool.java:927-935 | While elements remain, it yields the next one in eviction order and advances; afterwards it yields nothing and stays put |
| Pool2Base.IdentityWrapper.constructor | src/main/java/org/apache/commons/pool2/impl/BaseGenericObjectPool.java:963-965 | A wrapper holds exactly the given instance |
| Pool2Base.IdentityWrapper.Equals | src/main/java/org/apache/commons/pool2/impl/BaseGenericObjectPool.java:974-977 | A wrapper equals only a non-null wrapper, and always equals itself |
| Pool2Base.WrapperEqualityIsIdentity | src/main/java/org/apache/commons/pool2/impl/BaseGenericObjectPool.java:974-977 | Two wrappers are equal exactly when they wrap the same reference |
| Pool2Base.OnlyWrappersAreEqual | src/main/java/org/apache/commons/pool2/impl/BaseGenericObjectPool.java:974-977 | Null and anything that is not a wrapper never equal a wrapper |
| Pool2Base.WrapperEqualityIsEquivalence | src/main/java/org/apache/commons/pool2/impl/BaseGenericObjectPool.java:974-977 | Wrapper equality is reflexive, symmetric and transitive |
| Pool2Base.EqualWrappersHashAlike | src/main/java/org/apache/commons/pool2/impl/BaseGenericObjectPool.java:968-977 | Equal wrappers have equal hash codes |
| Pool2Base.BaseGenericObjectPool.constructor | src/main/java/org/apache/commons/pool2/impl/BaseGenericObjectPool.java:59-116 | A new pool is open and LIFO, with no evictor, zeroed counters and three separate statistics caches of 100 slots, every slot unpopulated and each cursor at slot 0 |
| Pool2Base.BaseGenericObjectPool.AssertOpen | src/main/java/org/apache/commons/pool2/impl/BaseGenericObjectPool.java:435-439 | It fails exactly when the pool is closed |
| Pool2Base.BaseGenericObjectPool.StartEvictor | src/main/java/org/apache/commons/pool2/impl/BaseGenericObjectPool.java:451-463 | An evictor runs exactly for a positive delay, with that delay; the iterator is dropped exactly when an evictor was running |
| Pool2Base.BaseGenericObjectPool.SetTimeBetweenEvictionRunsMillis | src/main/java/org/apache/commons/pool2/impl/BaseGenericObjectPool.java:298-302 | Stores the interval and restarts the evictor with it |
| Pool2Base.BaseGenericObjectPool.UpdateStatsBorrow | src/main/java/org/apache/commons/pool2/impl/BaseGenericObjectPool.java:648-661 | One more borrow; the idle time and the wait go to their caches; the maximum wait becomes the larger of the old maximum and this wait; the active-time cache is untouched |
| Pool2Base.BaseGenericObjectPool.UpdateStatsReturn | src/main/java/org/apache/commons/pool2/impl/BaseGenericObjectPool.java:668-671 | One more return; only the active-time cache takes the sample |
| Pool2EvictionPolicy.DefaultPoolConfig | src/main/java/org/apache/commons/pool2/impl/BaseObjectPoolConfig.java:50-51 | A default configuration has both thresholds at thirty minutes |
| Pool2EvictionPolicy.Evict | src/main/java/org/apache/commons/pool2/impl/DefaultEvictionPolicy.java:40-49 | An object is evicted only if it has been idle longer than the hard or the soft threshold |
| Pool2EvictionPolicy.HardThresholdEvicts | src/main/java/org/apache/commons/pool2/impl/DefaultEvictionPolicy.java:43-46 | Idle longer than the hard threshold is always evicted |
| Pool2EvictionPolicy.SoftThresholdEvictsSurplus | src/main/java/org/apache/commons/pool2/impl/DefaultEvictionPolicy.java:43-46 | Idle longer than the soft threshold is evicted while more than minIdle objects are idle |
| Pool2EvictionPolicy.EvictOnlyByThresholds | src/main/java/org/apache/commons/pool2/impl/DefaultEvictionPolicy.java:40-49 | Nothing else leads to eviction |
| Pool2EvictionPolicy.ComparisonsAreStrict | src/main/java/org/apache/commons/pool2/impl/DefaultEvictionPolicy.java:43-45 | Sitting exactly on a threshold or on the floor does not by itself evict |
| Pool2EvictionPolicy.SoftThresholdRespectsFloor | src/main/java/org/apache/commons/pool2/impl/DefaultEvictionPolicy.java:43-44 | At or below minIdle idle objects, only the hard threshold evicts |
| Pool2EvictionPolicy.MonotoneInIdleTime | src/main/java/org/apache/commons/pool2/impl/DefaultEvictionPolicy.java:43-45 | An object evicted at some idle time is evicted at any longer one |
| Pool2EvictionPolicy.MonotoneInIdleCount | src/main/java/org/apache/commons/pool2/impl/DefaultEvictionPolicy.java:43-45 | More idle objects never protect an object from eviction |
| Pool2EvictionPolicy.DefaultConfigEvictsByAgeOnly | src/main/java/org/apache/commons/pool2/impl/BaseObjectPoolConfig.java:129-133 | Under the default configuration, an object is evicted exactly when idle for more than thirty minutes |
| Scenarios.LifoReuse | src/java/org/apache/commons/pool/impl/GenericObjectPool.java:867-899 | Objects returned in the order 1, 2 are borrowed back in the order 2, 1 |
| Scenarios.BlockedBorrowerIsServed | src/java/org/apache/commons/pool/impl/GenericObjectPool.java:779-801 | A third borrower on a full pool waits until 110 at the latest, and after a return it takes the returned object |
| Scenarios.BoundedWaitTimesOut | src/java/org/apache/commons/pool/impl/GenericObjectPool.java:796-800 | Under the corrected deadline: woken at 60, the borrower waits again until 100; woken at 100, it times out |
| Scenarios.ExhaustedActions | src/java/org/apache/commons/pool/impl/GenericObjectPool.java:758-778 | Past the cap, FAIL throws and GROW hands out a new object |
| Scenarios.ClosedPoolRefuses | src/java/org/apache/commons/pool/impl/GenericObjectPool.java:901-911 | After close, borrow and return throw IllegalStateException, and so does a second close |
| Scenarios.EvictionDropsStaleEntry | src/java/org/apache/commons/pool/impl/GenericObjectPool.java:940-943 | At 2000 with a 1000 ms limit, the entry idle since 0 is evicted and the one idle since 1500 is kept |
| Scenarios.RollingMean | src/main/java/org/apache/commons/pool2/impl/BaseGenericObjectPool.java:851-876 | A two-slot cache fed 5, 7 and 9 holds 9 and 7, and its mean is 8 |

## Left out

- Threads, monitors, `notifyAll` and the evictor thread's timer are not modelled. A blocking wait is the `MustWait` result, and the caller resumes with `ResumeBorrow`. The race that empties the list between the `isEmpty` check and `removeFirst` cannot occur with one thread.
- The system clock is a parameter. One `evict()` run reads a single `now`, while the source reads the clock once per examined entry.
- The factory is a set of total oracles (`Hooks`). A `validateObject` that throws and a `destroyObject` that throws are not modelled, except that `invalidateObject` rethrows a failed destroy. The exception that `makeObject` throws is the single error `FactoryFailed`.
- A null factory is modelled only in `addObject` and after `close`. The other operations assume one is installed.
- The `Evictor` inner class closes the cursor from its own thread when it is cancelled. That is not modelled: `StartEvictor` only changes the evictor's period.
- `CursorableLinkedList` is not part of this model. Its cursor is the gap index described above.
- Getters, plain setters (`setMaxActive`, `setMaxIdle`, `setMaxWait`, the test flags and so on), `setConfig`, `getNumActive`, `getNumIdle` and `debugInfo` change one field, or none, and are not modelled.
- The unreachable `default` branch of the switch in `borrowObject` is not modelled: the exhausted action is a three-valued datatype.
- Pool2Stats.GetMean: the double arithmetic is exact over the reals here, so floating-point rounding is not captured.
- Pool2Stats.StatsStore.constructor requires a positive size; the source builds every store with 100.
- Pool1.GenericObjectPool.Create: the action code is an unbounded integer, not a Java `byte`, so a narrowing cast at a call site is not modelled.
- Pool1.GenericObjectPool.SetWhenExhaustedAction: the action code is an unbounded integer, not a Java `byte`, so a narrowing cast at a call site is not modelled.
- Pool1.GenericObjectPool.ResumeBorrow: a blocked borrow (here and in `BorrowObject`, through `Acquire`) is woken by the single corrected deadline start + maxWait (`WakeBy`), not by the source's full `wait(maxWait)` per retry; the as-written wake-up is `WakeByAsWritten`, compared under Findings.
- Pool2Base.EvictionIterator: it walks a snapshot of the idle deque taken at creation. The source's iterator is a weakly consistent live view of the deque and is kept between eviction runs, so objects added or removed after its creation are not reflected here.
- Integer widths are not modelled: the source's `long` times and their differences, its `int` counters and the `(int)Math.ceil` cast in `getNumTests` are unbounded integers here. None of them overflows for realistic clock readings and pool sizes.
- Pool2Base.BaseGenericObjectPool.UpdateStatsBorrow: the compare-and-set loop is a plain conditional update; with one thread the two agree.
- JMX registration, the class loader, the rest of `BaseGenericObjectPool`'s configuration, and `EvictionIterator.remove` are outside the modelled core.

## Findings

| source | as written | input that shows it | evidently intended | confidence | as-written member | corrected member |
|---|---|---|---|---|---|---|
| src/java/org/apache/commons/pool/impl/GenericObjectPool.java:787-791 | Each retry under BLOCK waits `wait(_maxWait)`, a full maxWait from the moment the wait begins | maxWait 100 and a start at 0; the borrower is woken at 50 by a return that another thread takes first, then waits again until 150 | The total wait stays within maxWait of the start, as the timeout test at :796 enforces: the wake-up is no later than start + maxWait | not executed | Pool1Spec.WaitAsWrittenOvershoots | Pool1Spec.BlockedWaitEndsAtDeadline |
