/**
 * The decisions of the v1 GenericObjectPool, as functions of its state:
 * which object a borrow hands out (or why it fails or waits), whether a
 * returned object is kept, and what one eviction run removes.
 *
 * The idle list is a sequence whose index 0 is the head. The eviction cursor is
 * the index of the gap it stands in: `c` means `c` idle entries lie before it,
 * and walking it backwards visits `idle[c - 1]`, `idle[c - 2]`, ... toward the
 * head. The factory hooks are oracles: `Hooks` says, for each object, whether
 * activating, validating, passivating and destroying it succeed, and what (if
 * anything) the next `makeObject` call produces.
 */
module Pool1Spec {
  import opened Optional

  const WHEN_EXHAUSTED_FAIL: int := 0
  const WHEN_EXHAUSTED_BLOCK: int := 1
  const WHEN_EXHAUSTED_GROW: int := 2

  const DEFAULT_MAX_IDLE: int := 8
  const DEFAULT_MAX_ACTIVE: int := 8
  const DEFAULT_MAX_WAIT: int := -1
  const DEFAULT_TEST_ON_BORROW: bool := false
  const DEFAULT_TEST_ON_RETURN: bool := false
  const DEFAULT_TEST_WHILE_IDLE: bool := false
  const DEFAULT_TIME_BETWEEN_EVICTION_RUNS_MILLIS: int := -1
  const DEFAULT_NUM_TESTS_PER_EVICTION_RUN: int := 3
  const DEFAULT_MIN_EVICTABLE_IDLE_TIME_MILLIS: int := 1000 * 60 * 30

  /** What a borrow does when no idle object is left and the cap is reached. */
  datatype WhenExhaustedAction = Fail | Block | Grow

  const DEFAULT_WHEN_EXHAUSTED_ACTION: WhenExhaustedAction := Block

  function ActionCode(action: WhenExhaustedAction): int
  {
    match action
    case Fail => WHEN_EXHAUSTED_FAIL
    case Block => WHEN_EXHAUSTED_BLOCK
    case Grow => WHEN_EXHAUSTED_GROW
  }

  /** The validation done by the constructor and by setWhenExhaustedAction:
   *  only the three codes are recognised; None is the IllegalArgumentException. */
  function ParseWhenExhaustedAction(code: int): (action: Option<WhenExhaustedAction>)
    ensures action.Some? <==> code in {WHEN_EXHAUSTED_FAIL, WHEN_EXHAUSTED_BLOCK, WHEN_EXHAUSTED_GROW}
    ensures action.Some? ==> ActionCode(action.value) == code
  {
    if code == WHEN_EXHAUSTED_FAIL then Some(Fail)
    else if code == WHEN_EXHAUSTED_BLOCK then Some(Block)
    else if code == WHEN_EXHAUSTED_GROW then Some(Grow)
    else None
  }

  lemma ActionCodeRoundTrip(action: WhenExhaustedAction)
    ensures ParseWhenExhaustedAction(ActionCode(action)) == Some(action)
  {
  }

  /** An idle object and the time it was put back. */
  datatype Pair<T> = Pair(value: T, tstamp: int)

  /** Oracle outcomes of the caller-supplied factory. `make` is None when
   *  makeObject throws. */
  datatype Hooks<!T> = Hooks(
    make: Option<T>,
    activate: T -> bool,
    validate: T -> bool,
    passivate: T -> bool,
    destroy: T -> bool
  )

  /** The exceptions the pool raises. */
  datatype PoolError =
    | IllegalState     // assertOpen: the pool is closed
    | ObjectsActive    // setFactory while objects are borrowed
    | IllegalArgument  // unrecognised whenExhaustedAction
    | Exhausted        // NoSuchElementException under WHEN_EXHAUSTED_FAIL
    | TimedOut         // NoSuchElementException "Timeout waiting for idle object"
    | NotValidated     // NoSuchElementException "Could not create a validated object"
    | FactoryFailed    // a factory exception that is not swallowed
    | NullPointer      // use of the idle list or factory that close cleared

  /** Completion of an operation that returns nothing. */
  datatype Completion = Completed | Threw(error: PoolError)

  /** One pass of borrowObject: an object, an exception, or "this thread now
   *  waits", with the latest time it is woken (None: until notified). */
  datatype BorrowResult<T> = Borrowed(obj: T) | BorrowFailed(error: PoolError) | MustWait(wakeBy: Option<int>)

  /** The settings borrowObject reads. */
  datatype BorrowConfig = BorrowConfig(
    maxActive: int,
    whenExhaustedAction: WhenExhaustedAction,
    maxWait: int,
    testOnBorrow: bool
  )

  /** The borrow-relevant state after a borrow pass. */
  datatype BorrowStep<T> = BorrowStep(
    result: BorrowResult<T>,
    idle: seq<Pair<T>>,
    numActive: int,
    cursor: Option<nat>
  )

  // ---------------------------------------------------------------- borrow

  /** A candidate survives activation and, under testOnBorrow, validation. */
  predicate Usable<T>(obj: T, hooks: Hooks<T>, testOnBorrow: bool)
  {
    hooks.activate(obj) && (!testOnBorrow || hooks.validate(obj))
  }

  /** Index of the first idle entry that survives activation and validation;
   *  |idle| when none does. */
  function FirstUsable<T>(idle: seq<Pair<T>>, hooks: Hooks<T>, testOnBorrow: bool): (k: nat)
    ensures k <= |idle|
    ensures forall j :: 0 <= j < k ==> !Usable(idle[j].value, hooks, testOnBorrow)
    ensures k < |idle| ==> Usable(idle[k].value, hooks, testOnBorrow)
  {
    if idle == [] then 0
    else if Usable(idle[0].value, hooks, testOnBorrow) then 0
    else 1 + FirstUsable(idle[1..], hooks, testOnBorrow)
  }

  /** The cursor after `n` entries were taken off the head of the list. */
  function AfterRemoveFirst(cursor: Option<nat>, n: nat): Option<nat>
  {
    match cursor
    case None => None
    case Some(c) => Some(if c >= n then c - n else 0)
  }

  /** The cursor after an entry was pushed onto the head: it keeps its
   *  neighbours, and one that stood at the head stays there. */
  function AfterAddFirst(cursor: Option<nat>): Option<nat>
  {
    match cursor
    case None => None
    case Some(c) => Some(if c == 0 then 0 else c + 1)
  }

  /** May a borrow make a new object when the idle list is empty? Within the cap
   *  (a non-positive maxActive is no cap), or beyond it under GROW. */
  predicate MayCreate(numActive: int, config: BorrowConfig)
  {
    config.maxActive <= 0 || numActive < config.maxActive || config.whenExhaustedAction == Grow
  }

  /** Latest time a blocked borrower started at `start` is woken: the deadline
   *  `start + maxWait` shared by all its retries; None when maxWait is
   *  non-positive and it waits until notified. */
  function WakeBy(maxWait: int, start: int): Option<int>
  {
    if maxWait <= 0 then None else Some(start + maxWait)
  }

  /** The source as written: every wait lasts up to a full maxWait from the
   *  moment it begins (`now`), whatever has already been spent. */
  function WakeByAsWritten(maxWait: int, now: int): Option<int>
  {
    if maxWait <= 0 then None else Some(now + maxWait)
  }

  /** The timeout test after a wait: only a positive maxWait times out, and only
   *  once the time since the single start is at least maxWait. It fires exactly
   *  when the borrower's deadline exists and has been reached. */
  predicate WaitExpired(maxWait: int, start: int, now: int): (expired: bool)
    ensures expired <==> WakeBy(maxWait, start).Some? && now >= WakeBy(maxWait, start).value
  {
    maxWait > 0 && now - start >= maxWait
  }

  /** One pass of borrowObject's loop from the given state: an idle entry is
   *  taken off the head and counted as active; if it passes activation and
   *  validation it is handed out, otherwise it is destroyed, uncounted, and the
   *  pass goes on with the rest; with no idle entry left, AcquireDrained
   *  decides. */
  function Acquire<T>(idle: seq<Pair<T>>, numActive: int, cursor: Option<nat>,
                      config: BorrowConfig, start: int, hooks: Hooks<T>): (step: BorrowStep<T>)
    ensures step.result.Borrowed? ==> step.numActive == numActive + 1
    ensures !step.result.Borrowed? ==> step.numActive == numActive && step.idle == []
    ensures |step.idle| <= |idle|
    ensures step.result.BorrowFailed? ==> step.result.error in {FactoryFailed, NotValidated, Exhausted}
    ensures step.result.MustWait? ==> config.whenExhaustedAction == Block
    decreases |idle|
  {
    if idle == [] then
      AcquireDrained(numActive, cursor, config, start, hooks)
    else if Usable(idle[0].value, hooks, config.testOnBorrow) then
      BorrowStep(Borrowed(idle[0].value), idle[1..], numActive + 1, AfterRemoveFirst(cursor, 1))
    else
      Acquire(idle[1..], numActive, AfterRemoveFirst(cursor, 1), config, start, hooks)
  }

  /** The rest of the pass once the idle list is empty: make a new object if
   *  allowed (failing outright if it does not pass), else fail or wait. */
  function AcquireDrained<T>(numActive: int, cursor: Option<nat>, config: BorrowConfig,
                             start: int, hooks: Hooks<T>): (step: BorrowStep<T>)
    ensures step.idle == [] && step.cursor == cursor
    ensures step.result.Borrowed? ==> step.numActive == numActive + 1
    ensures !step.result.Borrowed? ==> step.numActive == numActive
    ensures step.result.BorrowFailed? ==> step.result.error in {FactoryFailed, NotValidated, Exhausted}
    ensures step.result.MustWait? ==> config.whenExhaustedAction == Block
  {
    if MayCreate(numActive, config) then
      match hooks.make
      case None => BorrowStep(BorrowFailed(FactoryFailed), [], numActive, cursor)
      case Some(obj) =>
        if Usable(obj, hooks, config.testOnBorrow) then BorrowStep(Borrowed(obj), [], numActive + 1, cursor)
        else BorrowStep(BorrowFailed(NotValidated), [], numActive, cursor)
    else if config.whenExhaustedAction == Fail then
      BorrowStep(BorrowFailed(Exhausted), [], numActive, cursor)
    else
      BorrowStep(MustWait(WakeBy(config.maxWait, start)), [], numActive, cursor)
  }

  /** Against the reference FirstUsable: the pass hands out the first idle entry
   *  that passes, leaves the entries after it idle, and moves the cursor past
   *  every entry it took. */
  lemma {:induction false} AcquireTakesFirstUsable<T>(idle: seq<Pair<T>>, numActive: int, cursor: Option<nat>,
                                                      config: BorrowConfig, start: int, hooks: Hooks<T>)
    requires FirstUsable(idle, hooks, config.testOnBorrow) < |idle|
    ensures var k := FirstUsable(idle, hooks, config.testOnBorrow);
      Acquire(idle, numActive, cursor, config, start, hooks)
      == BorrowStep(Borrowed(idle[k].value), idle[k + 1..], numActive + 1, AfterRemoveFirst(cursor, k + 1))
  {
    if !Usable(idle[0].value, hooks, config.testOnBorrow) {
      var c1 := AfterRemoveFirst(cursor, 1);
      var k := FirstUsable(idle[1..], hooks, config.testOnBorrow);
      assert FirstUsable(idle, hooks, config.testOnBorrow) == k + 1;
      AcquireTakesFirstUsable(idle[1..], numActive, c1, config, start, hooks);
      assert Acquire(idle, numActive, cursor, config, start, hooks)
             == Acquire(idle[1..], numActive, c1, config, start, hooks);
      assert idle[1..][k + 1..] == idle[k + 2..];
      assert idle[1..][k] == idle[k + 1];
      assert AfterRemoveFirst(c1, k + 1) == AfterRemoveFirst(cursor, k + 2);
    } else {
      assert FirstUsable(idle, hooks, config.testOnBorrow) == 0;
    }
  }

  /** Against the reference FirstUsable: with no idle entry that passes, the
   *  pass destroys them all, leaves the cursor as if all were removed, and
   *  goes on to the creation or exhaustion decision. */
  lemma {:induction false} AcquireDrainsUnusable<T>(idle: seq<Pair<T>>, numActive: int, cursor: Option<nat>,
                                                    config: BorrowConfig, start: int, hooks: Hooks<T>)
    requires FirstUsable(idle, hooks, config.testOnBorrow) == |idle|
    ensures Acquire(idle, numActive, cursor, config, start, hooks)
            == AcquireDrained(numActive, AfterRemoveFirst(cursor, |idle|), config, start, hooks)
  {
    if idle != [] {
      AcquireDrainsUnusable(idle[1..], numActive, AfterRemoveFirst(cursor, 1), config, start, hooks);
    }
  }

  /** Head out: a usable head entry is the one handed out. */
  lemma BorrowTakesTheHead<T>(idle: seq<Pair<T>>, numActive: int, cursor: Option<nat>,
                              config: BorrowConfig, start: int, hooks: Hooks<T>)
    requires idle != [] && Usable(idle[0].value, hooks, config.testOnBorrow)
    ensures Acquire(idle, numActive, cursor, config, start, hooks).result == Borrowed(idle[0].value)
    ensures Acquire(idle, numActive, cursor, config, start, hooks).idle == idle[1..]
  {
  }

  /** A newly made object that fails activation or validation fails the borrow
   *  instead of being retried. */
  lemma BorrowFailsOnNewObjectFailure<T>(idle: seq<Pair<T>>, numActive: int, cursor: Option<nat>,
                                         config: BorrowConfig, start: int, hooks: Hooks<T>)
    requires FirstUsable(idle, hooks, config.testOnBorrow) == |idle|
    requires MayCreate(numActive, config) && hooks.make.Some?
    requires !Usable(hooks.make.value, hooks, config.testOnBorrow)
    ensures Acquire(idle, numActive, cursor, config, start, hooks).result == BorrowFailed(NotValidated)
    ensures Acquire(idle, numActive, cursor, config, start, hooks).numActive == numActive
  {
    AcquireDrainsUnusable(idle, numActive, cursor, config, start, hooks);
  }

  /** A borrow hands out a new object only when no idle entry passed and the cap
   *  allowed it (or GROW overrode it). */
  lemma BorrowCreatesOnlyWithinCap<T>(idle: seq<Pair<T>>, numActive: int, cursor: Option<nat>,
                                      config: BorrowConfig, start: int, hooks: Hooks<T>)
    requires Acquire(idle, numActive, cursor, config, start, hooks).result.Borrowed?
    requires FirstUsable(idle, hooks, config.testOnBorrow) == |idle|
    ensures MayCreate(numActive, config)
    ensures hooks.make == Some(Acquire(idle, numActive, cursor, config, start, hooks).result.obj)
  {
    AcquireDrainsUnusable(idle, numActive, cursor, config, start, hooks);
    var drained := AcquireDrained(numActive, AfterRemoveFirst(cursor, |idle|), config, start, hooks);
    assert drained.result.Borrowed?;
  }

  /** A borrow fails or waits only after every idle entry failed, leaving the
   *  idle list empty. */
  lemma BorrowFailsOnlyWhenDrained<T>(idle: seq<Pair<T>>, numActive: int, cursor: Option<nat>,
                                      config: BorrowConfig, start: int, hooks: Hooks<T>)
    requires !Acquire(idle, numActive, cursor, config, start, hooks).result.Borrowed?
    ensures FirstUsable(idle, hooks, config.testOnBorrow) == |idle|
    ensures Acquire(idle, numActive, cursor, config, start, hooks).idle == []
  {
    if FirstUsable(idle, hooks, config.testOnBorrow) < |idle| {
      AcquireTakesFirstUsable(idle, numActive, cursor, config, start, hooks);
    }
  }

  /** An exhausted pool: FAIL throws, BLOCK waits, and only GROW makes anyway. */
  lemma ExhaustedPoolChoices<T>(numActive: int, cursor: Option<nat>,
                                config: BorrowConfig, start: int, hooks: Hooks<T>)
    requires 0 < config.maxActive <= numActive
    ensures var r := Acquire([], numActive, cursor, config, start, hooks).result;
      && (config.whenExhaustedAction == Fail ==> r == BorrowFailed(Exhausted))
      && (config.whenExhaustedAction == Block ==> r == MustWait(WakeBy(config.maxWait, start)))
      && (config.whenExhaustedAction == Grow && hooks.make.Some? && Usable(hooks.make.value, hooks, config.testOnBorrow)
          ==> r == Borrowed(hooks.make.value))
  {
  }

  /** Bounded wait (intended behaviour): a borrower blocked on an exhausted
   *  pool with a positive maxWait is told to wait until exactly maxWait after
   *  its start, and resuming at that deadline times out. */
  lemma BlockedWaitEndsAtDeadline<T>(numActive: int, cursor: Option<nat>,
                                     config: BorrowConfig, start: int, hooks: Hooks<T>)
    requires !MayCreate(numActive, config) && config.whenExhaustedAction == Block
    requires config.maxWait > 0
    ensures Acquire([], numActive, cursor, config, start, hooks).result == MustWait(Some(start + config.maxWait))
    ensures WaitExpired(config.maxWait, start, start + config.maxWait)
    ensures forall now :: start <= now < start + config.maxWait ==> !WaitExpired(config.maxWait, start, now)
  {
  }

  /** The source as written: a borrower woken before its deadline without
   *  getting an object (say started at 0 with maxWait 100, woken at 50) waits
   *  again for a full maxWait, to 150, beyond the deadline the timeout test
   *  enforces. */
  lemma WaitAsWrittenOvershoots(maxWait: int, start: int, now: int)
    requires start < now && maxWait > 0 && !WaitExpired(maxWait, start, now)
    ensures WakeByAsWritten(maxWait, now).Some? && WakeBy(maxWait, start).Some?
    ensures WakeByAsWritten(maxWait, now).value - start > maxWait
    ensures WakeByAsWritten(maxWait, now).value > WakeBy(maxWait, start).value
  {
  }

  // ---------------------------------------------------------------- return

  /** A returned object passes test-on-return (when enabled) and passivation. */
  predicate ReturnPasses<T>(obj: T, hooks: Hooks<T>, testOnReturn: bool): (passed: bool)
    ensures passed ==> hooks.passivate(obj)
    ensures passed && testOnReturn ==> hooks.validate(obj)
    ensures !testOnReturn ==> (passed <==> hooks.passivate(obj))
  {
    (!testOnReturn || hooks.validate(obj)) && hooks.passivate(obj)
  }

  /** Keep a returned object only if it passed and the idle list is below a
   *  non-negative maxIdle (a negative maxIdle is no cap). */
  predicate KeepOnReturn(maxIdle: int, idleSize: int, passed: bool): (keep: bool)
    ensures keep ==> passed
    ensures keep && maxIdle >= 0 ==> idleSize + 1 <= maxIdle
    ensures maxIdle < 0 ==> (keep <==> passed)
  {
    !(maxIdle >= 0 && idleSize >= maxIdle) && passed
  }

  /** Returning A then B (both kept) and borrowing twice yields B, then A. */
  lemma ReturnThenBorrowIsLifo<T>(idle: seq<Pair<T>>, a: Pair<T>, b: Pair<T>, numActive: int,
                                  cursor: Option<nat>, config: BorrowConfig, start: int, hooks: Hooks<T>)
    requires Usable(a.value, hooks, config.testOnBorrow) && Usable(b.value, hooks, config.testOnBorrow)
    ensures var first := Acquire([b, a] + idle, numActive, cursor, config, start, hooks);
      && first.result == Borrowed(b.value)
      && Acquire(first.idle, first.numActive, first.cursor, config, start, hooks).result == Borrowed(a.value)
  {
    var first := Acquire([b, a] + idle, numActive, cursor, config, start, hooks);
    assert first.idle == [a] + idle;
  }

  // ---------------------------------------------------------------- evict

  /** What one eviction examination consults. */
  datatype EvictEnv<!T> = EvictEnv(
    minEvictableIdleTimeMillis: int,
    testWhileIdle: bool,
    now: int,
    hooks: Hooks<T>
  )

  /** An examined entry is removed when it has been idle longer than a positive
   *  minEvictableIdleTimeMillis, or, under testWhileIdle, when activation,
   *  validation or passivation fails. */
  predicate ShouldEvict<T>(p: Pair<T>, env: EvictEnv<T>): (evict: bool)
    ensures !env.testWhileIdle ==>
      (evict <==> env.minEvictableIdleTimeMillis > 0 && env.now - p.tstamp > env.minEvictableIdleTimeMillis)
    ensures env.minEvictableIdleTimeMillis <= 0 ==>
      (evict <==> env.testWhileIdle && !(env.hooks.activate(p.value) && env.hooks.validate(p.value) && env.hooks.passivate(p.value)))
  {
    (env.minEvictableIdleTimeMillis > 0 && env.now - p.tstamp > env.minEvictableIdleTimeMillis)
    || (env.testWhileIdle
        && !(env.hooks.activate(p.value) && env.hooks.validate(p.value) && env.hooks.passivate(p.value)))
  }

  /** Number of examinations in one run: numTestsPerEvictionRun when it is not
   *  negative, else the ceiling of numIdle / |numTestsPerEvictionRun|. */
  function NumTests(numTestsPerEvictionRun: int, numIdle: nat): (n: nat)
    ensures numTestsPerEvictionRun >= 0 ==> n == numTestsPerEvictionRun
    ensures numTestsPerEvictionRun < 0 ==>
      (n - 1) * -numTestsPerEvictionRun < numIdle <= n * -numTestsPerEvictionRun
  {
    if numTestsPerEvictionRun >= 0 then numTestsPerEvictionRun
    else
      var d := -numTestsPerEvictionRun;
      CeilingDivision(numIdle, d);
      (numIdle + d - 1) / d
  }

  lemma CeilingDivision(m: nat, d: int)
    requires d > 0
    ensures ((m + d - 1) / d - 1) * d < m <= ((m + d - 1) / d) * d
  {
    var q := (m + d - 1) / d;
    var r := (m + d - 1) % d;
    assert m + d - 1 == q * d + r;
    assert (q - 1) * d == q * d - d;
  }

  /** With -1, every idle object is examined. */
  lemma MinusOneTestsAll(numIdle: nat)
    ensures NumTests(-1, numIdle) == numIdle
  {
  }

  /** The idle list and the cursor during an eviction run. */
  datatype IdleScan<T> = IdleScan(idle: seq<Pair<T>>, cursor: nat)

  /** One iteration of the run: a cursor at the head goes back to the tail
   *  (using up the iteration); otherwise it steps back over one entry, which is
   *  removed if it should be evicted. */
  function ScanStep<T>(s: IdleScan<T>, env: EvictEnv<T>): (t: IdleScan<T>)
    requires s.cursor <= |s.idle|
    ensures t.cursor <= |t.idle|
  {
    if s.cursor == 0 then IdleScan(s.idle, |s.idle|)
    else
      var c := s.cursor - 1;
      if ShouldEvict(s.idle[c], env) then IdleScan(RemoveAt(s.idle, c), c)
      else IdleScan(s.idle, c)
  }

  /** The list without its entry at `c`. */
  function RemoveAt<T>(s: seq<T>, c: nat): (r: seq<T>)
    requires c < |s|
    ensures |r| == |s| - 1
  {
    s[..c] + s[c + 1..]
  }

  /** `n` iterations of the run. */
  function Scan<T>(s: IdleScan<T>, env: EvictEnv<T>, n: nat): (t: IdleScan<T>)
    requires s.cursor <= |s.idle|
    ensures t.cursor <= |t.idle|
    decreases n
  {
    if n == 0 then s else ScanStep(Scan(s, env, n - 1), env)
  }

  /** A whole evict() call on an open pool: nothing on an empty idle list;
   *  otherwise a missing cursor, or one at the head, is put at the tail, and
   *  NumTests iterations follow. */
  function EvictRun<T>(idle: seq<Pair<T>>, cursor: Option<nat>, numTestsPerEvictionRun: int,
                       env: EvictEnv<T>): (r: (seq<Pair<T>>, Option<nat>))
    requires cursor.Some? ==> cursor.value <= |idle|
    ensures r.1.Some? ==> r.1.value <= |r.0|
  {
    if idle == [] then (idle, cursor)
    else
      var c := if cursor.None? || cursor.value == 0 then |idle| else cursor.value;
      var t := Scan(IdleScan(idle, c), env, NumTests(numTestsPerEvictionRun, |idle|));
      (t.idle, Some(t.cursor))
  }

  /** Reference definition: the entries a full examination would keep. */
  function Survivors<T>(s: seq<Pair<T>>, env: EvictEnv<T>): (kept: seq<Pair<T>>)
    ensures forall j :: 0 <= j < |kept| ==> !ShouldEvict(kept[j], env)
    ensures |kept| <= |s|
  {
    if s == [] then []
    else (if ShouldEvict(s[0], env) then [] else [s[0]]) + Survivors(s[1..], env)
  }

  /** Removing entries only if they should be evicted: the kept multiset shrinks,
   *  and entries that should stay keep their multiplicity. */
  ghost predicate EvictsOnly<T>(before: seq<Pair<T>>, after: seq<Pair<T>>, env: EvictEnv<T>)
  {
    && multiset(after) <= multiset(before)
    && forall p :: p in before && !ShouldEvict(p, env) ==> multiset(after)[p] == multiset(before)[p]
  }

  lemma RemoveAtMultiset<T>(s: seq<T>, c: nat)
    requires c < |s|
    ensures multiset(s[..c] + s[c + 1..]) == multiset(s) - multiset{s[c]}
  {
    assert s == s[..c] + [s[c]] + s[c + 1..];
  }

  /** Any number of iterations removes only entries that should be evicted, and
   *  at most one per iteration. */
  lemma {:induction false} ScanEvictsOnly<T>(s: IdleScan<T>, env: EvictEnv<T>, n: nat)
    requires s.cursor <= |s.idle|
    ensures EvictsOnly(s.idle, Scan(s, env, n).idle, env)
    ensures |Scan(s, env, n).idle| + n >= |s.idle|
  {
    if n > 0 {
      ScanEvictsOnly(s, env, n - 1);
      var prev := Scan(s, env, n - 1);
      StepEvictsOnly(prev, env);
      EvictsOnlyTransitive(s.idle, prev.idle, ScanStep(prev, env).idle, env);
    }
  }

  /** One iteration removes at most one entry, and only one that should be
   *  evicted. */
  lemma StepEvictsOnly<T>(s: IdleScan<T>, env: EvictEnv<T>)
    requires s.cursor <= |s.idle|
    ensures EvictsOnly(s.idle, ScanStep(s, env).idle, env)
    ensures |ScanStep(s, env).idle| + 1 >= |s.idle|
  {
    if s.cursor > 0 && ShouldEvict(s.idle[s.cursor - 1], env) {
      RemoveAtMultiset(s.idle, s.cursor - 1);
    }
  }

  lemma EvictsOnlyTransitive<T>(a: seq<Pair<T>>, b: seq<Pair<T>>, c: seq<Pair<T>>, env: EvictEnv<T>)
    requires EvictsOnly(a, b, env) && EvictsOnly(b, c, env)
    ensures EvictsOnly(a, c, env)
  {
    forall p | p in a && !ShouldEvict(p, env)
      ensures multiset(c)[p] == multiset(a)[p]
    {
      assert multiset(b)[p] == multiset(a)[p] > 0;
      assert p in b;
    }
  }

  /** Walking back from cursor `c` for `j` iterations (before reaching the head)
   *  filters exactly the `j` entries just before `c` and leaves the rest. */
  lemma {:induction false} ScanWalksBack<T>(idle: seq<Pair<T>>, c: nat, env: EvictEnv<T>, j: nat)
    requires c <= |idle| && j <= c
    ensures Scan(IdleScan(idle, c), env, j)
            == IdleScan(idle[..c - j] + Survivors(idle[c - j..c], env) + idle[c..], c - j)
  {
    if j == 0 {
      assert Survivors(idle[c..c], env) == [] by {
        assert idle[c..c] == [];
      }
      assert idle[..c] + [] + idle[c..] == idle;
    } else {
      ScanWalksBack(idle, c, env, j - 1);
      WalkBackOneMore(idle, c - j, c, env);
    }
  }

  /** The inductive step of ScanWalksBack: from the cursor just after entry `i`,
   *  one more iteration extends the filtered stretch over that entry. */
  lemma WalkBackOneMore<T>(idle: seq<Pair<T>>, i: nat, c: nat, env: EvictEnv<T>)
    requires i < c <= |idle|
    ensures ScanStep(IdleScan(idle[..i + 1] + Survivors(idle[i + 1..c], env) + idle[c..], i + 1), env)
            == IdleScan(idle[..i] + Survivors(idle[i..c], env) + idle[c..], i)
  {
    var front, x, tail, back := idle[..i], idle[i], Survivors(idle[i + 1..c], env), idle[c..];
    assert idle[..i + 1] + tail + back == front + [x] + (tail + back) by {
      assert idle[..i + 1] == front + [x];
    }
    StepOverEntry(front, x, tail + back, env);
    SurvivorsOfSlice(idle, i, c, env);
    if ShouldEvict(x, env) {
      assert front + [] + (tail + back) == front + ([] + tail) + back;
    } else {
      assert front + [x] + (tail + back) == front + ([x] + tail) + back;
    }
  }

  /** One iteration that stands just after entry `x` steps over it, dropping it
   *  if it should be evicted. */
  lemma StepOverEntry<T>(front: seq<Pair<T>>, x: Pair<T>, back: seq<Pair<T>>, env: EvictEnv<T>)
    ensures ScanStep(IdleScan(front + [x] + back, |front| + 1), env)
            == IdleScan(front + (if ShouldEvict(x, env) then [] else [x]) + back, |front|)
  {
    var s := front + [x] + back;
    assert s[|front|] == x;
    if ShouldEvict(x, env) {
      assert s[..|front|] == front;
      assert s[|front| + 1..] == back;
    }
  }

  lemma SurvivorsOfSlice<T>(idle: seq<Pair<T>>, i: nat, c: nat, env: EvictEnv<T>)
    requires i < c <= |idle|
    ensures Survivors(idle[i..c], env)
            == (if ShouldEvict(idle[i], env) then [] else [idle[i]]) + Survivors(idle[i + 1..c], env)
  {
    assert idle[i..c][0] == idle[i];
    assert idle[i..c][1..] == idle[i + 1..c];
  }

  /** An iteration over a list in which nothing should be evicted moves only
   *  the cursor. */
  lemma StepKeepsClean<T>(s: IdleScan<T>, env: EvictEnv<T>)
    requires s.cursor <= |s.idle|
    requires forall j :: 0 <= j < |s.idle| ==> !ShouldEvict(s.idle[j], env)
    ensures ScanStep(s, env).idle == s.idle
  {
    if s.cursor > 0 {
      assert !ShouldEvict(s.idle[s.cursor - 1], env);
    }
  }

  /** A run that starts at the tail and has at least as many iterations as there
   *  are idle entries examines every entry: what is left is exactly the
   *  survivors, whatever the wrap-around does afterwards. */
  lemma {:induction false} ScanFromTailSweeps<T>(idle: seq<Pair<T>>, env: EvictEnv<T>, n: nat)
    requires n >= |idle|
    ensures Scan(IdleScan(idle, |idle|), env, n).idle == Survivors(idle, env)
  {
    if n == |idle| {
      ScanWalksBack(idle, |idle|, env, |idle|);
      assert idle[0..|idle|] == idle;
      assert idle[..0] + Survivors(idle, env) + idle[|idle|..] == Survivors(idle, env);
    } else {
      ScanFromTailSweeps(idle, env, n - 1);
      StepKeepsClean(Scan(IdleScan(idle, |idle|), env, n - 1), env);
    }
  }

  /** evict() removes only entries that should be evicted, at most NumTests of
   *  them; an entry that should stay stays. */
  lemma EvictRunEvictsOnly<T>(idle: seq<Pair<T>>, cursor: Option<nat>, numTestsPerEvictionRun: int, env: EvictEnv<T>)
    requires cursor.Some? ==> cursor.value <= |idle|
    ensures EvictsOnly(idle, EvictRun(idle, cursor, numTestsPerEvictionRun, env).0, env)
    ensures |EvictRun(idle, cursor, numTestsPerEvictionRun, env).0| + NumTests(numTestsPerEvictionRun, |idle|) >= |idle|
  {
    if idle != [] {
      var c := if cursor.None? || cursor.value == 0 then |idle| else cursor.value;
      ScanEvictsOnly(IdleScan(idle, c), env, NumTests(numTestsPerEvictionRun, |idle|));
    }
  }

  /** When the cursor starts from the tail (no cursor yet, or one left at the
   *  head) and a run has at least as many tests as idle entries, every entry
   *  that should be evicted is gone afterwards and every other one stays. */
  lemma EvictRunSweepsWholePool<T>(idle: seq<Pair<T>>, cursor: Option<nat>, numTestsPerEvictionRun: int, env: EvictEnv<T>)
    requires cursor == None || cursor == Some(0)
    requires NumTests(numTestsPerEvictionRun, |idle|) >= |idle|
    ensures EvictRun(idle, cursor, numTestsPerEvictionRun, env).0 == Survivors(idle, env)
  {
    if idle != [] {
      ScanFromTailSweeps(idle, env, NumTests(numTestsPerEvictionRun, |idle|));
    }
  }
}
