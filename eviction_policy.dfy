/**
 * The default eviction policy of the v2 pool: an idle object is evicted when it
 * has been idle longer than the hard threshold, or longer than the soft threshold
 * while the pool holds more idle objects than its minimum.
 *
 * The policy reads three values of the eviction configuration and the idle time
 * of the object under test; they appear here as plain integers (milliseconds and
 * object counts).
 */
module Pool2EvictionPolicy {

  /** Default hard threshold of the configuration: thirty minutes. */
  const DEFAULT_MIN_EVICTABLE_IDLE_TIME_MILLIS: int := 1000 * 60 * 30

  /** The three configuration values the policy consults. */
  datatype EvictionConfig = EvictionConfig(
    idleEvictTime: int,      // hard threshold
    idleSoftEvictTime: int,  // soft threshold, applies only above the floor
    minIdle: int             // the idle floor
  )

  /** The configuration a default pool config produces: the soft threshold is
   *  initialised from the hard default, not from the soft default. */
  function DefaultPoolConfig(minIdle: int): (c: EvictionConfig)
    ensures c.idleEvictTime == c.idleSoftEvictTime == 1800000
    ensures c.minIdle == minIdle
  {
    EvictionConfig(DEFAULT_MIN_EVICTABLE_IDLE_TIME_MILLIS, DEFAULT_MIN_EVICTABLE_IDLE_TIME_MILLIS, minIdle)
  }

  /** Should the object that has been idle for `idleTime` be evicted, with
   *  `idleCount` objects currently idle? */
  predicate Evict(config: EvictionConfig, idleTime: int, idleCount: int): (evict: bool)
    ensures evict ==> idleTime > config.idleEvictTime || idleTime > config.idleSoftEvictTime
  {
    (config.idleSoftEvictTime < idleTime && config.minIdle < idleCount)
    || config.idleEvictTime < idleTime
  }

  /** Exceeding the hard threshold evicts whatever the idle count. */
  lemma HardThresholdEvicts(config: EvictionConfig, idleTime: int, idleCount: int)
    requires idleTime > config.idleEvictTime
    ensures Evict(config, idleTime, idleCount)
  {
  }

  /** Exceeding the soft threshold evicts when the count is above the floor. */
  lemma SoftThresholdEvictsSurplus(config: EvictionConfig, idleTime: int, idleCount: int)
    requires idleTime > config.idleSoftEvictTime && idleCount > config.minIdle
    ensures Evict(config, idleTime, idleCount)
  {
  }

  /** Evict holds in exactly the two cases above and in no other. */
  lemma EvictOnlyByThresholds(config: EvictionConfig, idleTime: int, idleCount: int)
    requires idleTime <= config.idleEvictTime
    requires idleTime <= config.idleSoftEvictTime || idleCount <= config.minIdle
    ensures !Evict(config, idleTime, idleCount)
  {
  }

  /** All comparisons are strict: sitting exactly on a threshold, or exactly on the
   *  floor, does not by itself trigger eviction. */
  lemma ComparisonsAreStrict(config: EvictionConfig, idleCount: int)
    ensures config.idleSoftEvictTime <= config.idleEvictTime && idleCount == config.minIdle
            ==> !Evict(config, config.idleEvictTime, idleCount)
    ensures config.idleEvictTime <= config.idleSoftEvictTime
            ==> !Evict(config, config.idleEvictTime, idleCount)
    ensures config.idleSoftEvictTime < config.idleEvictTime
            ==> !Evict(config, config.idleSoftEvictTime, idleCount)
  {
  }

  /** The soft threshold alone never evicts at or below the floor. */
  lemma SoftThresholdRespectsFloor(config: EvictionConfig, idleTime: int, idleCount: int)
    requires idleCount <= config.minIdle && idleTime <= config.idleEvictTime
    ensures !Evict(config, idleTime, idleCount)
  {
  }

  /** Monotone in idle time: an object evicted at idle time t is evicted at any
   *  later idle time, with the same configuration and count. */
  lemma MonotoneInIdleTime(config: EvictionConfig, t: int, t': int, idleCount: int)
    requires t <= t' && Evict(config, t, idleCount)
    ensures Evict(config, t', idleCount)
  {
  }

  /** Monotone in idle count: more idle objects never protect an object. */
  lemma MonotoneInIdleCount(config: EvictionConfig, idleTime: int, n: int, n': int)
    requires n <= n' && Evict(config, idleTime, n)
    ensures Evict(config, idleTime, n')
  {
  }

  /** With the default configuration the two thresholds coincide, so eviction
   *  depends on idle time alone: more than thirty minutes idle. */
  lemma DefaultConfigEvictsByAgeOnly(minIdle: int, idleTime: int, idleCount: int)
    ensures Evict(DefaultPoolConfig(minIdle), idleTime, idleCount) <==> idleTime > 1800000
  {
  }
}
