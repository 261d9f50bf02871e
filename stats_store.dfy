/**
 * The rolling statistics cache of the v2 pool: a fixed-size ring of the most
 * recent samples of one metric (active time, idle time or borrow wait time).
 * Unused slots hold the sentinel -1 and are left out of the mean.
 */
module Pool2Stats {

  /** Size of every cache the pool allocates. */
  const MEAN_TIMING_STATS_CACHE_SIZE: nat := 100

  /** Marks a slot that has never been written. */
  const UNPOPULATED: int := -1

  /** Number of populated (non-sentinel) slots. */
  function PopulatedCount(s: seq<int>): (n: nat)
    ensures n <= |s|
  {
    if s == [] then 0
    else PopulatedCount(s[..|s| - 1]) + (if s[|s| - 1] != UNPOPULATED then 1 else 0)
  }

  /** Sum of the populated slots. */
  function PopulatedSum(s: seq<int>): (sum: int)
    ensures PopulatedCount(s) == 0 ==> sum == 0
  {
    if s == [] then 0
    else PopulatedSum(s[..|s| - 1]) + (if s[|s| - 1] != UNPOPULATED then s[|s| - 1] else 0)
  }

  /** A Java `(long)` cast of a double: truncation toward zero. */
  function TruncateToLong(x: real): (r: int)
    ensures x >= 0.0 ==> r as real <= x < r as real + 1.0
    ensures x < 0.0 ==> r as real - 1.0 < x <= r as real
  {
    if x >= 0.0 then x.Floor else -((-x).Floor)
  }

  /** The exact mean of the populated slots, truncated toward zero; 0 when no
   *  slot is populated. */
  function Mean(s: seq<int>): (mean: int)
    ensures PopulatedCount(s) == 0 ==> mean == 0
    ensures PopulatedCount(s) > 0 && PopulatedSum(s) >= 0 ==>
      mean * PopulatedCount(s) <= PopulatedSum(s) < (mean + 1) * PopulatedCount(s)
  {
    if PopulatedCount(s) == 0 then 0
    else
      var q := PopulatedSum(s) as real / PopulatedCount(s) as real;
      var mean := TruncateToLong(q);
      if PopulatedSum(s) >= 0 then
        FloorOfQuotient(PopulatedSum(s), PopulatedCount(s), mean);
        mean
      else
        mean
  }

  /** An integer within one below a non-negative quotient is its floor. */
  lemma FloorOfQuotient(sum: int, c: int, m: int)
    requires c > 0 && sum >= 0
    requires (m as real) <= (sum as real) / (c as real) < (m as real) + 1.0
    ensures m * c <= sum < (m + 1) * c
  {
    if sum < m * c {
      ProductOverFactor(m, c);
      DivideByPositive(sum as real, (m * c) as real, c as real);
    }
    if (m + 1) * c <= sum {
      ProductOverFactor(m + 1, c);
      DivideByPositive(((m + 1) * c) as real, sum as real, c as real);
    }
  }

  lemma ProductOverFactor(k: int, c: int)
    requires c > 0
    ensures (k * c) as real / (c as real) == k as real
  {
    assert (k * c) as real == (k as real) * (c as real);
  }

  lemma DivideByPositive(a: real, b: real, c: real)
    requires a <= b && c > 0.0
    ensures a / c <= b / c
    ensures a < b ==> a / c < b / c
  {
  }

  class StatsStore {
    const values: array<int>
    const size: nat
    var index: nat

    ghost predicate Valid()
      reads this
    {
      values.Length == size && 0 < size && index < size
    }

    /** Every slot starts out as the sentinel. */
    constructor (size: nat)
      requires 0 < size
      ensures Valid() && fresh(values)
      ensures this.size == size && index == 0
      ensures forall i :: 0 <= i < size ==> values[i] == UNPOPULATED
    {
      this.size := size;
      var a := new int[size];
      var i := 0;
      while i < size
        invariant 0 <= i <= size
        invariant forall j :: 0 <= j < i ==> a[j] == UNPOPULATED
      {
        a[i] := UNPOPULATED;
        i := i + 1;
      }
      values := a;
      index := 0;
    }

    /** Writes the slot under the cursor and moves the cursor on, wrapping
     *  around at the end; no other slot changes. */
    method Add(value: int)
      requires Valid()
      modifies this`index, values
      ensures Valid()
      ensures values[..] == old(values[..])[old(index) := value]
      ensures index == (old(index) + 1) % size
    {
      values[index] := value;
      index := index + 1;
      if index == size {
        index := 0;
      }
    }

    /** The running mean over the populated slots, computed incrementally as the
     *  source does; exact over the reals. */
    method GetMean() returns (mean: int)
      requires Valid()
      ensures mean == Mean(values[..])
    {
      var result: real := 0.0;
      var counter: int := 0;
      var i := 0;
      while i < size
        invariant 0 <= i <= size
        invariant counter == PopulatedCount(values[..i])
        invariant counter == 0 ==> result == 0.0 && PopulatedSum(values[..i]) == 0
        invariant counter > 0 ==> result == PopulatedSum(values[..i]) as real / counter as real
      {
        var value := values[i];
        assert values[..i + 1][..i] == values[..i];
        if value != UNPOPULATED {
          counter := counter + 1;
          IncrementalMeanStep(counter, PopulatedSum(values[..i]), result, value);
          result := result * ((counter - 1) as real / counter as real) + value as real / counter as real;
        }
        i := i + 1;
      }
      assert values[..size] == values[..];
      mean := TruncateToLong(result);
    }
  }

  /** One step of the source's incremental mean keeps it equal to sum/count. */
  lemma IncrementalMeanStep(counter: int, sum: int, result: real, value: int)
    requires counter >= 1
    requires counter == 1 ==> result == 0.0 && sum == 0
    requires counter > 1 ==> result == sum as real / (counter - 1) as real
    ensures result * ((counter - 1) as real / counter as real) + value as real / counter as real
            == (sum + value) as real / counter as real
  {
  }

  /** A cache in which no slot has been written reports a mean of 0. */
  lemma {:induction false} UnpopulatedMeanIsZero(s: seq<int>)
    requires forall i :: 0 <= i < |s| ==> s[i] == UNPOPULATED
    ensures PopulatedCount(s) == 0 && Mean(s) == 0
  {
    if s != [] {
      UnpopulatedMeanIsZero(s[..|s| - 1]);
    }
  }

  /** Populated count and sum over a cache whose only written slot is `k`. */
  lemma {:induction false} SingleSlotTotals(s: seq<int>, k: nat)
    requires k < |s| && s[k] != UNPOPULATED
    requires forall i :: 0 <= i < |s| && i != k ==> s[i] == UNPOPULATED
    ensures PopulatedCount(s) == 1 && PopulatedSum(s) == s[k]
  {
    var init := s[..|s| - 1];
    if k == |s| - 1 {
      UnpopulatedMeanIsZero(init);
      UnpopulatedSumIsZero(init);
    } else {
      SingleSlotTotals(init, k);
    }
  }

  lemma {:induction false} UnpopulatedSumIsZero(s: seq<int>)
    requires forall i :: 0 <= i < |s| ==> s[i] == UNPOPULATED
    ensures PopulatedSum(s) == 0
  {
    if s != [] {
      UnpopulatedSumIsZero(s[..|s| - 1]);
    }
  }

  /** After a single sample in an otherwise untouched cache, the mean is that
   *  sample. */
  lemma SingleSampleMean(s: seq<int>, k: nat)
    requires k < |s| && s[k] != UNPOPULATED
    requires forall i :: 0 <= i < |s| && i != k ==> s[i] == UNPOPULATED
    ensures Mean(s) == s[k]
  {
    SingleSlotTotals(s, k);
  }

  /** Bounds on every populated slot bound the sum. */
  lemma {:induction false} PopulatedSumBounds(s: seq<int>, lo: int, hi: int)
    requires forall i :: 0 <= i < |s| && s[i] != UNPOPULATED ==> lo <= s[i] <= hi
    ensures lo * PopulatedCount(s) <= PopulatedSum(s) <= hi * PopulatedCount(s)
  {
    if s != [] {
      var init := s[..|s| - 1];
      PopulatedSumBounds(init, lo, hi);
      var c := PopulatedCount(init);
      if s[|s| - 1] != UNPOPULATED {
        assert lo * (c + 1) == lo * c + lo;
        assert hi * (c + 1) == hi * c + hi;
      }
    }
  }

  /** The mean lies between the smallest and largest populated sample. */
  lemma MeanWithinBounds(s: seq<int>, lo: int, hi: int)
    requires PopulatedCount(s) > 0
    requires forall i :: 0 <= i < |s| && s[i] != UNPOPULATED ==> lo <= s[i] <= hi
    ensures lo <= Mean(s) <= hi
  {
    PopulatedSumBounds(s, lo, hi);
    RealQuotientBounds(PopulatedSum(s), PopulatedCount(s), lo, hi);
  }

  lemma RealQuotientBounds(sum: int, c: int, lo: int, hi: int)
    requires c > 0 && lo * c <= sum <= hi * c
    ensures lo as real <= sum as real / c as real <= hi as real
  {
    assert (lo * c) as real == lo as real * c as real;
    assert (hi * c) as real == hi as real * c as real;
  }
}
