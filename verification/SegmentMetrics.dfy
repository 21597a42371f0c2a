/** The split planner's reusable metric collector. */
module SegmentMetrics {
  import opened Words
  import opened RunLength

  const UNIQUE_COUNT_CAP: nat := 16384
  const DIRECT_COUNT_BITS: nat := 16

  datatype Flags = Flags(minMax: bool, runStats: bool, uniqueCount: bool, dominantValue: bool)

  datatype Metrics = Metrics(
    min: nat, max: nat, range: nat, uniqueCount: nat, uniqueCountCapped: bool,
    dominantCount: nat, dominantCountCapped: bool, runCount: nat, avgRunLength: real)

  const NO_METRICS := Metrics(0, 0, 0, 0, false, 0, false, 0, 0.0)

  // ---------------------------------------------------------------- what is measured

  /** How often `v` occurs among the first `n` values. */
  function Count(values: seq<nat>, v: nat, n: nat): (c: nat)
    requires n <= |values|
    ensures c <= n
  {
    if n == 0 then 0 else Count(values, v, n - 1) + if values[n - 1] == v then 1 else 0
  }

  function Distinct(values: seq<nat>, n: nat): set<nat>
    requires n <= |values|
  {
    set i | 0 <= i < n :: values[i]
  }

  ghost predicate LeastOf(values: seq<nat>, n: nat, m: nat)
    requires n <= |values|
  {
    m in values[..n] && forall i :: 0 <= i < n ==> m <= values[i]
  }

  ghost predicate GreatestOf(values: seq<nat>, n: nat, m: nat)
    requires n <= |values|
  {
    m in values[..n] && forall i :: 0 <= i < n ==> values[i] <= m
  }

  /** The frequency of the most common of the first `n` values. */
  ghost predicate TopCount(values: seq<nat>, n: nat, c: nat)
    requires n <= |values|
  {
    && (forall v :: Count(values, v, n) <= c)
    && (if n == 0 then c == 0 else exists v :: Count(values, v, n) == c)
  }

  /** Runs of equal neighbours, as the run-length encoder makes them. */
  ghost function RunsOf(values: seq<nat>, n: nat): nat
    requires 1 <= n <= |values|
  {
    |RunsTo(values, None, n).counts|
  }

  /** The counting path: values index an array when the bit range is narrow. */
  predicate Direct(flags: Flags, bitWidth: nat) {
    (flags.uniqueCount || flags.dominantValue) && bitWidth <= DIRECT_COUNT_BITS
  }

  /** Capped exactly when values are hashed and too many of them are distinct. */
  ghost predicate Capped(values: seq<nat>, n: nat, bitWidth: nat)
    requires n <= |values|
  {
    DIRECT_COUNT_BITS < bitWidth && UNIQUE_COUNT_CAP < |Distinct(values, n)|
  }

  /** What `compute` promises, flag by flag; a metric that was not asked for stays zero. */
  ghost predicate Measures(m: Metrics, values: seq<nat>, bitWidth: nat, flags: Flags) {
    var n := |values|;
    var capped := Capped(values, n, bitWidth);
    if n == 0 then m == NO_METRICS
    else
      && (if flags.minMax
          then LeastOf(values, n, m.min) && GreatestOf(values, n, m.max) && m.range == m.max - m.min
          else m.min == m.max == m.range == 0)
      && (if flags.runStats
          then m.runCount == RunsOf(values, n) > 0 && m.avgRunLength == n as real / m.runCount as real
          else m.runCount == 0 && m.avgRunLength == 0.0)
      && (if flags.uniqueCount
          then m.uniqueCountCapped == capped
               && m.uniqueCount == if capped then UNIQUE_COUNT_CAP + 1 else |Distinct(values, n)|
          else m.uniqueCount == 0 && !m.uniqueCountCapped)
      && (if flags.dominantValue
          then m.dominantCountCapped == capped && (!capped ==> TopCount(values, n, m.dominantCount))
          else m.dominantCount == 0 && !m.dominantCountCapped)
  }

  // ---------------------------------------------------------------- one more value

  lemma DistinctStep(values: seq<nat>, n: nat)
    requires n < |values|
    ensures Distinct(values, n + 1) == Distinct(values, n) + {values[n]}
    ensures Distinct(values, n) <= Distinct(values, n + 1) && |Distinct(values, n)| <= |Distinct(values, n + 1)|
    ensures values[n] !in Distinct(values, n) ==> |Distinct(values, n + 1)| == |Distinct(values, n)| + 1
  {
    assert Distinct(values, n + 1) == Distinct(values, n) + {values[n]};
    if values[n] in Distinct(values, n) {
      assert Distinct(values, n + 1) == Distinct(values, n);
    }
  }

  lemma {:induction false} CountedIffDistinct(values: seq<nat>, v: nat, n: nat)
    requires n <= |values|
    ensures Count(values, v, n) > 0 <==> v in Distinct(values, n)
  {
    if n > 0 {
      CountedIffDistinct(values, v, n - 1);
      DistinctStep(values, n - 1);
    }
  }

  lemma TopStep(values: seq<nat>, n: nat, top: nat)
    requires n < |values| && TopCount(values, n, top)
    ensures var c := Count(values, values[n], n) + 1; TopCount(values, n + 1, if c > top then c else top)
  {
    var c := Count(values, values[n], n) + 1;
    assert Count(values, values[n], n + 1) == c;
    var more := if c > top then c else top;
    var next := n + 1;
    forall v: nat ensures Count(values, v, next) <= more {
      assert Count(values, v, n) <= top;
    }
    if c <= top {
      var v :| Count(values, v, n) == top;
      assert Count(values, values[n], n) <= top;
      assert v != values[n];
      assert Count(values, v, n + 1) == top;
    }
  }

  lemma RunStep(values: seq<nat>, n: nat)
    requires 1 <= n < |values|
    ensures RunsOf(values, n + 1) == RunsOf(values, n) + if values[n] != values[n - 1] then 1 else 0
  {
    LastRunValue(values, n);
  }

  lemma {:induction false} LastRunValue(values: seq<nat>, n: nat)
    requires 1 <= n <= |values|
    ensures var runs := RunsTo(values, None, n);
      1 <= |runs.values| == |runs.counts| && runs.values[|runs.values| - 1] == values[n - 1]
    ensures RunsOf(values, 1) == 1
  {
    if n > 1 {
      LastRunValue(values, n - 1);
    }
  }

  // ---------------------------------------------------------------- collector

  /** The flat counters after `n` values: a slot per possible value, and a list of the slots that are not zero. */
  ghost predicate CountedDirect(counts: seq<nat>, touched: seq<nat>, values: seq<nat>, n: nat)
    requires n <= |values|
  {
    && (forall v :: 0 <= v < |counts| ==> counts[v] == Count(values, v, n))
    && |touched| == |Distinct(values, n)| && (forall v :: v in touched <==> v in Distinct(values, n))
  }

  /** The hash map after `n` values, as long as the cap was not reached. */
  ghost predicate CountedHashed(freq: map<nat, nat>, capped: bool, values: seq<nat>, n: nat)
    requires n <= |values|
  {
    && (capped <==> UNIQUE_COUNT_CAP < |Distinct(values, n)|)
    && (!capped ==> freq.Keys == Distinct(values, n) && forall v :: v in freq ==> freq[v] == Count(values, v, n))
  }


  /** Members that earlier calls left behind; every call starts by resetting what it uses. */
  class MetricCollector {
    var counts: seq<nat>
    var touched: seq<nat>
    var freqMap: map<nat, nat>

    constructor () {
      counts, touched, freqMap := [], [], map[];
    }

    /**
      * `compute`, whatever an earlier call left in the members. Narrow ranges are counted exactly; wide ones up to the
      * cap. The counters are zero again afterwards.
      */
    method Compute(values: seq<nat>, bitWidth: nat, flags: Flags) returns (m: Metrics)
      requires Direct(flags, bitWidth) ==> forall i :: 0 <= i < |values| ==> values[i] < Power2(bitWidth)
      modifies this
      ensures Measures(m, values, bitWidth, flags)
      ensures Direct(flags, bitWidth) && |values| > 0 ==> forall v :: 0 <= v < |counts| ==> counts[v] == 0
    {
      if |values| == 0 {
        return NO_METRICS;
      }
      m := MinMaxAndRuns(values, flags);
      if flags.uniqueCount || flags.dominantValue {
        var distinct, top, capped;
        if bitWidth <= DIRECT_COUNT_BITS {
          distinct, top := CountDirect(values, bitWidth);
          capped := false;
        } else {
          distinct, top, capped := CountHashed(values);
        }
        if flags.uniqueCount {
          m := m.(uniqueCount := distinct, uniqueCountCapped := capped);
        }
        if flags.dominantValue {
          m := m.(dominantCount := top, dominantCountCapped := capped);
        }
      }
    }

    /** The metrics that need no counting. */
    method MinMaxAndRuns(values: seq<nat>, flags: Flags) returns (m: Metrics)
      requires |values| > 0
      ensures m.uniqueCount == m.dominantCount == 0 && !m.uniqueCountCapped && !m.dominantCountCapped
      ensures if flags.minMax
              then LeastOf(values, |values|, m.min) && GreatestOf(values, |values|, m.max) && m.range == m.max - m.min
              else m.min == m.max == m.range == 0
      ensures if flags.runStats
              then m.runCount == RunsOf(values, |values|) > 0 && m.avgRunLength == |values| as real / m.runCount as real
              else m.runCount == 0 && m.avgRunLength == 0.0
    {
      hide RunsOf;
      var min, max, runs := values[0], values[0], 1;
      LastRunValue(values, 1);
      var i := 1;
      while i < |values|
        invariant 1 <= i <= |values|
        invariant LeastOf(values, i, min) && GreatestOf(values, i, max) && 1 <= runs == RunsOf(values, i)
      {
        BoundsStep(values, i, min, max);
        RunStep(values, i);
        if values[i] < min {
          min := values[i];
        }
        if values[i] > max {
          max := values[i];
        }
        if values[i] != values[i - 1] {
          runs := runs + 1;
        }
        i := i + 1;
      }
      m := NO_METRICS;
      if flags.minMax {
        m := m.(min := min, max := max, range := max - min);
      }
      if flags.runStats {
        m := m.(runCount := runs, avgRunLength := |values| as real / runs as real);
      }
    }

    /** The flat-array path; the touched slots are cleared at the end. */
    method CountDirect(values: seq<nat>, bitWidth: nat) returns (distinct: nat, top: nat)
      requires forall i :: 0 <= i < |values| ==> values[i] < Power2(bitWidth)
      modifies this
      ensures distinct == |Distinct(values, |values|)| && TopCount(values, |values|, top)
      ensures forall v :: 0 <= v < |counts| ==> counts[v] == 0
    {
      hide TopCount, Distinct, Power2, CountedDirect;
      counts, touched, top := seq(Power2(bitWidth), _ => 0), [], 0;
      NothingCounted(values, counts);
      var i := 0;
      while i < |values|
        invariant 0 <= i <= |values| && |counts| == Power2(bitWidth)
        invariant CountedDirect(counts, touched, values, i) && TopCount(values, i, top)
      {
        top := CountOne(values, i, top);
        i := i + 1;
      }
      AllCounted(counts, touched, values);
      distinct := |touched|;
      ClearTouched(values);
    }

    /** One value more: its slot, the touched list if the slot was empty, and the greatest count. */
    method CountOne(values: seq<nat>, i: nat, top: nat) returns (more: nat)
      requires i < |values| && values[i] < |counts|
      requires CountedDirect(counts, touched, values, i) && TopCount(values, i, top)
      modifies this`counts, this`touched
      ensures |counts| == |old(counts)|
      ensures CountedDirect(counts, touched, values, i + 1) && TopCount(values, i + 1, more)
    {
      var v := values[i];
      DirectStep(counts, touched, values, i);
      TopStep(values, i, top);
      hide TopCount, CountedDirect, Distinct;
      if counts[v] == 0 {
        touched := touched + [v];
      }
      counts := counts[v := counts[v] + 1];
      more := Max(counts[v], top);
    }

    method ClearTouched(ghost values: seq<nat>)
      requires CountedDirect(counts, touched, values, |values|)
      modifies this`counts
      ensures forall v :: 0 <= v < |counts| ==> counts[v] == 0
    {
      ghost var was := counts;
      var k := 0;
      while k < |touched|
        invariant 0 <= k <= |touched| && |counts| == |was|
        invariant forall v :: 0 <= v < |counts| ==> counts[v] == if v in touched[..k] then 0 else was[v]
      {
        if touched[k] < |counts| {
          counts := counts[touched[k] := 0];
        }
        k := k + 1;
      }
      forall v | 0 <= v < |counts| ensures counts[v] == 0 {
        CountedIffDistinct(values, v, |values|);
      }
    }

    /** The hash path; counting stops for good once the cap is exceeded. */
    method CountHashed(values: seq<nat>) returns (distinct: nat, top: nat, capped: bool)
      modifies this
      ensures capped <==> UNIQUE_COUNT_CAP < |Distinct(values, |values|)|
      ensures distinct == if capped then UNIQUE_COUNT_CAP + 1 else |Distinct(values, |values|)|
      ensures !capped ==> TopCount(values, |values|, top)
    {
      hide TopCount, Distinct;
      freqMap, top, capped := map[], 0, false;
      NothingCounted(values, []);
      var i := 0;
      while i < |values|
        invariant 0 <= i <= |values|
        invariant CountedHashed(freqMap, capped, values, i) && (!capped ==> TopCount(values, i, top))
      {
        HashedStep(freqMap, capped, values, i);
        if !capped {
          var v := values[i];
          TopStep(values, i, top);
          var inserted := v !in freqMap;
          freqMap := freqMap[v := (if inserted then 0 else freqMap[v]) + 1];
          top := Max(freqMap[v], top);
          if inserted && UNIQUE_COUNT_CAP < |freqMap| {
            capped := true;
          }
        }
        i := i + 1;
      }
      distinct := if capped then UNIQUE_COUNT_CAP + 1 else |freqMap|;
      assert !capped ==> |freqMap.Keys| == |freqMap|;
    }
  }

  lemma AllCounted(counts: seq<nat>, touched: seq<nat>, values: seq<nat>)
    requires CountedDirect(counts, touched, values, |values|)
    ensures |touched| == |Distinct(values, |values|)|
  {
  }

  lemma NothingCounted(values: seq<nat>, counts: seq<nat>)
    requires forall v :: 0 <= v < |counts| ==> counts[v] == 0
    ensures CountedDirect(counts, [], values, 0) && CountedHashed(map[], false, values, 0) && TopCount(values, 0, 0)
  {
    assert Distinct(values, 0) == {};
  }

  lemma BoundsStep(values: seq<nat>, n: nat, min: nat, max: nat)
    requires 1 <= n < |values| && LeastOf(values, n, min) && GreatestOf(values, n, max)
    ensures LeastOf(values, n + 1, if values[n] < min then values[n] else min)
    ensures GreatestOf(values, n + 1, if values[n] > max then values[n] else max)
  {
    assert values[..n + 1] == values[..n] + [values[n]];
  }

  /** One more value in its slot. */
  lemma DirectStep(counts: seq<nat>, touched: seq<nat>, values: seq<nat>, n: nat)
    requires n < |values| && values[n] < |counts| && CountedDirect(counts, touched, values, n)
    ensures var v := values[n];
      && counts[v] == Count(values, v, n)
      && CountedDirect(counts[v := counts[v] + 1], if counts[v] == 0 then touched + [v] else touched, values, n + 1)
  {
    CountedIffDistinct(values, values[n], n);
    DistinctStep(values, n);
  }

  lemma HashedStep(freq: map<nat, nat>, capped: bool, values: seq<nat>, n: nat)
    requires n < |values| && CountedHashed(freq, capped, values, n)
    ensures capped ==> CountedHashed(freq, capped, values, n + 1)
    ensures var v := values[n];
      var inserted := v !in freq;
      var more := freq[v := (if inserted then 0 else freq[v]) + 1];
      !capped ==>
        && more[v] == Count(values, v, n) + 1
        && CountedHashed(more, inserted && UNIQUE_COUNT_CAP < |more|, values, n + 1)
  {
    CountedIffDistinct(values, values[n], n);
    DistinctStep(values, n);
    if !capped {
      var v := values[n];
      var more := freq[v := (if v !in freq then 0 else freq[v]) + 1];
      assert more.Keys == Distinct(values, n + 1);
      assert |more| == |more.Keys|;
      if v in freq {
        assert more.Keys == freq.Keys;
      }
    }
  }
}
