/** One-pass column statistics and the window sampler. */
module NumberStats {
  import opened Words
  import opened RunLength

  datatype Stats = Stats(
    tupleCount: nat, totalSize: nat, min: int, max: int, distinct: map<int, nat>,
    nullCount: nat, uniqueCount: nat, setCount: nat, averageRunLength: nat, isSorted: bool)

  /** Rows below `n` that are null. */
  function NullRows(nulls: NullMap, n: nat): nat
    requires nulls.Some? ==> n <= |nulls.value|
  {
    if n == 0 then 0 else NullRows(nulls, n - 1) + if Live(nulls, n - 1) then 0 else 1
  }

  ghost predicate Least(src: seq<int>, m: int) { m in src && forall i :: 0 <= i < |src| ==> m <= src[i] }

  ghost predicate Greatest(src: seq<int>, m: int) { m in src && forall i :: 0 <= i < |src| ==> src[i] <= m }

  /** Row 0 and the live rows below `n` are in ascending order. */
  ghost predicate SortedTo(src: seq<int>, nulls: NullMap, n: nat)
    requires n <= |src| && Covers(nulls, |src|)
  {
    forall i, j :: 0 <= i < j < n && (i == 0 || Live(nulls, i)) && Live(nulls, j) ==> src[i] <= src[j]
  }

  /** How often each value occurs; values of null rows are counted too. */
  ghost predicate Occurrences(src: seq<int>, distinct: map<int, nat>) {
    && (forall v :: v in distinct <==> v in src)
    && (forall v :: v in distinct ==> distinct[v] == multiset(src)[v])
  }

  /** How many runs the RLE encoder makes of the column. */
  ghost function EncoderRuns(src: seq<int>, nulls: NullMap): (runs: nat)
    requires 1 <= |src| && Covers(nulls, |src|)
    ensures 1 <= runs
  {
    |RunsTo(src, nulls, |src|).counts|
  }

  /** The raw size, kept in 32 bits. */
  function TotalSize(rows: nat, width: nat): nat { U32(rows * width) }

  /** The average run length in whole rows: so many rows for each run, and not one more for each. */
  predicate PerRun(average: nat, runs: nat, rows: nat) { average * runs <= rows < (average + 1) * runs }

  lemma QuotientPerRun(rows: nat, runs: nat)
    requires 1 <= runs
    ensures PerRun(rows / runs, runs, rows)
  {
    var q := rows / runs;
    assert rows == q * runs + rows % runs;
    assert (q + 1) * runs == q * runs + runs;
  }

  /** `generateStats`; `width` is `sizeof(T)`, and sizes are kept in 32 bits. */
  ghost predicate Describes(stats: Stats, src: seq<int>, nulls: NullMap, width: nat)
    requires Covers(nulls, |src|)
  {
    && stats.tupleCount == |src| && stats.totalSize == TotalSize(|src|, width)
    && Occurrences(src, stats.distinct)
    && stats.uniqueCount == |stats.distinct|
    && stats.nullCount == NullRows(nulls, |src|) && stats.setCount == |src| - stats.nullCount
    && (stats.isSorted <==> SortedTo(src, nulls, |src|))
    && (|src| > 0 ==>
          && Least(src, stats.min) && Greatest(src, stats.max)
          && PerRun(stats.averageRunLength, EncoderRuns(src, nulls), |src|))
  }

  lemma {:induction false} NullRowsBound(nulls: NullMap, n: nat, upto: nat)
    requires n <= upto && (nulls.Some? ==> upto <= |nulls.value|)
    ensures NullRows(nulls, n) <= n
    ensures NullRows(nulls, n) == n <==> forall i :: 0 <= i < n ==> !Live(nulls, i)
  {
    if n > 0 {
      NullRowsBound(nulls, n - 1, upto);
    }
  }

  lemma CountExtends(src: seq<int>, row: nat, distinct: map<int, nat>)
    requires row < |src| && Occurrences(src[..row], distinct)
    ensures var v := src[row];
      Occurrences(src[..row + 1], distinct[v := (if v in distinct then distinct[v] else 0) + 1])
  {
    var v := src[row];
    assert src[..row + 1] == src[..row] + [v];
    assert v !in src[..row] ==> multiset(src[..row])[v] == 0;
  }

  /** The statistics' run counter is one behind the encoder's number of runs. */
  ghost predicate RunsSeen(src: seq<int>, nulls: NullMap, n: nat, last: int, runCount: nat)
    requires 1 <= n <= |src| && Covers(nulls, |src|)
  {
    var runs := RunsTo(src, nulls, n);
    |runs.counts| == runCount + 1 && runs.values[|runs.values| - 1] == last
  }

  /** `last` is the latest live value (or row 0), and while the flag stands it is also the greatest. */
  ghost predicate OrderSeen(src: seq<int>, nulls: NullMap, n: nat, last: int, isSorted: bool)
    requires n <= |src| && Covers(nulls, |src|)
  {
    && (isSorted <==> SortedTo(src, nulls, n))
    && (n > 0 ==> exists k :: 0 <= k < n && (k == 0 || Live(nulls, k)) && src[k] == last)
    && (isSorted ==> forall i :: 0 <= i < n && (i == 0 || Live(nulls, i)) ==> src[i] <= last)
  }

  lemma OrderStep(src: seq<int>, nulls: NullMap, row: nat, last: int, isSorted: bool)
    requires row < |src| && Covers(nulls, |src|) && OrderSeen(src, nulls, row, last, isSorted)
    requires row == 0 ==> last == src[0]
    ensures var live := src[row] != last && Live(nulls, row);
      OrderSeen(src, nulls, row + 1, if live then src[row] else last, isSorted && !(live && src[row] < last))
  {
  }

  ghost predicate BoundsSeen(src: seq<int>, n: nat, min: int, max: int)
    requires n <= |src|
  {
    && (|src| > 0 ==> min in src && max in src && min <= src[0] <= max)
    && forall i :: 0 <= i < n ==> min <= src[i] <= max
  }

  lemma BoundsStep(src: seq<int>, row: nat, min: int, max: int)
    requires row < |src| && BoundsSeen(src, row, min, max)
    ensures min <= max
    ensures BoundsSeen(src, row + 1, if src[row] < min then src[row] else min, if src[row] > max then src[row] else max)
  {
  }

  lemma RunStep(src: seq<int>, nulls: NullMap, row: nat, last: int, runCount: nat)
    requires row < |src| && Covers(nulls, |src|)
    requires if row == 0 then last == src[0] && runCount == 0 else RunsSeen(src, nulls, row, last, runCount)
    ensures var live := src[row] != last && Live(nulls, row);
      RunsSeen(src, nulls, row + 1, if live then src[row] else last, if live then runCount + 1 else runCount)
  {
  }

  lemma NullRowsStep(nulls: NullMap, row: nat)
    requires nulls.Some? ==> row < |nulls.value|
    ensures NullRows(nulls, row + 1) == NullRows(nulls, row) + if Live(nulls, row) then 0 else 1
  {
  }

  lemma NothingSeen(src: seq<int>, nulls: NullMap, last: int)
    requires Covers(nulls, |src|) && (|src| > 0 ==> last == src[0])
    ensures Seen(src, nulls, 0, Pass(last, last, last, map[], 0, 0, true))
  {
  }

  /** The accumulators of the pass. */
  datatype Pass = Pass(min: int, max: int, last: int, distinct: map<int, nat>, nullCount: nat, runCount: nat,
      isSorted: bool)

  /** What the accumulators hold after the first `n` rows. */
  ghost predicate Seen(src: seq<int>, nulls: NullMap, n: nat, p: Pass)
    requires n <= |src| && Covers(nulls, |src|)
  {
    && BoundsSeen(src, n, p.min, p.max) && Occurrences(src[..n], p.distinct) && p.nullCount == NullRows(nulls, n)
    && OrderSeen(src, nulls, n, p.last, p.isSorted)
    && (if n > 0 then RunsSeen(src, nulls, n, p.last, p.runCount) else |src| > 0 ==>
      p.last == src[0] && p.runCount == 0)
  }

  /** One more row: null rows count as values but open no run and disturb no order. */
  function Next(p: Pass, v: int, live: bool): Pass {
    var opens := v != p.last && live;
    Pass(if v < p.min then v else p.min, if v > p.max then v else p.max, if opens then v else p.last,
         p.distinct[v := (if v in p.distinct then p.distinct[v] else 0) + 1],
         p.nullCount + if live then 0 else 1, if opens then p.runCount + 1 else p.runCount,
         p.isSorted && !(opens && v < p.last))
  }

  lemma AllSeen(src: seq<int>, nulls: NullMap, p: Pass)
    requires Covers(nulls, |src|) && Seen(src, nulls, |src|, p)
    ensures p.nullCount == NullRows(nulls, |src|) <= |src| && Occurrences(src, p.distinct)
    ensures p.isSorted <==> SortedTo(src, nulls, |src|)
    ensures |src| > 0 ==>
      Least(src, p.min) && Greatest(src, p.max) && EncoderRuns(src, nulls) == p.runCount + 1
  {
    NullRowsBound(nulls, |src|, |src|);
    assert src[..|src|] == src;
  }

  lemma RowSeen(src: seq<int>, nulls: NullMap, row: nat, p: Pass)
    requires row < |src| && Covers(nulls, |src|) && Seen(src, nulls, row, p)
    ensures p.min <= p.max
    ensures Seen(src, nulls, row + 1, Next(p, src[row], Live(nulls, row)))
  {
    hide Occurrences, OrderSeen, RunsSeen, BoundsSeen, NullRows;
    OrderStep(src, nulls, row, p.last, p.isSorted);
    RunStep(src, nulls, row, p.last, p.runCount);
    BoundsStep(src, row, p.min, p.max);
    CountExtends(src, row, p.distinct);
    NullRowsStep(nulls, row);
  }

  method GenerateStats(src: seq<int>, nulls: NullMap, width: nat) returns (stats: Stats)
    requires Covers(nulls, |src|)
    ensures Describes(stats, src, nulls, width)
    ensures 1 <= |src| ==>
      var average, runs := stats.averageRunLength, EncoderRuns(src, nulls);
      average * runs <= |src| < (average + 1) * runs
  {
    var p := Pass(0, 0, 0, map[], 0, 0, true);
    if |src| > 0 {
      p := p.(min := src[0], max := src[0], last := src[0]);
    }
    NothingSeen(src, nulls, p.last);
    hide Seen, Next, Describes;
    var row := 0;
    while row < |src|
      invariant 0 <= row <= |src| && Seen(src, nulls, row, p)
    {
      RowSeen(src, nulls, row, p);
      p := TakeRow(p, src[row], Live(nulls, row));
      row := row + 1;
    }
    stats := Summary(src, nulls, width, p);
  }

  /** The loop body. */
  method TakeRow(p: Pass, v: int, live: bool) returns (q: Pass)
    requires p.min <= p.max
    ensures q == Next(p, v, live)
  {
    q := p;
    if v != p.last && live {
      if v < p.last {
        q := q.(isSorted := false);
      }
      q := q.(last := v, runCount := q.runCount + 1);
    }
    q := q.(distinct := p.distinct[v := (if v in p.distinct then p.distinct[v] else 0) + 1]);
    if v > p.max {
      q := q.(max := v);
    } else if v < p.min {
      q := q.(min := v);
    }
    if !live {
      q := q.(nullCount := q.nullCount + 1);
    }
  }

  method Summary(src: seq<int>, nulls: NullMap, width: nat, p: Pass) returns (stats: Stats)
    requires Covers(nulls, |src|) && Seen(src, nulls, |src|, p)
    ensures Describes(stats, src, nulls, width)
  {
    hide Seen, Occurrences, NullRows, SortedTo, EncoderRuns, TotalSize, PerRun, Least, Greatest;
    AllSeen(src, nulls, p);
    QuotientPerRun(|src|, p.runCount + 1);
    stats := Stats(|src|, TotalSize(|src|, width), p.min, p.max, p.distinct, p.nullCount, |p.distinct|,
                   |src| - p.nullCount, |src| / (p.runCount + 1), p.isSorted);
  }

  // ---------------------------------------------------------------- samples

  /** One flag per row, for an absent null map as well. */
  function LiveFlags(nulls: NullMap, n: nat): (flags: seq<bool>)
    requires Covers(nulls, n)
    ensures |flags| == n && forall i :: 0 <= i < n ==> flags[i] == Live(nulls, i)
  {
    seq(n, i requires 0 <= i < n => Live(nulls, i))
  }

  /** Equally long windows inside [0, total), in ascending order and disjoint. */
  ghost predicate Windows(starts: seq<nat>, length: nat, total: nat) {
    && (forall k :: 0 <= k < |starts| ==> starts[k] + length <= total)
    && (forall j, k :: 0 <= j < k < |starts| ==> starts[j] + length <= starts[k])
  }

  /** The first `k` windows, one after the other. */
  ghost function Cut<T>(src: seq<T>, starts: seq<nat>, length: nat, k: nat): seq<T>
    requires k <= |starts| && Windows(starts, length, |src|)
  {
    if k == 0 then [] else Cut(src, starts, length, k - 1) + src[starts[k - 1]..starts[k - 1] + length]
  }

  lemma {:induction false} CutOfPrefix<T>(src: seq<T>, starts: seq<nat>, length: nat, more: seq<nat>, k: nat)
    requires k <= |starts| && Windows(starts + more, length, |src|) && Windows(starts, length, |src|)
    ensures Cut(src, starts + more, length, k) == Cut(src, starts, length, k)
  {
    if k > 0 {
      CutOfPrefix(src, starts, length, more, k - 1);
    }
  }

  /** The windows together hold `k` times the window length, all of it taken from the column. */
  lemma {:induction false} CutContent<T>(src: seq<T>, starts: seq<nat>, length: nat, k: nat)
    requires k <= |starts| && Windows(starts, length, |src|)
    ensures 0 <= k * length && |Cut(src, starts, length, k)| == k * length
    ensures forall i :: 0 <= i < |Cut(src, starts, length, k)| ==> Cut(src, starts, length, k)[i] in src
  {
    if k > 0 {
      CutContent(src, starts, length, k - 1);
      assert k * length == (k - 1) * length + length;
    }
  }

  /** A partition has room for a window. */
  lemma SeparatorHoldsWindow(total: nat, n: nat, length: nat)
    requires 1 <= n && n * length < total
    ensures length <= total / n
  {
    var separator := total / n;
    assert total < n * separator + n;
    MulMonotone(n, separator + 1, length);
    assert n * (separator + 1) == n * separator + n;
  }

  /** Partition `k` ends where the next one starts; the last one also takes the remainder. */
  lemma PartitionEnds(total: nat, n: nat, k: nat)
    requires 1 <= n && k < n
    ensures var separator := total / n;
      && (k + 1) * separator == k * separator + separator <= total
      && (k == n - 1 ==> k * separator + separator + total % n == total)
  {
    var separator := total / n;
    assert total == n * separator + total % n;
    MulMonotone(separator, k + 1, n);
    assert (k + 1) * separator == k * separator + separator;
  }

  lemma WindowsExtend<T>(src: seq<T>, starts: seq<nat>, length: nat, begin: nat)
    requires Windows(starts, length, |src|) && begin + length <= |src|
    requires |starts| > 0 ==> starts[|starts| - 1] + length <= begin
    ensures Windows(starts + [begin], length, |src|)
    ensures Cut(src, starts + [begin], length, |starts| + 1) ==
      Cut(src, starts, length, |starts|) + src[begin..begin + length]
  {
    var more := starts + [begin];
    assert forall j :: 0 <= j < |starts| ==> starts[j] + length <= begin;
    CutOfPrefix(src, starts, length, [begin], |starts|);
  }

  /**
    * `samples`: the whole column when it is small, else `n` windows, each drawn at random inside its own partition.
    * Whatever the draws, the windows are in bounds, ascending and disjoint.
    */
  method Samples(src: seq<int>, nulls: NullMap, n: nat, length: nat)
    returns (values: seq<int>, bitmap: seq<bool>, ghost starts: seq<nat>)
    requires Covers(nulls, |src|) && 1 <= n
    ensures |values| == |bitmap|
    ensures |src| <= n * length ==> values == src && bitmap == LiveFlags(nulls, |src|)
    ensures |src| > n * length ==>
      && |starts| == n && Windows(starts, length, |src|)
      && values == Cut(src, starts, length, n)
      && bitmap == Cut(LiveFlags(nulls, |src|), starts, length, n)
  {
    values, bitmap, starts := [], [], [];
    var flags := LiveFlags(nulls, |src|);
    if |src| <= n * length {
      values, bitmap := src, flags;
      return;
    }
    var separator, remainder := |src| / n, |src| % n;
    SeparatorHoldsWindow(|src|, n, length);
    var k := 0;
    ghost var base: nat := 0;
    while k < n
      invariant 0 <= k <= n && |starts| == k && base == k * separator && Windows(starts, length, |src|)
      invariant 0 < k < n ==> starts[k - 1] + length <= base
      invariant |values| == |bitmap|
      invariant values == Cut(src, starts, length, k) && bitmap == Cut(flags, starts, length, k)
    {
      hide Cut, Windows;
      PartitionEnds(|src|, n, k);
      var rangeEnd := (if k == n - 1 then separator + remainder else separator) - length;
      var draw: nat :| draw <= rangeEnd;
      var begin := k * separator + draw;
      WindowsExtend(src, starts, length, begin);
      WindowsExtend(flags, starts, length, begin);
      starts := starts + [begin];
      values := values + src[begin..begin + length];
      bitmap := bitmap + flags[begin..begin + length];
      base := base + separator;
      k := k + 1;
    }
  }
}
