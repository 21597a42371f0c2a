/** Run-length encoding: the encoder loop, its runs, the expansion of runs and the vectorised decoder. */
module RunLength {
  import opened Words

  // ---------------------------------------------------------------- runs and their owners

  predicate NonNegative(counts: seq<int>) { forall r :: 0 <= r < |counts| ==> 0 <= counts[r] }

  predicate Positive(counts: seq<int>) { forall r :: 0 <= r < |counts| ==> 1 <= counts[r] }

  /** First row of run `r`: the sum of the counts before it. */
  function Start(counts: seq<int>, r: nat): (s: int)
    requires r <= |counts|
  {
    if r == 0 then 0 else Start(counts, r - 1) + counts[r - 1]
  }

  function Total(counts: seq<int>): int { Start(counts, |counts|) }

  function Repeat<T>(v: T, n: int): (s: seq<T>)
    requires 0 <= n
    ensures |s| == n && forall i :: 0 <= i < n ==> s[i] == v
  {
    seq(n, _ => v)
  }

  /** Scalar meaning of the first `r` runs: each value repeated count times. */
  function ExpandTo<T>(values: seq<T>, counts: seq<int>, r: nat): seq<T>
    requires r <= |counts| == |values| && NonNegative(counts)
  {
    if r == 0 then [] else ExpandTo(values, counts, r - 1) + Repeat(values[r - 1], counts[r - 1])
  }

  function Expand<T>(values: seq<T>, counts: seq<int>): seq<T>
    requires |counts| == |values| && NonNegative(counts)
  {
    ExpandTo(values, counts, |counts|)
  }

  ghost predicate Owns(counts: seq<int>, r: int, row: int) {
    0 <= r < |counts| && Start(counts, r) <= row < Start(counts, r + 1)
  }

  lemma {:induction false} StartMonotone(counts: seq<int>, lo: nat, hi: nat)
    requires lo <= hi <= |counts| && NonNegative(counts)
    ensures 0 <= Start(counts, lo) <= Start(counts, hi)
    decreases hi
  {
    if lo < hi {
      StartMonotone(counts, lo, hi - 1);
    } else if lo > 0 {
      StartMonotone(counts, lo - 1, hi - 1);
    }
  }

  lemma {:induction false} StartOfPrefix(counts: seq<int>, more: seq<int>, r: nat)
    requires r <= |counts|
    ensures Start(counts + more, r) == Start(counts, r)
  {
    if r > 0 {
      StartOfPrefix(counts, more, r - 1);
    }
  }

  lemma {:induction false} ExpandOfPrefix<T>(values: seq<T>, counts: seq<int>, v: seq<T>, c: seq<int>, r: nat)
    requires r <= |counts| == |values| && |v| == |c|
    requires NonNegative(counts) && NonNegative(counts + c)
    ensures ExpandTo(values + v, counts + c, r) == ExpandTo(values, counts, r)
  {
    if r > 0 {
      ExpandOfPrefix(values, counts, v, c, r - 1);
    }
  }

  lemma {:induction false} ExpandLength<T>(values: seq<T>, counts: seq<int>, r: nat)
    requires r <= |counts| == |values| && NonNegative(counts)
    ensures |ExpandTo(values, counts, r)| == Start(counts, r)
  {
    if r > 0 {
      ExpandLength(values, counts, r - 1);
    }
  }

  /** Random access into runs: the row's value is the value of the run that owns it. */
  lemma {:induction false} ExpandAt<T>(values: seq<T>, counts: seq<int>, upto: nat, r: nat, row: nat)
    requires r < upto <= |counts| == |values| && NonNegative(counts) && Owns(counts, r, row)
    ensures row < |ExpandTo(values, counts, upto)| && ExpandTo(values, counts, upto)[row] == values[r]
    decreases upto
  {
    ExpandLength(values, counts, upto);
    ExpandLength(values, counts, upto - 1);
    StartMonotone(counts, r + 1, upto);
    if r + 1 < upto {
      StartMonotone(counts, r + 1, upto - 1);
      ExpandAt(values, counts, upto - 1, r, row);
    }
  }

  lemma {:induction false} OwnerUnique(counts: seq<int>, r: int, s: int, row: int)
    requires NonNegative(counts) && Owns(counts, r, row) && Owns(counts, s, row)
    ensures r == s
  {
    if r < s {
      StartMonotone(counts, r + 1, s);
    } else if s < r {
      StartMonotone(counts, s + 1, r);
    }
  }

  lemma {:induction false} OwnerOf(counts: seq<int>, upto: nat, row: int) returns (r: nat)
    requires upto <= |counts| && NonNegative(counts) && 0 <= row < Start(counts, upto)
    ensures r < upto && Owns(counts, r, row)
  {
    if Start(counts, upto - 1) <= row {
      r := upto - 1;
    } else {
      r := OwnerOf(counts, upto - 1, row);
    }
  }

  // ---------------------------------------------------------------- encoder

  /** A run list; the last run is the one the encoder is still counting. */
  datatype Runs<T> = Runs(values: seq<T>, counts: seq<int>)

  /** One more row at the end of the last run. */
  function Grow(counts: seq<int>): seq<int>
    requires 1 <= |counts|
  {
    counts[|counts| - 1 := counts[|counts| - 1] + 1]
  }

  /** The runs of rows [0, n); a null row always joins the current run. */
  ghost function RunsTo<T>(src: seq<T>, nulls: NullMap, n: nat): (runs: Runs<T>)
    requires 1 <= n <= |src| && Covers(nulls, |src|)
    ensures 1 <= |runs.values| == |runs.counts|
  {
    if n == 1 then Runs([src[0]], [1])
    else
      var p := RunsTo(src, nulls, n - 1);
      if src[n - 1] == p.values[|p.values| - 1] || !Live(nulls, n - 1) then Runs(p.values, Grow(p.counts))
      else Runs(p.values + [src[n - 1]], p.counts + [1])
  }

  /** Row `Start(counts, r)` opens run `r`, and (but for run 0) it is a live row. */
  ghost predicate Heads<T(!new)>(src: seq<T>, nulls: NullMap, values: seq<T>, counts: seq<int>, n: nat)
    requires Covers(nulls, |src|) && |values| == |counts| && n <= |src|
  {
    forall r {:trigger values[r]} :: 0 <= r < |values| ==> Head(src, nulls, values[r], Start(counts, r), n, r > 0)
  }

  ghost predicate Head<T(!new)>(src: seq<T>, nulls: NullMap, v: T, row: int, n: nat, live: bool)
    requires Covers(nulls, |src|) && n <= |src|
  {
    0 <= row < n && src[row] == v && (live ==> Live(nulls, row))
  }

  ghost predicate NeighboursDiffer<T(!new)>(values: seq<T>) {
    forall r {:trigger values[r]} :: 0 < r < |values| ==> values[r - 1] != values[r]
  }

  lemma {:induction false} StartOfGrown(counts: seq<int>, r: nat)
    requires 1 <= |counts| && r <= |counts|
    ensures Start(Grow(counts), r) == Start(counts, r) + if r == |counts| then 1 else 0
  {
    if r > 0 {
      StartOfGrown(counts, r - 1);
    }
  }

  lemma {:induction false} ExpandOfGrown<T>(values: seq<T>, counts: seq<int>, r: nat)
    requires 1 <= |values| == |counts| && NonNegative(counts) && r <= |counts|
    ensures NonNegative(Grow(counts))
    ensures ExpandTo(values, Grow(counts), r)
         == ExpandTo(values, counts, r) + if r == |counts| then [values[|values| - 1]] else []
  {
    if r > 0 {
      ExpandOfGrown(values, counts, r - 1);
      if r == |counts| {
        assert Repeat(values[r - 1], counts[r - 1] + 1) == Repeat(values[r - 1], counts[r - 1]) + [values[r - 1]];
      }
    }
  }

  /** What the encoder keeps about the runs of rows [0, n). */
  ghost predicate RunInvariant<T(!new)>(src: seq<T>, nulls: NullMap, runs: Runs<T>, n: nat)
    requires n <= |src| && Covers(nulls, |src|)
  {
    && 1 <= |runs.values| == |runs.counts| && Positive(runs.counts) && Total(runs.counts) == n
    && NeighboursDiffer(runs.values) && Heads(src, nulls, runs.values, runs.counts, n)
  }

  lemma GrowKeeps<T(!new)>(src: seq<T>, nulls: NullMap, p: Runs<T>, n: nat)
    requires n < |src| && Covers(nulls, |src|) && RunInvariant(src, nulls, p, n)
    ensures RunInvariant(src, nulls, Runs(p.values, Grow(p.counts)), n + 1)
  {
    hide Start;
    StartOfGrown(p.counts, |p.counts|);
    forall r | 0 <= r < |p.values|
      ensures Head(src, nulls, p.values[r], Start(Grow(p.counts), r), n + 1, r > 0)
    {
      StartOfGrown(p.counts, r);
    }
  }

  lemma RunOpens(counts: seq<int>)
    ensures Start(counts + [1], |counts|) == Total(counts) && Total(counts + [1]) == Total(counts) + 1
  {
    StartOfPrefix(counts, [1], |counts|);
  }

  lemma OpenKeeps<T(!new)>(src: seq<T>, nulls: NullMap, p: Runs<T>, n: nat)
    requires n < |src| && Covers(nulls, |src|) && RunInvariant(src, nulls, p, n)
    requires src[n] != p.values[|p.values| - 1] && Live(nulls, n)
    ensures RunInvariant(src, nulls, Runs(p.values + [src[n]], p.counts + [1]), n + 1)
  {
    hide Start, NeighboursDiffer;
    var vs, cs := p.values + [src[n]], p.counts + [1];
    RunOpens(p.counts);
    forall r | 0 <= r < |vs| ensures Head(src, nulls, vs[r], Start(cs, r), n + 1, r > 0) {
      if r < |p.values| {
        StartOfPrefix(p.counts, [1], r);
        assert vs[r] == p.values[r];
      }
    }
    DifferExtends(p.values, src[n]);
  }

  lemma DifferExtends<T(!new)>(values: seq<T>, v: T)
    requires 1 <= |values| && NeighboursDiffer(values) && v != values[|values| - 1]
    ensures NeighboursDiffer(values + [v])
  {
    var vs := values + [v];
    forall r {:trigger vs[r]} | 0 < r < |vs| ensures vs[r - 1] != vs[r] {
      if r < |values| {
        assert values[r - 1] != values[r];
      }
    }
  }

  lemma FirstRow<T(!new)>(src: seq<T>, nulls: NullMap)
    requires 1 <= |src| && Covers(nulls, |src|)
    ensures RunInvariant(src, nulls, Runs([src[0]], [1]), 1)
    ensures Expand([src[0]], [1]) == [src[0]]
  {
    assert Start([1], 1) == Start([1], 0) + 1;
    assert Start([1], 0) == 0;
    assert ExpandTo([src[0]], [1], 0) == [];
    assert ExpandTo([src[0]], [1], 1) == [] + Repeat(src[0], 1);
  }

  lemma {:induction false} RunsWellFormed<T(!new)>(src: seq<T>, nulls: NullMap, n: nat)
    requires 1 <= n <= |src| && Covers(nulls, |src|)
    ensures RunInvariant(src, nulls, RunsTo(src, nulls, n), n)
  {
    hide RunInvariant;
    if n == 1 {
      FirstRow(src, nulls);
    } else {
      RunsWellFormed(src, nulls, n - 1);
      var p := RunsTo(src, nulls, n - 1);
      if src[n - 1] == p.values[|p.values| - 1] || !Live(nulls, n - 1) {
        GrowKeeps(src, nulls, p, n - 1);
      } else {
        OpenKeeps(src, nulls, p, n - 1);
      }
    }
  }

  /** The next row's decoded value: that of the run it joins or opens. */
  lemma ExpandStep<T(!new)>(src: seq<T>, nulls: NullMap, n: nat)
    requires 2 <= n <= |src| && Covers(nulls, |src|)
    requires Positive(RunsTo(src, nulls, n).counts) && Positive(RunsTo(src, nulls, n - 1).counts)
    ensures var p, q := RunsTo(src, nulls, n - 1), RunsTo(src, nulls, n);
      exists v :: Expand(q.values, q.counts) == Expand(p.values, p.counts) + [v] && (Live(nulls, n - 1) ==>
        v == src[n - 1])
  {
    hide Start;
    var p := RunsTo(src, nulls, n - 1);
    if src[n - 1] == p.values[|p.values| - 1] || !Live(nulls, n - 1) {
      ExpandOfGrown(p.values, p.counts, |p.counts|);
    } else {
      assert NonNegative(p.counts + [1]);
      ExpandOfPrefix(p.values, p.counts, [src[n - 1]], [1], |p.counts|);
      assert Repeat(src[n - 1], 1) == [src[n - 1]];
    }
  }

  /** `got` covers rows [0, n) and reproduces the live ones. */
  ghost predicate AgreeTo<T(!new)>(got: seq<T>, src: seq<T>, nulls: NullMap, n: nat)
    requires n <= |src| && Covers(nulls, |src|)
  {
    |got| == n && forall i :: 0 <= i < n && Live(nulls, i) ==> got[i] == src[i]
  }

  lemma {:induction false} RunsAgree<T(!new)>(src: seq<T>, nulls: NullMap, n: nat)
    requires 1 <= n <= |src| && Covers(nulls, |src|)
    ensures Positive(RunsTo(src, nulls, n).counts)
    ensures AgreeTo(Expand(RunsTo(src, nulls, n).values, RunsTo(src, nulls, n).counts), src, nulls, n)
  {
    hide Start, Expand, Heads, NeighboursDiffer;
    RunsWellFormed(src, nulls, n);
    if n == 1 {
      FirstRow(src, nulls);
    } else {
      RunsAgree(src, nulls, n - 1);
      ExpandStep(src, nulls, n);
      hide RunsTo, AgreeTo;
      NextRowAgrees(src, nulls, n - 1, Expand(RunsTo(src, nulls, n - 1).values, RunsTo(src, nulls, n - 1).counts),
                    Expand(RunsTo(src, nulls, n).values, RunsTo(src, nulls, n).counts));
    }
  }

  lemma NextRowAgrees<T(!new)>(src: seq<T>, nulls: NullMap, n: nat, before: seq<T>, after: seq<T>)
    requires n < |src| && Covers(nulls, |src|) && AgreeTo(before, src, nulls, n)
    requires exists v :: after == before + [v] && (Live(nulls, n) ==> v == src[n])
    ensures AgreeTo(after, src, nulls, n + 1)
  {
  }

  lemma RunsEncode<T(!new)>(src: seq<T>, nulls: NullMap)
    requires 1 <= |src| && Covers(nulls, |src|)
    ensures var runs := RunsTo(src, nulls, |src|);
      Encoded(runs.values, runs.counts, src, nulls) && Total(runs.counts) == |src|
  {
    hide RunsTo, Expand, Total;
    RunsWellFormed(src, nulls, |src|);
    RunsAgree(src, nulls, |src|);
  }

  /** `TRLE::compressColumn`: the two streams handed to the picker. */
  method EncodeRuns<T(!new, ==)>(src: seq<T>, nulls: NullMap) returns (values: seq<T>, counts: seq<int>)
    requires 1 <= |src| && Covers(nulls, |src|)
    ensures Encoded(values, counts, src, nulls) && Total(counts) == |src|
    ensures Runs(values, counts) == RunsTo(src, nulls, |src|)
  {
    hide Encoded, Total;
    values, counts := [], [];
    var last, count := src[0], 1;
    var row := 1;
    while row < |src|
      invariant 1 <= row <= |src|
      invariant |values| == |counts|
      invariant Runs(values + [last], counts + [count]) == RunsTo(src, nulls, row)
    {
      if src[row] == last || !Live(nulls, row) {
        assert Grow(counts + [count]) == counts + [count + 1];
        count := count + 1;
      } else {
        counts := counts + [count];
        values := values + [last];
        last, count := src[row], 1;
      }
      row := row + 1;
    }
    RunsEncode(src, nulls);
    counts := counts + [count];
    values := values + [last];
  }

  // ---------------------------------------------------------------- minimality

  /** A list of non-empty runs that reproduces every live row of `src`. */
  ghost predicate Represents<T(!new)>(values: seq<T>, counts: seq<int>, src: seq<T>, nulls: NullMap)
    requires Covers(nulls, |src|)
  {
    |values| == |counts| && Positive(counts) && AgreeOnLive(Expand(values, counts), src, nulls)
  }

  /** Encoder output: see `EncodeRuns`. */
  ghost predicate Encoded<T(!new)>(values: seq<T>, counts: seq<int>, src: seq<T>, nulls: NullMap)
    requires 1 <= |src| && Covers(nulls, |src|)
  {
    && 1 <= |values| && Represents(values, counts, src, nulls)
    && NeighboursDiffer(values) && Heads(src, nulls, values, counts, |src|)
  }

  ghost predicate IsFirstLive(nulls: NullMap, n: nat, f: nat)
    requires Covers(nulls, n)
  {
    f < n && Live(nulls, f) && forall i :: 0 <= i < f ==> !Live(nulls, i)
  }

  /** The first live row, if there is one, carries the value stored in row 0: checkable before encoding. */
  ghost predicate OpensLive<T(!new)>(src: seq<T>, nulls: NullMap)
    requires 1 <= |src| && Covers(nulls, |src|)
  {
    forall f: nat :: IsFirstLive(nulls, |src|, f) ==> src[f] == src[0]
  }

  ghost predicate Minimal<T(!new)>(runs: nat, src: seq<T>, nulls: NullMap)
    requires 1 <= |src| && Covers(nulls, |src|)
  {
    forall values: seq<T>, counts :: Represents(values, counts, src, nulls) ==> runs <= |values|
  }

  lemma FirstLive(nulls: NullMap, n: nat) returns (f: nat)
    requires Covers(nulls, n) && !NoLiveRow(nulls, n)
    ensures IsFirstLive(nulls, n, f)
  {
    f := 0;
    while !Live(nulls, f)
      invariant f < n && forall i :: 0 <= i < f ==> !Live(nulls, i)
      decreases n - f
    {
      if f + 1 == n {
        assert NoLiveRow(nulls, n);
      }
      f := f + 1;
    }
  }

  /** The run of a representation that serves a live row carries that row's value. */
  lemma ServingRun<T(!new)>(src: seq<T>, nulls: NullMap, values: seq<T>, counts: seq<int>, row: nat) returns (o: nat)
    requires Covers(nulls, |src|) && Represents(values, counts, src, nulls) && row < |src| && Live(nulls, row)
    ensures o < |values| && Owns(counts, o, row) && values[o] == src[row]
  {
    ExpandLength(values, counts, |counts|);
    o := OwnerOf(counts, |counts|, row);
    ExpandAt(values, counts, |counts|, o, row);
  }

  lemma OwnersInOrder(counts: seq<int>, p: nat, o: nat, before: int, row: int)
    requires NonNegative(counts) && Owns(counts, p, before) && Owns(counts, o, row) && before <= row
    ensures p <= o
  {
    if o < p {
      StartMonotone(counts, o + 1, p);
    }
  }

  /** Live rows in order whose neighbours carry different values. */
  ghost predicate Chain<T(!new)>(src: seq<T>, nulls: NullMap, rows: seq<nat>)
    requires Covers(nulls, |src|)
  {
    && (forall r :: 0 <= r < |rows| ==> rows[r] < |src| && Live(nulls, rows[r]))
    && (forall r {:trigger rows[r]} :: 0 < r < |rows| ==> rows[r - 1] <= rows[r] && src[rows[r - 1]] != src[rows[r]])
  }

  /** No run of a representation can serve two rows of a chain. */
  lemma {:induction false} ChainOwner<T(!new)>(src: seq<T>, nulls: NullMap, rows: seq<nat>,
                                              values: seq<T>, counts: seq<int>, r: nat)
    returns (o: nat)
    requires Covers(nulls, |src|) && Chain(src, nulls, rows) && r < |rows|
    requires Represents(values, counts, src, nulls)
    ensures r <= o < |values| && values[o] == src[rows[r]] && Owns(counts, o, rows[r])
  {
    o := ServingRun(src, nulls, values, counts, rows[r]);
    if r > 0 {
      var p := ChainOwner(src, nulls, rows, values, counts, r - 1);
      assert rows[r - 1] <= rows[r];
      OwnersInOrder(counts, p, o, rows[r - 1], rows[r]);
    }
  }

  /** The rows that open the encoder's runs, the first one replaced by the given live row. */
  lemma HeadsFormChain<T(!new)>(src: seq<T>, nulls: NullMap, values: seq<T>, counts: seq<int>, first: nat)
    returns (rows: seq<nat>)
    requires 1 <= |src| && Covers(nulls, |src|) && Encoded(values, counts, src, nulls)
    requires first < |src| && Live(nulls, first) && src[first] == values[0]
    requires 1 < |counts| ==> first < Start(counts, 1)
    ensures |rows| == |values| && Chain(src, nulls, rows)
  {
    forall r: nat | r < |counts| ensures 0 <= Start(counts, r) {
      StartMonotone(counts, 0, r);
    }
    rows := seq(|values|, r requires 0 <= r < |values| => if r == 0 then first else Start(counts, r));
    forall r | 0 <= r < |rows|
      ensures rows[r] < |src| && Live(nulls, rows[r]) && src[rows[r]] == values[r]
      ensures r > 0 ==> rows[r - 1] <= rows[r]
    {
      assert Head(src, nulls, values[r], Start(counts, r), |src|, r > 0);
      if r > 0 {
        StartMonotone(counts, 1, r);
        StartMonotone(counts, r - 1, r);
      }
    }
  }

  /** A live row before the second run carries the first run's value. */
  lemma FirstRunValue<T(!new)>(src: seq<T>, nulls: NullMap, values: seq<T>, counts: seq<int>, row: nat)
    requires 1 <= |src| && Covers(nulls, |src|) && Encoded(values, counts, src, nulls)
    requires row < |src| && Live(nulls, row) && (1 < |counts| ==> row < Start(counts, 1))
    ensures src[row] == values[0] == src[0]
  {
    ExpandLength(values, counts, |counts|);
    assert Start(counts, 0) == 0 && Owns(counts, 0, row);
    ExpandAt(values, counts, |counts|, 0, row);
    assert Head(src, nulls, values[0], Start(counts, 0), |src|, false);
  }

  /** The run list without its first run, whose rows go to the second one. */
  function MergedCounts(counts: seq<int>): seq<int>
    requires 2 <= |counts|
  {
    [counts[0] + counts[1]] + counts[2..]
  }

  /** Rows outside run 0 keep their decoded value when run 0 is merged into run 1. */
  lemma MergedValue<T>(values: seq<T>, counts: seq<int>, r: nat, row: nat)
    requires 2 <= |values| == |counts| && NonNegative(counts) && NonNegative(MergedCounts(counts))
    requires 1 <= r && Owns(counts, r, row)
    ensures row < |Expand(values, counts)| && Expand(values, counts)[row] == values[r]
    ensures row < |Expand(values[1..], MergedCounts(counts))|
    ensures Expand(values[1..], MergedCounts(counts))[row] == values[r]
  {
    ExpandAt(values, counts, |counts|, r, row);
    ShiftedStarts(counts, r);
    assert Owns(MergedCounts(counts), r - 1, row);
    ExpandAt(values[1..], MergedCounts(counts), |counts| - 1, r - 1, row);
  }

  /** The first run may be dropped when it covers null rows only. */
  lemma DropFirstRun<T(!new)>(src: seq<T>, nulls: NullMap, values: seq<T>, counts: seq<int>)
    requires 1 <= |src| && Covers(nulls, |src|) && Represents(values, counts, src, nulls) && 2 <= |values|
    requires forall i :: 0 <= i < Start(counts, 1) && i < |src| ==> !Live(nulls, i)
    ensures Represents(values[1..], MergedCounts(counts), src, nulls)
  {
    var vs, cs := values[1..], MergedCounts(counts);
    assert |Expand(vs, cs)| == |src| by {
      ShiftedStarts(counts, |counts| - 1);
      ExpandLength(vs, cs, |cs|);
      ExpandLength(values, counts, |counts|);
    }
    forall i | 0 <= i < |src| && Live(nulls, i) ensures Expand(vs, cs)[i] == src[i] {
      var r := ServingRun(src, nulls, values, counts, i);
      assert Start(counts, 0) == 0;
      MergedValue(values, counts, r, i);
    }
  }

  lemma {:induction false} ShiftedStarts(counts: seq<int>, r: nat)
    requires 2 <= |counts| && 1 <= r < |counts| && NonNegative(counts)
    ensures Start(MergedCounts(counts), r) == Start(counts, r + 1)
    ensures if r == 1 then 0 <= Start(counts, 1) else Start(MergedCounts(counts), r - 1) == Start(counts, r)
  {
    var cs := MergedCounts(counts);
    if r == 1 {
      assert Start(cs, 1) == Start(cs, 0) + cs[0];
      assert Start(counts, 1) == Start(counts, 0) + counts[0] && Start(counts, 2) == Start(counts, 1) + counts[1];
    } else {
      ShiftedStarts(counts, r - 1);
      assert cs[r - 1] == counts[r];
    }
  }

  /**
    * The encoder's run list is as short as any list that reproduces the live rows, exactly when the first live row
    * already equals the (possibly null) row 0 that opens the first run.
    */
  lemma EncoderMinimal<T(!new)>(src: seq<T>, nulls: NullMap, values: seq<T>, counts: seq<int>)
    requires 1 <= |src| && Covers(nulls, |src|) && Encoded(values, counts, src, nulls)
    ensures Minimal(|values|, src, nulls) <==> OpensLive(src, nulls)
  {
    hide Minimal, Encoded;
    if NoLiveRow(nulls, |src|) {
      OneRunOnly(src, nulls, values, counts);
    } else {
      var f := FirstLive(nulls, |src|);
      if src[f] == src[0] {
        MinimalFromLiveHead(src, nulls, values, counts, f);
      } else {
        NotMinimal(src, nulls, values, counts, f);
      }
    }
  }

  lemma MinimalFromLiveHead<T(!new)>(src: seq<T>, nulls: NullMap, values: seq<T>, counts: seq<int>, f: nat)
    requires 1 <= |src| && Covers(nulls, |src|) && Encoded(values, counts, src, nulls)
    requires IsFirstLive(nulls, |src|, f) && src[f] == src[0]
    ensures Minimal(|values|, src, nulls)
  {
    hide Start, Expand;
    StartOfFirst(counts);
    assert Head(src, nulls, values[0], Start(counts, 0), |src|, false) && Start(counts, 0) == 0;
    if 1 < |counts| {
      assert Head(src, nulls, values[1], Start(counts, 1), |src|, true);
      assert values[0] != values[1];
    }
    var rows := HeadsFormChain(src, nulls, values, counts, f);
    forall others: seq<T>, spans | Represents(others, spans, src, nulls) ensures |values| <= |others| {
      var o := ChainOwner(src, nulls, rows, others, spans, |values| - 1);
    }
  }

  lemma StartOfFirst(counts: seq<int>)
    ensures Start(counts, 0) == 0
  {
  }

  lemma SecondHeadLive<T(!new)>(src: seq<T>, nulls: NullMap, values: seq<T>, counts: seq<int>)
    requires 1 <= |src| && Covers(nulls, |src|) && Encoded(values, counts, src, nulls) && 2 <= |values|
    ensures !NoLiveRow(nulls, |src|)
  {
    assert Head(src, nulls, values[1], Start(counts, 1), |src|, true);
  }

  lemma OneRunOnly<T(!new)>(src: seq<T>, nulls: NullMap, values: seq<T>, counts: seq<int>)
    requires 1 <= |src| && Covers(nulls, |src|) && Encoded(values, counts, src, nulls)
    requires NoLiveRow(nulls, |src|)
    ensures Minimal(|values|, src, nulls)
  {
    assert |values| == 1 by {
      if 2 <= |values| {
        SecondHeadLive(src, nulls, values, counts);
        assert false;
      }
    }
    forall others: seq<T>, spans | Represents(others, spans, src, nulls) ensures 1 <= |others| {
      ExpandLength(others, spans, |spans|);
    }
  }

  lemma NotMinimal<T(!new)>(src: seq<T>, nulls: NullMap, values: seq<T>, counts: seq<int>, f: nat)
    requires 1 <= |src| && Covers(nulls, |src|) && Encoded(values, counts, src, nulls)
    requires IsFirstLive(nulls, |src|, f) && src[f] != src[0]
    ensures !Minimal(|values|, src, nulls)
  {
    if |counts| == 1 || f < Start(counts, 1) {
      FirstRunValue(src, nulls, values, counts, f);
      assert false;
    } else {
      DropFirstRun(src, nulls, values, counts);
      assert |values[1..]| < |values|;
    }
  }

  /** A null row 0 that differs from the live row behind it costs a run. */
  lemma NotMinimalExample()
    ensures var src, nulls := [1, 2], Some([false, true]);
      RunsTo(src, nulls, 2) == Runs([1, 2], [1, 1]) && !OpensLive(src, nulls) && !Minimal(2, src, nulls)
  {
    var src, nulls := [1, 2], Some([false, true]);
    assert RunsTo(src, nulls, 1) == Runs([1], [1]);
    RunsEncode(src, nulls);
    assert IsFirstLive(nulls, 2, 1);
    NotMinimal(src, nulls, [1, 2], [1, 1], 1);
    EncoderMinimal(src, nulls, [1, 2], [1, 1]);
  }

  // ---------------------------------------------------------------- uniqueness

  /** Two equally long run lists of one column; the first one has no equal neighbours and no empty run. */
  ghost predicate SameColumn<T(!new)>(values: seq<T>, counts: seq<int>, others: seq<T>, spans: seq<int>) {
    && |values| == |counts| == |others| == |spans| && Positive(counts) && NonNegative(spans)
    && NeighboursDiffer(values) && Expand(values, counts) == Expand(others, spans)
  }

  /** A row below the total has an owner in either list, and both owners carry the same value. */
  lemma RowOwner<T(!new)>(values: seq<T>, counts: seq<int>, others: seq<T>, spans: seq<int>, r: nat, row: nat)
    returns (o: nat)
    requires SameColumn(values, counts, others, spans) && r < |counts| && Owns(counts, r, row)
    ensures o < |spans| && Owns(spans, o, row) && others[o] == values[r]
  {
    ExpandLength(values, counts, |counts|);
    ExpandLength(others, spans, |spans|);
    StartMonotone(counts, r + 1, |counts|);
    o := OwnerOf(spans, |spans|, row);
    ExpandAt(values, counts, |counts|, r, row);
    ExpandAt(others, spans, |spans|, o, row);
  }

  lemma HeadOwned(counts: seq<int>, r: nat)
    requires Positive(counts) && r < |counts|
    ensures 0 <= Start(counts, r) && Owns(counts, r, Start(counts, r)) && Owns(counts, r, Start(counts, r + 1) - 1)
  {
    StartMonotone(counts, 0, r);
  }

  /** A later row has no earlier owner. */
  lemma LaterOwner(spans: seq<int>, o: nat, p: nat, row: nat, later: nat)
    requires NonNegative(spans) && o < |spans| && p < |spans|
    requires Owns(spans, o, row) && Owns(spans, p, later) && row <= later
    ensures o <= p
  {
    if p < o {
      StartMonotone(spans, p + 1, o);
    }
  }

  /** The head of run `r` is owned by number `r` or a later one, since every head needs an owner of its own. */
  lemma {:induction false} HeadNotBefore<T(!new)>(values: seq<T>, counts: seq<int>, others: seq<T>, spans: seq<int>,
                                                  r: nat, o: nat)
    requires SameColumn(values, counts, others, spans) && r < |counts| && o < |spans|
    requires Owns(spans, o, Start(counts, r)) && others[o] == values[r]
    ensures r <= o
  {
    if r > 0 {
      HeadOwned(counts, r - 1);
      HeadOwned(counts, r);
      var p := RowOwner(values, counts, others, spans, r - 1, Start(counts, r - 1));
      HeadNotBefore(values, counts, others, spans, r - 1, p);
      LaterOwner(spans, p, o, Start(counts, r - 1), Start(counts, r));
    }
  }

  /** And by number `r` or an earlier one, since the heads behind it need owners, too. */
  lemma {:induction false} HeadNotBehind<T(!new)>(values: seq<T>, counts: seq<int>, others: seq<T>, spans: seq<int>,
                                                  r: nat, o: nat)
    requires SameColumn(values, counts, others, spans) && r < |counts| && o < |spans|
    requires Owns(spans, o, Start(counts, r)) && others[o] == values[r]
    ensures o <= r
    decreases |counts| - r
  {
    if r + 1 < |counts| {
      HeadOwned(counts, r);
      HeadOwned(counts, r + 1);
      var p := RowOwner(values, counts, others, spans, r + 1, Start(counts, r + 1));
      HeadNotBehind(values, counts, others, spans, r + 1, p);
      LaterOwner(spans, o, p, Start(counts, r), Start(counts, r + 1));
    }
  }

  /** So both lists start run `r` at the same row with the same value. */
  lemma SameHead<T(!new)>(values: seq<T>, counts: seq<int>, others: seq<T>, spans: seq<int>, r: nat)
    requires SameColumn(values, counts, others, spans) && r < |counts|
    ensures others[r] == values[r] && Start(spans, r) == Start(counts, r)
  {
    HeadOwned(counts, r);
    var o := RowOwner(values, counts, others, spans, r, Start(counts, r));
    HeadNotBefore(values, counts, others, spans, r, o);
    HeadNotBehind(values, counts, others, spans, r, o);
    if r > 0 {
      HeadOwned(counts, r - 1);
      var last := Start(counts, r) - 1;
      var p := RowOwner(values, counts, others, spans, r - 1, last);
      LaterOwner(spans, p, r, last, Start(counts, r));
      assert p != r;
      StartMonotone(spans, p + 1, r);
    }
  }

  /** A run list without equal neighbours is the only one of its length. */
  lemma RunListUnique<T(!new)>(values: seq<T>, counts: seq<int>, others: seq<T>, spans: seq<int>)
    requires SameColumn(values, counts, others, spans)
    ensures others == values && spans == counts
  {
    ExpandLength(values, counts, |counts|);
    ExpandLength(others, spans, |spans|);
    forall r | 0 <= r < |counts| ensures others[r] == values[r] && spans[r] == counts[r] {
      SameHead(values, counts, others, spans, r);
      if r + 1 < |counts| {
        SameHead(values, counts, others, spans, r + 1);
      }
      assert Start(spans, r + 1) == Start(spans, r) + spans[r];
      assert Start(counts, r + 1) == Start(counts, r) + counts[r];
    }
  }
}
