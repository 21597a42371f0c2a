/** The split planner's block and stride sampler. */
module PlanSampler {
  import opened Words

  /** Which rows are looked at: the first `width` rows behind each of the first `blocks` multiples of `stride`. */
  datatype Plan = Plan(blocks: nat, stride: nat, width: nat)
  {
    predicate Samples(row: nat)
      requires 1 <= stride
    {
      row / stride < blocks && row % stride < width
    }

    /** A window does not reach into the next block. */
    function Window(): nat { Min(width, stride) }

    /** The `k`-th sampled row: `Window()` rows of block 0, then of block 1, and so on. */
    ghost function RowAt(k: nat): int
      requires 1 <= Window()
    {
      k / Window() * stride + k % Window()
    }
  }

  function Target(maxSamples: nat, count: nat): (target: nat)
    ensures target <= count && (maxSamples > 0 ==> target <= maxSamples)
    ensures target == count || (target == maxSamples && maxSamples > 0)
  {
    Min(if maxSamples > 0 then maxSamples else count, count)
  }

  /** Contiguous blocks, spread evenly. */
  function BlockPlan(count: nat, target: nat, blockSize: nat): (plan: Plan)
    requires 1 <= blockSize
    ensures 1 <= plan.stride
  {
    var blocks := Max(1, target / blockSize);
    Plan(blocks, Max(1, count / blocks), blockSize)
  }

  /** Single rows at a uniform stride. */
  function StridePlan(count: nat, target: nat): (plan: Plan)
    requires 1 <= target
    ensures 1 <= plan.stride
  {
    Plan(count, Max(1, count / target), 1)
  }

  /** A row the plan samples and, unless nulls are wanted too, a live one. */
  predicate Wanted(row: nat, nulls: NullMap, nullsToo: bool, plan: Plan, count: nat)
    requires row < count && Covers(nulls, count) && 1 <= plan.stride
  {
    plan.Samples(row) && (nullsToo || Live(nulls, row))
  }

  /** `picked` lists the wanted rows below `upto`, in ascending order. */
  ghost predicate Picked(picked: seq<nat>, nulls: NullMap, nullsToo: bool, plan: Plan, count: nat, upto: nat)
    requires Covers(nulls, count) && 1 <= plan.stride
  {
    && StrictlyAscending(picked)
    && (forall k :: 0 <= k < |picked| ==> picked[k] < upto && picked[k] < count)
    && forall row: nat :: row < count ==> (row in picked <==> row < upto && Wanted(row, nulls, nullsToo, plan, count))
  }

  /** The sample: the first wanted rows, all of them unless the target is reached. */
  ghost predicate SampleOf(picked: seq<nat>, nulls: NullMap, nullsToo: bool, plan: Plan, count: nat, target: nat,
                           upto: nat)
    requires Covers(nulls, count) && 1 <= plan.stride
  {
    && Picked(picked, nulls, nullsToo, plan, count, upto) && |picked| <= target
    && (|picked| < target ==> upto == count)
  }

  lemma SkipRows(picked: seq<nat>, nulls: NullMap, nullsToo: bool, plan: Plan, count: nat, from: nat, to: nat)
    requires Covers(nulls, count) && 1 <= plan.stride && from <= to
    requires Picked(picked, nulls, nullsToo, plan, count, from)
    requires forall row: nat :: from <= row < to && row < count ==> !Wanted(row, nulls, nullsToo, plan, count)
    ensures Picked(picked, nulls, nullsToo, plan, count, to)
  {
  }

  lemma TakeRow(picked: seq<nat>, nulls: NullMap, nullsToo: bool, plan: Plan, count: nat, row: nat)
    requires Covers(nulls, count) && 1 <= plan.stride && row < count
    requires Picked(picked, nulls, nullsToo, plan, count, row)
    ensures Picked(if Wanted(row, nulls, nullsToo, plan, count) then picked + [row] else picked,
                   nulls, nullsToo, plan, count, row + 1)
  {
  }

  // ---------------------------------------------------------------- windows

  lemma {:induction false} Between(a: nat, b: nat, stride: nat)
    ensures 0 <= a * stride && 0 <= b * stride
    ensures a < b ==> a * stride + stride <= b * stride
    ensures (a + 1) * stride == a * stride + stride
    decreases b
  {
    if b > 0 {
      Between(a, b - 1, stride);
      assert b * stride == (b - 1) * stride + stride;
    }
  }

  /** Rows of block `b`. */
  lemma BlockRows(plan: Plan, b: nat, row: nat)
    requires 1 <= plan.stride && 0 <= b * plan.stride <= row < b * plan.stride + plan.stride
    ensures plan.Samples(row) <==> b < plan.blocks && row - b * plan.stride < plan.width
  {
    DivMod(row - b * plan.stride, plan.stride, b);
    assert plan.stride * b == b * plan.stride;
  }

  /** Blocks do not reach into each other, but for a single one that spans the column. */
  lemma BlocksApart(count: nat, target: nat, blockSize: nat)
    requires 1 <= blockSize && target <= count && 1 <= count
    ensures var plan := BlockPlan(count, target, blockSize);
      blockSize <= plan.stride || (plan.blocks == 1 && plan.stride == count)
  {
    var blocks := target / blockSize;
    if blocks >= 2 {
      assert blocks * blockSize <= target;
      DivisionBound(blocks, blockSize, count);
    }
  }

  lemma DivisionBound(blocks: nat, size: nat, count: nat)
    requires 1 <= blocks && blocks * size <= count
    ensures size <= count / blocks
  {
    var q := count / blocks;
    assert count == q * blocks + count % blocks;
    assert blocks * size == size * blocks;
    Between(q, size, blocks);
  }

  /** As many blocks as the target allows, at least one; their starts are spread over the whole column. */
  lemma BlocksSpread(count: nat, target: nat, blockSize: nat)
    requires 1 <= blockSize && target <= count && 1 <= count
    ensures var plan := BlockPlan(count, target, blockSize);
      && plan.width == blockSize && 1 <= plan.blocks <= count
      && (plan.blocks == 1 || plan.blocks * blockSize <= target) && target < (plan.blocks + 1) * blockSize
      && plan.blocks * plan.stride <= count < plan.blocks * (plan.stride + 1)
  {
    BlockCount(target, blockSize);
    StrideLength(count, Max(1, target / blockSize));
  }

  lemma BlockCount(target: nat, blockSize: nat)
    requires 1 <= blockSize
    ensures var blocks := Max(1, target / blockSize);
      (blocks == 1 || blocks <= blocks * blockSize <= target) && target < (blocks + 1) * blockSize
  {
    var q := target / blockSize;
    QuotientBounds(target, blockSize);
    AtLeast(q, blockSize);
    assert (1 + 1) * blockSize == 2 * blockSize;
  }

  lemma StrideLength(count: nat, parts: nat)
    requires 1 <= parts <= count
    ensures var stride := Max(1, count / parts);
      parts * stride <= count < parts * (stride + 1)
  {
    QuotientBounds(count, parts);
    assert parts * 1 == parts;
  }

  /** Single rows over the whole column. */
  lemma StridesSpread(count: nat, target: nat)
    requires 1 <= target <= count
    ensures var plan := StridePlan(count, target);
      plan.width == 1 && plan.blocks == count && target * plan.stride <= count < target * (plan.stride + 1)
  {
    StrideLength(count, target);
  }

  lemma QuotientBounds(n: nat, d: nat)
    requires 1 <= d
    ensures 0 <= n / d && n / d * d == d * (n / d) <= n < d * (n / d + 1) == (n / d + 1) * d
  {
    var q := n / d;
    assert n == q * d + n % d;
    Between(q, q + 1, d);
    assert q * d == d * q;
    assert (q + 1) * d == d * (q + 1);
  }

  // ---------------------------------------------------------------- where the rows lie

  lemma RowAtGrows(plan: Plan, i: nat, j: nat)
    requires 1 <= plan.Window() && i < j
    ensures 0 <= plan.RowAt(i) < plan.RowAt(j)
  {
    var w := plan.Window();
    QuotientBounds(i, w);
    QuotientBounds(j, w);
    var a, b := i / w, j / w;
    assert i == a * w + i % w && j == b * w + j % w;
    Between(a, b, plan.stride);
    Between(b + 1, a, w);
    Between(b, a, w);
  }

  /** Row `k` of the list is sampled when its block exists. */
  lemma RowAtSampled(plan: Plan, k: nat)
    requires 1 <= plan.Window() && k / plan.Window() < plan.blocks
    ensures 0 <= plan.RowAt(k) && plan.Samples(plan.RowAt(k))
  {
    var b := k / plan.Window();
    Between(b, b, plan.stride);
    BlockRows(plan, b, plan.RowAt(k));
  }

  /** Every sampled row is on the list. */
  lemma SampledIsRowAt(plan: Plan, row: nat) returns (k: nat)
    requires 1 <= plan.Window() && plan.Samples(row)
    ensures row == plan.RowAt(k) && k / plan.Window() < plan.blocks
  {
    var b, d, w := row / plan.stride, row % plan.stride, plan.Window();
    assert row == b * plan.stride + d;
    Between(b, b, w);
    k := b * w + d;
    DivMod(d, w, b);
    assert w * b == b * w;
  }

  ghost predicate AtPlannedRows(picked: seq<nat>, plan: Plan, n: nat)
    requires 1 <= plan.Window()
  {
    forall k: nat :: k < n && k < |picked| ==> picked[k] == plan.RowAt(k) && k / plan.Window() < plan.blocks
  }

  /** Where every sampled row is wanted, the sampled rows are the first ones on the list. */
  lemma {:induction false} PickedInOrder(picked: seq<nat>, nulls: NullMap, nullsToo: bool, plan: Plan, count: nat,
                                         upto: nat, n: nat)
    requires Covers(nulls, count) && 1 <= plan.stride && 1 <= plan.width
    requires Picked(picked, nulls, nullsToo, plan, count, upto)
    requires forall row: nat :: row < count ==> (Wanted(row, nulls, nullsToo, plan, count) <==> plan.Samples(row))
    requires n <= |picked|
    ensures AtPlannedRows(picked, plan, n)
  {
    if n > 0 {
      var k := n - 1;
      PickedInOrder(picked, nulls, nullsToo, plan, count, upto, k);
      assert picked[k] in picked;
      var i := SampledIsRowAt(plan, picked[k]);
      if i < k {
        assert false;
      } else if k < i {
        QuotientGrows(k, i, plan.Window());
        RowAtSampled(plan, k);
        RowAtGrows(plan, k, i);
        NoneBetween(picked, plan, k);
      }
    }
  }

  lemma QuotientGrows(i: nat, j: nat, d: nat)
    requires 1 <= d && i <= j
    ensures i / d <= j / d
  {
    QuotientBounds(i, d);
    QuotientBounds(j, d);
    Between(j / d + 1, i / d, d);
  }

  /** The row that follows the first `k` planned ones is at place `k` if it is picked at all. */
  lemma NoneBetween(picked: seq<nat>, plan: Plan, k: nat)
    requires 1 <= plan.Window() && StrictlyAscending(picked) && AtPlannedRows(picked, plan, k) && k <= |picked|
    requires k < |picked| ==> 0 <= plan.RowAt(k) < picked[k]
    ensures forall row: nat :: row == plan.RowAt(k) ==> row !in picked
  {
    forall j | 0 <= j < |picked| ensures picked[j] != plan.RowAt(k) {
      if j < k {
        RowAtGrows(plan, j, k);
      } else if k < j {
        assert picked[k] < picked[j];
      }
    }
  }

  /** Exactly as many rows as the target asks for and the plan offers, each at its place. */
  ghost predicate AsPlanned(picked: seq<nat>, plan: Plan, target: nat)
    requires 1 <= plan.Window()
  {
    && |picked| == Min(target, plan.blocks * plan.Window())
    && forall k: nat :: k < |picked| ==> picked[k] == plan.RowAt(k)
  }

  lemma SampledAsPlanned(picked: seq<nat>, nulls: NullMap, nullsToo: bool, plan: Plan, count: nat, target: nat,
                         upto: nat)
    requires Covers(nulls, count) && 1 <= plan.stride && 1 <= plan.width
    requires SampleOf(picked, nulls, nullsToo, plan, count, target, upto)
    requires forall row: nat :: row < count ==> (Wanted(row, nulls, nullsToo, plan, count) <==> plan.Samples(row))
    requires forall k: nat :: k < target && k / plan.Window() < plan.blocks ==> plan.RowAt(k) < count
    ensures AsPlanned(picked, plan, target)
  {
    var n, w := |picked|, plan.Window();
    PickedInOrder(picked, nulls, nullsToo, plan, count, upto, n);
    if n > 0 {
      OnPlan(n - 1, w, plan.blocks);
    }
    OnPlan(n, w, plan.blocks);
    if n < target && n / w < plan.blocks {
      RowAtSampled(plan, n);
      NoneBetween(picked, plan, n);
    }
  }

  ghost predicate AllLive(nulls: NullMap, n: nat)
    requires Covers(nulls, n)
  {
    forall row: nat :: row < n ==> Live(nulls, row)
  }

  lemma BlocksAsPlanned(picked: seq<nat>, nulls: NullMap, count: nat, target: nat, blockSize: nat, upto: nat)
    requires Covers(nulls, count) && AllLive(nulls, count) && 1 <= target <= count && 1 <= blockSize
    requires SampleOf(picked, nulls, false, BlockPlan(count, target, blockSize), count, target, upto)
    ensures AsPlanned(picked, BlockPlan(count, target, blockSize), target)
  {
    var plan := BlockPlan(count, target, blockSize);
    BlocksSpread(count, target, blockSize);
    hide BlockPlan;
    forall k: nat | k / plan.Window() < plan.blocks ensures plan.RowAt(k) < count {
      RowAtInside(plan, k, count);
    }
    SampledAsPlanned(picked, nulls, false, plan, count, target, upto);
  }

  lemma RowAtInside(plan: Plan, k: nat, count: nat)
    requires 1 <= plan.Window() && k / plan.Window() < plan.blocks && plan.blocks * plan.stride <= count
    ensures plan.RowAt(k) < count
  {
    Between(k / plan.Window(), plan.blocks, plan.stride);
  }

  lemma StridesAsPlanned(picked: seq<nat>, nulls: NullMap, nullsToo: bool, count: nat, target: nat, upto: nat)
    requires Covers(nulls, count) && (nullsToo || AllLive(nulls, count)) && 1 <= target <= count
    requires SampleOf(picked, nulls, nullsToo, StridePlan(count, target), count, target, upto)
    ensures AsPlanned(picked, StridePlan(count, target), target)
  {
    var plan := StridePlan(count, target);
    StridesSpread(count, target);
    hide StridePlan;
    forall k: nat | k < target ensures plan.RowAt(k) < count {
      assert k / 1 == k && k % 1 == 0;
      Between(k, target, plan.stride);
    }
    SampledAsPlanned(picked, nulls, nullsToo, plan, count, target, upto);
  }

  lemma OnPlan(k: nat, w: nat, blocks: nat)
    requires 1 <= w
    ensures k / w < blocks <==> k < blocks * w
  {
    QuotientBounds(k, w);
    Between(k / w, blocks, w);
    Between(blocks, k / w, w);
    Between(k / w + 1, blocks, w);
  }

  // ---------------------------------------------------------------- sampler

  /** The raw bit pattern, zero-extended. */
  function Bits(v: int, wide: bool): (bits: int)
    ensures wide ==> 0 <= bits < TWO_64 && exists k :: v == bits + k * TWO_64
    ensures !wide ==> 0 <= bits < TWO_32 && exists k :: v == bits + k * TWO_32
  {
    if wide then
      assert v == U64(v) + v / TWO_64 * TWO_64;
      U64(v)
    else
      assert v == U32(v) + v / TWO_32 * TWO_32;
      U32(v)
  }

  ghost predicate Holds(out: seq<int>, values: seq<int>, wide: bool, picked: seq<nat>) {
    && |out| == |picked|
    && forall k :: 0 <= k < |picked| ==> picked[k] < |values| && out[k] == Bits(values[picked[k]], wide)
  }

  /** `sampleIntoU64`. */
  method SampleInto(values: seq<int>, wide: bool, nulls: NullMap, maxSamples: nat, blockSize: nat)
    returns (out: seq<int>, ghost picked: seq<nat>, ghost upto: nat)
    requires Covers(nulls, |values|)
    ensures |values| == 0 ==> out == []
    ensures Holds(out, values, wide, picked)
    ensures |values| > 0 ==>
      var n, target := |values|, Target(maxSamples, |values|);
      var plan := if blockSize > 0 then BlockPlan(n, target, blockSize) else StridePlan(n, target);
      && 1 <= |out| <= target
      && if exists row: nat :: row < n && Wanted(row, nulls, false, plan, n)
         then SampleOf(picked, nulls, false, plan, n, target, upto)
              && (AllLive(nulls, n) ==> AsPlanned(picked, plan, target))
         else SampleOf(picked, nulls, true, StridePlan(n, target), n, target, upto)
              && AsPlanned(picked, StridePlan(n, target), target)
  {
    hide AsPlanned, Picked;
    out, picked, upto := [], [], 0;
    if |values| == 0 {
      return;
    }
    var target := Target(maxSamples, |values|);
    ghost var plan;
    if blockSize > 0 {
      plan := BlockPlan(|values|, target, blockSize);
      out, picked, upto := SweepBlocks(values, wide, nulls, target, blockSize);
      if AllLive(nulls, |values|) {
        BlocksAsPlanned(picked, nulls, |values|, target, blockSize, upto);
      }
    } else {
      plan := StridePlan(|values|, target);
      out, picked, upto := SweepStride(values, wide, nulls, false, target);
      if AllLive(nulls, |values|) {
        StridesAsPlanned(picked, nulls, false, |values|, target, upto);
      }
    }
    FoundIffWanted(picked, nulls, plan, |values|, target, upto);
    if |out| == 0 {
      out, picked, upto := SweepStride(values, wide, nulls, true, target);
      FirstRowSampled(picked, nulls, |values|, target, upto);
      StridesAsPlanned(picked, nulls, true, |values|, target, upto);
    }
  }

  lemma FoundIffWanted(picked: seq<nat>, nulls: NullMap, plan: Plan, n: nat, target: nat, upto: nat)
    requires Covers(nulls, n) && 1 <= plan.stride && 1 <= target
    requires SampleOf(picked, nulls, false, plan, n, target, upto)
    ensures |picked| > 0 <==> exists row: nat :: row < n && Wanted(row, nulls, false, plan, n)
  {
    assert |picked| > 0 ==> picked[0] in picked;
    assert |picked| == 0 ==> forall row: nat :: row < n ==> row !in picked;
  }

  lemma FirstRowSampled(picked: seq<nat>, nulls: NullMap, n: nat, target: nat, upto: nat)
    requires Covers(nulls, n) && 1 <= target && 1 <= n
    requires SampleOf(picked, nulls, true, StridePlan(n, target), n, target, upto)
    ensures |picked| >= 1
  {
    assert Wanted(0, nulls, true, StridePlan(n, target), n);
    assert |picked| == 0 ==> 0 in picked;
  }

  method SweepBlocks(values: seq<int>, wide: bool, nulls: NullMap, target: nat, blockSize: nat)
    returns (out: seq<int>, ghost picked: seq<nat>, ghost upto: nat)
    requires Covers(nulls, |values|) && 1 <= target <= |values| && 1 <= blockSize
    ensures Holds(out, values, wide, picked)
    ensures SampleOf(picked, nulls, false, BlockPlan(|values|, target, blockSize), |values|, target, upto)
  {
    var n, plan := |values|, BlockPlan(|values|, target, blockSize);
    BlocksApart(n, target, blockSize);
    hide Picked, Holds, BlockPlan;
    NothingPicked(values, wide, nulls, plan);
    out, picked, upto := [], [], 0;
    var b := 0;
    while b < plan.blocks && |out| < target
      invariant 0 <= b <= plan.blocks && 0 <= b * plan.stride && |out| == |picked| <= target
      invariant Holds(out, values, wide, picked) && Picked(picked, nulls, false, plan, n, upto)
      invariant |out| < target ==> upto == b * plan.stride
    {
      var start := b * plan.stride;
      out, picked, upto := SweepWindow(values, wide, nulls, target, plan, b, start, out, picked);
      Between(b, b + 1, plan.stride);
      b := b + 1;
    }
    if |out| < target {
      PlanEnds(picked, nulls, plan, n);
      upto := n;
    }
  }

  lemma NothingPicked(values: seq<int>, wide: bool, nulls: NullMap, plan: Plan)
    requires Covers(nulls, |values|) && 1 <= plan.stride
    ensures Holds([], values, wide, [])
    ensures forall nullsToo: bool :: Picked([], nulls, nullsToo, plan, |values|, 0)
  {
  }

  lemma WantedIfLive(i: nat, nulls: NullMap, nullsToo: bool, plan: Plan, n: nat)
    requires Covers(nulls, n) && i < n && 1 <= plan.stride && plan.Samples(i)
    ensures Wanted(i, nulls, nullsToo, plan, n) <==> nullsToo || Live(nulls, i)
  {
  }

  /** `append`: null rows are skipped unless they are wanted too. */
  method Append(values: seq<int>, wide: bool, nulls: NullMap, nullsToo: bool, ghost plan: Plan, i: nat,
                before: seq<int>, ghost pickedBefore: seq<nat>)
    returns (out: seq<int>, ghost picked: seq<nat>)
    requires Covers(nulls, |values|) && i < |values| && 1 <= plan.stride && plan.Samples(i)
    requires Holds(before, values, wide, pickedBefore) && Picked(pickedBefore, nulls, nullsToo, plan, |values|, i)
    ensures Holds(out, values, wide, picked) && Picked(picked, nulls, nullsToo, plan, |values|, i + 1)
    ensures |out| == |picked| <= |before| + 1
  {
    hide Picked, Wanted, Plan.Samples;
    TakeRow(pickedBefore, nulls, nullsToo, plan, |values|, i);
    WantedIfLive(i, nulls, nullsToo, plan, |values|);
    out, picked := before, pickedBefore;
    if nullsToo || nulls.None? || nulls.value[i] {
      out, picked := out + [Bits(values[i], wide)], picked + [i];
    }
  }

  /** One block: its window is swept until the target is reached. */
  method SweepWindow(values: seq<int>, wide: bool, nulls: NullMap, target: nat, plan: Plan, b: nat, start: nat,
                     before: seq<int>, ghost pickedBefore: seq<nat>)
    returns (out: seq<int>, ghost picked: seq<nat>, ghost upto: nat)
    requires Covers(nulls, |values|) && 1 <= plan.stride && start == b * plan.stride && b < plan.blocks
    requires plan.width <= plan.stride || |values| <= plan.stride
    requires |before| == |pickedBefore| < target && Holds(before, values, wide, pickedBefore)
    requires Picked(pickedBefore, nulls, false, plan, |values|, start)
    ensures |out| == |picked| <= target && Holds(out, values, wide, picked)
    ensures Picked(picked, nulls, false, plan, |values|, upto)
    ensures |out| < target ==> upto == start + plan.stride
  {
    var n := |values|;
    var end := Min(start + plan.width, n);
    out, picked := before, pickedBefore;
    hide Picked, Holds, Wanted;
    var i := start;
    while i < end && |out| < target
      invariant start <= i && (i <= end || i == start) && |out| == |picked| <= target
      invariant Holds(out, values, wide, picked) && Picked(picked, nulls, false, plan, n, i)
    {
      BlockRows(plan, b, i);
      out, picked := Append(values, wide, nulls, false, plan, i, out, picked);
      i := i + 1;
    }
    upto := i;
    if |out| < target {
      BlockEnds(picked, nulls, plan, n, b, start, i);
      upto := start + plan.stride;
    }
  }

  /** Behind a block's window nothing is wanted until the next block starts. */
  lemma BlockEnds(picked: seq<nat>, nulls: NullMap, plan: Plan, n: nat, b: nat, start: nat, i: nat)
    requires Covers(nulls, n) && 1 <= plan.stride && start == b * plan.stride && start <= i <= start + plan.stride
    requires i >= n || i - start >= plan.width
    requires Picked(picked, nulls, false, plan, n, i)
    ensures Picked(picked, nulls, false, plan, n, start + plan.stride)
  {
    forall row: nat | i <= row < start + plan.stride && row < n ensures !plan.Samples(row) {
      BlockRows(plan, b, row);
    }
    SkipRows(picked, nulls, false, plan, n, i, start + plan.stride);
  }

  lemma PlanEnds(picked: seq<nat>, nulls: NullMap, plan: Plan, n: nat)
    requires Covers(nulls, n) && 1 <= plan.stride && 0 <= plan.blocks * plan.stride
    requires Picked(picked, nulls, false, plan, n, plan.blocks * plan.stride)
    ensures Picked(picked, nulls, false, plan, n, n)
  {
    var end := plan.blocks * plan.stride;
    forall row: nat | end <= row < n ensures !plan.Samples(row) {
      var q := row / plan.stride;
      assert row == q * plan.stride + row % plan.stride;
      Between(q, plan.blocks, plan.stride);
    }
    if end <= n {
      SkipRows(picked, nulls, false, plan, n, end, n);
    }
  }

  /** Uniform stride; the fall-back takes null rows as well. */
  method SweepStride(values: seq<int>, wide: bool, nulls: NullMap, nullsToo: bool, target: nat)
    returns (out: seq<int>, ghost picked: seq<nat>, ghost upto: nat)
    requires Covers(nulls, |values|) && 1 <= target <= |values|
    ensures Holds(out, values, wide, picked)
    ensures SampleOf(picked, nulls, nullsToo, StridePlan(|values|, target), |values|, target, upto)
  {
    var n, plan := |values|, StridePlan(|values|, target);
    out, picked := [], [];
    NothingPicked(values, wide, nulls, plan);
    hide Picked, Holds, Wanted;
    var i := 0;
    ghost var b: nat := 0;
    while i < n && |out| < target
      invariant 0 <= i == b * plan.stride && |out| == |picked| <= target
      invariant Holds(out, values, wide, picked) && Picked(picked, nulls, nullsToo, plan, n, i)
      decreases n - i
    {
      StrideRows(plan, n, b, i);
      out, picked := Append(values, wide, nulls, nullsToo, plan, i, out, picked);
      StrideSkips(picked, nulls, nullsToo, plan, n, i);
      Between(b, b + 1, plan.stride);
      i, b := i + plan.stride, b + 1;
    }
    upto := i;
    if |out| < target {
      EndReached(picked, nulls, nullsToo, plan, n, i);
      upto := n;
    }
  }

  lemma EndReached(picked: seq<nat>, nulls: NullMap, nullsToo: bool, plan: Plan, n: nat, i: nat)
    requires Covers(nulls, n) && 1 <= plan.stride && n <= i && Picked(picked, nulls, nullsToo, plan, n, i)
    ensures Picked(picked, nulls, nullsToo, plan, n, n)
  {
  }

  lemma StrideSkips(picked: seq<nat>, nulls: NullMap, nullsToo: bool, plan: Plan, n: nat, i: nat)
    requires Covers(nulls, n) && 1 <= plan.stride && Picked(picked, nulls, nullsToo, plan, n, i + 1)
    requires forall row: nat :: i < row < i + plan.stride ==> !plan.Samples(row)
    ensures Picked(picked, nulls, nullsToo, plan, n, i + plan.stride)
  {
    SkipRows(picked, nulls, nullsToo, plan, n, i + 1, i + plan.stride);
  }

  lemma StrideRows(plan: Plan, n: nat, b: nat, i: nat)
    requires 1 <= plan.stride && plan.width == 1 && plan.blocks == n && i == b * plan.stride < n
    ensures plan.Samples(i) && forall row: nat :: i < row < i + plan.stride ==> !plan.Samples(row)
  {
    AtLeast(b, plan.stride);
    forall row: nat | i <= row < i + plan.stride ensures plan.Samples(row) <==> row == i {
      BlockRows(plan, b, row);
    }
  }

  lemma AtLeast(b: nat, stride: nat)
    requires 1 <= stride
    ensures b <= b * stride
  {
    assert b * stride == b + b * (stride - 1);
    assert 0 <= b * (stride - 1);
  }
}
