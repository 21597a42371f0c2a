/** Decoding and random access over cascades, with the decoders' scratch buffers. */
module CascadeReader {
  import opened Words
  import opened RunLength
  import opened Bitmap
  import opened Cascade
  import opened ScratchStacks
  import opened WideStore
  import Packing = BitPacking

  // ---------------------------------------------------------------- full decode

  /**
    * `scheme.decompress` at cascade level `level`. Whatever the tree below, only scratch buffers of this level or
    * deeper and `dest` change; `dest` needs the SIMD slack because run-length decoding overruns.
    */
  method Decompress(dest: array<int>, c: Column, n: nat, allNull: bool, level: nat, scratch: Scratch)
    requires scratch.Valid() && dest !in scratch.From(level, true)
    requires WellFormed(c, n) && n + SIMD_EXTRA_INTS <= dest.Length
    modifies scratch, scratch.From(level, true), dest
    ensures scratch.Evolved(level, true)
    ensures forall s :: s in old(scratch.buffers) && s.level < level && old(scratch.buffers)[s] != dest ==>
      scratch.buffers[s] == old(scratch.buffers)[s] && scratch.buffers[s][..] == old(scratch.buffers[s][..])
    ensures dest[..n] == Decode(c, n, allNull)
    decreases c, 2
  {
    if c.scheme != FOR {
      OnlyForReadsNulls(c, n, allNull);
    }
    match c.scheme
    case RLE => DecompressRle(dest, c, n, level, scratch);
    case DICT => DecompressDictionary(dest, c, n, level, scratch);
    case FREQUENCY => DecompressFrequency(dest, c, n, level, scratch);
    case FOR => DecompressFor(dest, c, n, allNull, level, scratch);
    case ONE_VALUE => Fill(dest, c.body.value, n);
    case UNCOMPRESSED => CopyInto(dest, c.body.values);
    case PFOR => CopyInto(dest, c.body.payload);
    case BP => CopyInto(dest, DecodePacked(c.body.words, c.body.tail, n));
  }

  lemma OnlyForReadsNulls(c: Column, n: nat, allNull: bool)
    requires WellFormed(c, n) && c.scheme != FOR
    ensures Decode(c, n, allNull) == Decode(c, n, false)
  {
  }

  method Fill(dest: array<int>, v: int, n: nat)
    requires n <= dest.Length
    modifies dest
    ensures dest[..n] == Constantly(v, n)
    ensures forall j :: n <= j < dest.Length ==> dest[j] == old(dest[j])
  {
    var i := 0;
    while i < n
      invariant 0 <= i <= n && forall j :: 0 <= j < i ==> dest[j] == v
      invariant forall j :: n <= j < dest.Length ==> dest[j] == old(dest[j])
    {
      dest[i] := v;
      i := i + 1;
    }
  }

  method CopyInto(dest: array<int>, values: seq<int>)
    requires |values| <= dest.Length
    modifies dest
    ensures dest[..|values|] == values
  {
    forall i | 0 <= i < |values| {
      dest[i] := values[i];
    }
  }

  lemma AboutRle(c: Column, n: nat)
    requires c.scheme == RLE && WellFormed(c, n)
    ensures var runs, vs, cs := c.body.runs, c.body.runValues, c.body.runCounts;
      && WellFormed(vs, runs) && WellFormed(cs, runs)
      && NonNegative(Decode(cs, runs, false)) && Total(Decode(cs, runs, false)) == n
      && Decode(c, n, false) == Expand(Decode(vs, runs, false), Decode(cs, runs, false))
  {
  }

  method DecompressRle(dest: array<int>, c: Column, n: nat, level: nat, scratch: Scratch)
    requires scratch.Valid() && dest !in scratch.From(level, true)
    requires c.scheme == RLE && WellFormed(c, n) && n + SIMD_EXTRA_INTS <= dest.Length
    modifies scratch, scratch.From(level, true), dest
    ensures scratch.Evolved(level, true)
    ensures dest[..n] == Decode(c, n, false)
    decreases c, 1
  {
    AboutRle(c, n);
    hide WellFormed, Decode;
    var values, counts := DecodeRunStreams(c, n, level, scratch);
    DecodeRunsWide(dest, values, counts, c.body.runs, LANES_32);
  }

  /** Both run streams, in scratch buffers of this level; the second decode leaves the first one alone. */
  method DecodeRunStreams(c: Column, ghost n: nat, level: nat, scratch: Scratch)
    returns (values: array<int>, counts: array<int>)
    requires scratch.Valid() && c.scheme == RLE && WellFormed(c, n)
    modifies scratch, scratch.From(level, true)
    ensures scratch.Evolved(level, true)
    ensures values in scratch.From(level, true) && counts in scratch.From(level, true) && values != counts
    ensures c.body.runs <= values.Length && c.body.runs <= counts.Length
    ensures WellFormed(c.body.runValues, c.body.runs) && WellFormed(c.body.runCounts, c.body.runs)
    ensures values[..c.body.runs] == Decode(c.body.runValues, c.body.runs, false)
    ensures counts[..c.body.runs] == Decode(c.body.runCounts, c.body.runs, false)
    decreases c, 0
  {
    AboutRle(c, n);
    hide WellFormed, Decode;
    values := DecodeChild(RleValues, c.body.runValues, c.body.runs, false, level, scratch);
    counts := DecodeChild(RleCounts, c.body.runCounts, c.body.runs, false, level, scratch);
  }

  /**
    * A nested stream is decoded one level deeper, into this level's buffer of the given stack. Every other buffer of
    * this level survives, even when the child is of the same scheme.
    */
  method DecodeChild(stack: Stack, child: Column, n: nat, allNull: bool, level: nat, scratch: Scratch)
    returns (buffer: array<int>)
    requires scratch.Valid() && WellFormed(child, n)
    modifies scratch, scratch.From(level + 1, true), scratch.At(Slot(stack, level))
    ensures scratch.Evolved(level, stack.Decoding())
    ensures Slot(stack, level) in scratch.buffers && scratch.buffers[Slot(stack, level)] == buffer
    ensures forall s :: s in old(scratch.buffers) && s.level <= level && s != Slot(stack, level) ==>
      s in scratch.buffers && scratch.buffers[s] == old(scratch.buffers)[s]
    ensures n <= buffer.Length && buffer[..n] == Decode(child, n, allNull)
    decreases child, 3
  {
    buffer := scratch.GetLevelData(stack, n + SIMD_EXTRA_INTS, level);
    Decompress(buffer, child, n, allNull, level + 1, scratch);
  }

  method DecompressDictionary(dest: array<int>, c: Column, n: nat, level: nat, scratch: Scratch)
    requires scratch.Valid() && dest !in scratch.From(level, true)
    requires c.scheme == DICT && WellFormed(c, n) && n + SIMD_EXTRA_INTS <= dest.Length
    modifies scratch, scratch.From(level, true), dest
    ensures scratch.Evolved(level, true)
    ensures dest[..n] == Decode(c, n, false)
    decreases c, 0
  {
    var codes := DecodeChild(DictCodes, c.body.codes, n, false, level, scratch);
    LookupBlocked(dest, c.body.dict, codes, n);
  }

  /** The dictionary loop: 32 rows at a time while a whole block is left, then one by one. */
  method LookupBlocked(dest: array<int>, dict: seq<int>, codes: array<int>, n: nat)
    requires n <= dest.Length && n <= codes.Length && dest != codes && CodesInRange(codes[..n], dict)
    modifies dest
    ensures dest[..n] == Lookup(dict, codes[..n])
    ensures forall j :: n <= j < dest.Length ==> dest[j] == old(dest[j])
  {
    ghost var cs := codes[..n];
    var i := 0;
    if 32 <= n {
      while i < n - 31
        invariant 0 <= i <= n && codes[..n] == cs
        invariant forall j :: 0 <= j < i ==> dest[j] == dict[cs[j]]
        invariant forall j :: n <= j < dest.Length ==> dest[j] == old(dest[j])
      {
        forall j | i <= j < i + 32 ensures 0 <= codes[j] < |dict| {
          assert codes[j] == cs[j];
        }
        forall j | i <= j < i + 32 {
          dest[j] := dict[codes[j]];
        }
        i := i + 32;
      }
    }
    while i < n
      invariant 0 <= i <= n && codes[..n] == cs
      invariant forall j :: 0 <= j < i ==> dest[j] == dict[cs[j]]
      invariant forall j :: n <= j < dest.Length ==> dest[j] == old(dest[j])
    {
      assert codes[i] == cs[i];
      dest[i] := dict[codes[i]];
      i := i + 1;
    }
  }

  method DecompressFrequency(dest: array<int>, c: Column, n: nat, level: nat, scratch: Scratch)
    requires scratch.Valid() && dest !in scratch.From(level, true)
    requires c.scheme == FREQUENCY && WellFormed(c, n) && n + SIMD_EXTRA_INTS <= dest.Length
    modifies scratch, scratch.From(level, true), dest
    ensures scratch.Evolved(level, true)
    ensures dest[..n] == Decode(c, n, false)
    decreases c, 0
  {
    var rows := c.body.rows;
    var exceptions;
    if |rows| > 0 {
      exceptions := DecodeChild(FrequencyExceptions, c.body.exceptions, |rows|, false, level, scratch);
    } else {
      exceptions := scratch.GetLevelData(FrequencyExceptions, SIMD_EXTRA_INTS, level);
    }
    PatchExceptions(dest, c.body.top, rows, exceptions, n);
  }

  /** Top value everywhere, then one exception per bitmap member through a moving pointer. */
  method PatchExceptions(dest: array<int>, top: int, rows: set<nat>, exceptions: array<int>, n: nat)
    requires n <= dest.Length && |rows| <= exceptions.Length && dest != exceptions && Within(rows, n)
    modifies dest
    ensures dest[..n] == Overlay(top, rows, exceptions[..|rows|], n)
  {
    ghost var ex := exceptions[..|rows|];
    var i := 0;
    while i < n
      invariant 0 <= i <= n && forall j :: 0 <= j < i ==> dest[j] == top
      invariant exceptions[..|rows|] == ex
    {
      dest[i] := top;
      i := i + 1;
    }
    var order := Ascending(rows, n);
    AscendingTotal(rows, n);
    forall j | 0 <= j < n && j in rows ensures 1 <= Rank(rows, j) <= |order| {
      RankIsPosition(rows, n, j);
    }
    var p := 0;
    while p < |order|
      invariant 0 <= p <= |order| && exceptions[..|rows|] == ex
      invariant forall j {:trigger dest[j]} :: 0 <= j < n ==>
        dest[j] == if j in rows && Rank(rows, j) <= p then ex[Rank(rows, j) - 1] else top
    {
      PositionIsRank(rows, n, p);
      forall j | 0 <= j < n && j in rows ensures Rank(rows, j) == p + 1 ==> j == order[p] {
        RankIsPosition(rows, n, j);
      }
      dest[order[p]] := exceptions[p];
      p := p + 1;
    }
  }

  method DecompressFor(dest: array<int>, c: Column, n: nat, allNull: bool, level: nat, scratch: Scratch)
    requires scratch.Valid() && dest !in scratch.From(level, true)
    requires c.scheme == FOR && WellFormed(c, n) && n + SIMD_EXTRA_INTS <= dest.Length
    modifies scratch, scratch.From(level, true), dest
    ensures scratch.Evolved(level, true)
    ensures dest[..n] == Decode(c, n, allNull)
    decreases c, 0
  {
    Decompress(dest, c.body.rest, n, allNull, level + 1, scratch);
    if allNull {
      return;
    }
    AddBiasInPlace(dest, c.body.bias, n);
  }

  method AddBiasInPlace(dest: array<int>, bias: int, n: nat)
    requires n <= dest.Length
    modifies dest
    ensures dest[..n] == AddBias(old(dest[..n]), bias)
    ensures forall j :: n <= j < dest.Length ==> dest[j] == old(dest[j])
  {
    var i := 0;
    while i < n
      invariant 0 <= i <= n
      invariant forall j :: 0 <= j < i ==> dest[j] == S32(old(dest[j]) + bias)
      invariant forall j :: i <= j < dest.Length ==> dest[j] == old(dest[j])
    {
      dest[i] := S32(dest[i] + bias);
      i := i + 1;
    }
  }

  // ---------------------------------------------------------------- random access

  /**
    * `scheme.gather`: for any cascade and any positions (unsorted, repeated), exactly what decoding and then indexing
    * would give, with `dest` sized for the positions alone and no element beyond them touched.
    */
  method Gather(dest: array<int>, c: Column, n: nat, allNull: bool, positions: seq<nat>, level: nat, scratch: Scratch)
    requires scratch.Valid() && dest !in scratch.From(level, false)
    requires WellFormed(c, n) && InRange(positions, n) && |positions| <= dest.Length
    modifies scratch, scratch.From(level, false), dest
    ensures scratch.Evolved(level, false)
    ensures forall s :: s in old(scratch.buffers) && s.level < level && old(scratch.buffers)[s] != dest ==>
      scratch.buffers[s] == old(scratch.buffers)[s] && scratch.buffers[s][..] == old(scratch.buffers[s][..])
    ensures dest[..|positions|] == Pick(Decode(c, n, allNull), positions)
    ensures forall i :: |positions| <= i < dest.Length ==> dest[i] == old(dest[i])
    decreases c, 4
  {
    if n == 0 || |positions| == 0 {
      return;
    }
    if c.scheme != FOR {
      OnlyForReadsNulls(c, n, allNull);
    }
    match c.scheme
    case RLE => GatherRle(dest, c, n, positions, level, scratch);
    case DICT => GatherDictionary(dest, c, n, positions, level, scratch);
    case FREQUENCY => GatherFrequency(dest, c, n, positions, level, scratch);
    case FOR => GatherFor(dest, c, n, allNull, positions, level, scratch);
    case BP => GatherPacked(dest, c, n, positions, level, scratch);
    case PFOR => GatherByDecoding(dest, c, n, allNull, positions, level, scratch);
    case ONE_VALUE => Fill(dest, c.body.value, |positions|);
    case UNCOMPRESSED => PickInto(dest, c.body.values, positions);
  }

  method PickInto(dest: array<int>, values: seq<int>, positions: seq<nat>)
    requires InRange(positions, |values|) && |positions| <= dest.Length
    modifies dest
    ensures dest[..|positions|] == Pick(values, positions)
    ensures forall i :: |positions| <= i < dest.Length ==> dest[i] == old(dest[i])
  {
    var i := 0;
    while i < |positions|
      invariant 0 <= i <= |positions| && forall j :: 0 <= j < i ==> dest[j] == values[positions[j]]
      invariant forall i :: |positions| <= i < dest.Length ==> dest[i] == old(dest[i])
    {
      dest[i] := values[positions[i]];
      i := i + 1;
    }
  }

  /** `IntegerScheme::gather`, the default: one decode at the scheme's own level, into a stack no decoder uses. */
  method GatherByDecoding(dest: array<int>, c: Column, n: nat, allNull: bool, positions: seq<nat>, level: nat,
                          scratch: Scratch)
    requires scratch.Valid() && dest !in scratch.From(level, false)
    requires WellFormed(c, n) && InRange(positions, n) && |positions| <= dest.Length
    modifies scratch, scratch.From(level, false), dest
    ensures scratch.Evolved(level, false)
    ensures dest[..|positions|] == Pick(Decode(c, n, allNull), positions)
    ensures forall i :: |positions| <= i < dest.Length ==> dest[i] == old(dest[i])
    decreases c, 3
  {
    var values := scratch.GetLevelData(RandomAccess, n + SIMD_EXTRA_INTS, level);
    Decompress(values, c, n, allNull, level, scratch);
    PickArray(dest, values, n, positions);
  }

  method PickArray(dest: array<int>, values: array<int>, n: nat, positions: seq<nat>)
    requires dest != values && n <= values.Length && InRange(positions, n) && |positions| <= dest.Length
    modifies dest
    ensures dest[..|positions|] == Pick(old(values[..n]), positions)
    ensures forall i :: |positions| <= i < dest.Length ==> dest[i] == old(dest[i])
  {
    var i := 0;
    while i < |positions|
      invariant 0 <= i <= |positions|
      invariant forall j :: 0 <= j < i ==> dest[j] == values[positions[j]]
      invariant forall j :: |positions| <= j < dest.Length ==> dest[j] == old(dest[j])
    {
      dest[i] := values[positions[i]];
      i := i + 1;
    }
  }

  /** A nested gather, into this level's buffer of the given stack: no slack, one element per position. */
  method GatherChild(stack: Stack, child: Column, n: nat, allNull: bool, positions: seq<nat>, level: nat,
                     scratch: Scratch)
    returns (buffer: array<int>)
    requires scratch.Valid() && WellFormed(child, n) && InRange(positions, n)
    modifies scratch, scratch.From(level + 1, false), scratch.At(Slot(stack, level))
    ensures scratch.Evolved(level, false)
    ensures Slot(stack, level) in scratch.buffers && scratch.buffers[Slot(stack, level)] == buffer
    ensures forall s :: s in old(scratch.buffers) && s.level <= level && s != Slot(stack, level) ==>
      s in scratch.buffers && scratch.buffers[s] == old(scratch.buffers)[s]
    ensures |positions| <= buffer.Length && buffer[..|positions|] == Pick(Decode(child, n, allNull), positions)
    decreases child, 5
  {
    buffer := scratch.GetLevelData(stack, |positions|, level);
    Gather(buffer, child, n, allNull, positions, level + 1, scratch);
  }

  lemma AboutDictionary(c: Column, n: nat)
    requires c.scheme == DICT && WellFormed(c, n)
    ensures WellFormed(c.body.codes, n) && CodesInRange(Decode(c.body.codes, n, false), c.body.dict)
    ensures Decode(c, n, false) == Lookup(c.body.dict, Decode(c.body.codes, n, false))
  {
  }

  method GatherDictionary(dest: array<int>, c: Column, n: nat, positions: seq<nat>, level: nat, scratch: Scratch)
    requires scratch.Valid() && dest !in scratch.From(level, false)
    requires c.scheme == DICT && WellFormed(c, n) && InRange(positions, n) && |positions| <= dest.Length
    modifies scratch, scratch.From(level, false), dest
    ensures scratch.Evolved(level, false)
    ensures dest[..|positions|] == Pick(Decode(c, n, false), positions)
    ensures forall i :: |positions| <= i < dest.Length ==> dest[i] == old(dest[i])
    decreases c, 3
  {
    AboutDictionary(c, n);
    hide WellFormed, Decode;
    var codes := GatherChild(GatherDictCodes, c.body.codes, n, false, positions, level, scratch);
    LookupAll(dest, c.body.dict, codes, |positions|);
  }

  method LookupAll(dest: array<int>, dict: seq<int>, codes: array<int>, n: nat)
    requires n <= dest.Length && n <= codes.Length && dest != codes && CodesInRange(codes[..n], dict)
    modifies dest
    ensures dest[..n] == Lookup(dict, codes[..n])
    ensures forall j :: n <= j < dest.Length ==> dest[j] == old(dest[j])
  {
    ghost var cs := codes[..n];
    var i := 0;
    while i < n
      invariant 0 <= i <= n && codes[..n] == cs
      invariant forall j :: 0 <= j < i ==> dest[j] == dict[cs[j]]
      invariant forall j :: n <= j < dest.Length ==> dest[j] == old(dest[j])
    {
      assert codes[i] == cs[i];
      dest[i] := dict[codes[i]];
      i := i + 1;
    }
  }

  method GatherFor(dest: array<int>, c: Column, n: nat, allNull: bool, positions: seq<nat>, level: nat,
                   scratch: Scratch)
    requires scratch.Valid() && dest !in scratch.From(level, false)
    requires c.scheme == FOR && WellFormed(c, n) && InRange(positions, n) && |positions| <= dest.Length
    modifies scratch, scratch.From(level, false), dest
    ensures scratch.Evolved(level, false)
    ensures dest[..|positions|] == Pick(Decode(c, n, allNull), positions)
    ensures forall i :: |positions| <= i < dest.Length ==> dest[i] == old(dest[i])
    decreases c, 3
  {
    Gather(dest, c.body.rest, n, allNull, positions, level + 1, scratch);
    if allNull {
      return;
    }
    AddBiasInPlace(dest, c.body.bias, |positions|);
  }

  // Run-length gather

  method GatherRle(dest: array<int>, c: Column, n: nat, positions: seq<nat>, level: nat, scratch: Scratch)
    requires scratch.Valid() && dest !in scratch.From(level, false)
    requires c.scheme == RLE && WellFormed(c, n) && InRange(positions, n) && |positions| <= dest.Length
    modifies scratch, scratch.From(level, false), dest
    ensures scratch.Evolved(level, false)
    ensures dest[..|positions|] == Pick(Decode(c, n, false), positions)
    ensures forall i :: |positions| <= i < dest.Length ==> dest[i] == old(dest[i])
    decreases c, 3
  {
    AboutRle(c, n);
    hide WellFormed, Decode;
    var runs := c.body.runs;
    var owners := FindOwners(c, n, positions, level, scratch);
    PickThroughRuns(Decode(c.body.runValues, runs, false), Decode(c.body.runCounts, runs, false), owners, positions);
    Gather(dest, c.body.runValues, runs, false, owners, level + 1, scratch);
  }

  lemma PickThroughRuns(values: seq<int>, counts: seq<int>, owners: seq<nat>, positions: seq<nat>)
    requires |values| == |counts| && NonNegative(counts) && |owners| == |positions|
    requires forall i :: 0 <= i < |positions| ==> Owns(counts, owners[i], positions[i])
    ensures InRange(owners, |values|) && InRange(positions, |Expand(values, counts)|)
    ensures Pick(values, owners) == Pick(Expand(values, counts), positions)
  {
    forall i | 0 <= i < |positions|
      ensures owners[i] < |values| && positions[i] < |Expand(values, counts)|
      ensures values[owners[i]] == Expand(values, counts)[positions[i]]
    {
      ExpandAt(values, counts, |counts|, owners[i], positions[i]);
    }
  }

  /** Decodes the counts only, sums them up, and searches each position's run. */
  method FindOwners(c: Column, n: nat, positions: seq<nat>, level: nat, scratch: Scratch) returns (owners: seq<nat>)
    requires scratch.Valid() && c.scheme == RLE && WellFormed(c, n) && InRange(positions, n)
    modifies scratch, scratch.From(level, false)
    ensures scratch.Evolved(level, false)
    ensures |owners| == |positions| && WellFormed(c.body.runCounts, c.body.runs)
    ensures forall i :: 0 <= i < |positions| ==>
      Owns(Decode(c.body.runCounts, c.body.runs, false), owners[i], positions[i])
    decreases c, 2
  {
    AboutRle(c, n);
    hide WellFormed, Decode;
    var offsets := RunOffsets(c, n, level, scratch);
    owners := SearchAll(offsets, c.body.runs, Decode(c.body.runCounts, c.body.runs, false), positions);
  }

  method RunOffsets(c: Column, ghost n: nat, level: nat, scratch: Scratch) returns (offsets: array<int>)
    requires scratch.Valid() && c.scheme == RLE && WellFormed(c, n)
    modifies scratch, scratch.From(level, false)
    ensures scratch.Evolved(level, false)
    ensures c.body.runs < offsets.Length && WellFormed(c.body.runCounts, c.body.runs)
    ensures forall r: nat :: r <= c.body.runs ==>
      offsets[r] == Start(Decode(c.body.runCounts, c.body.runs, false), r)
    decreases c, 1
  {
    AboutRle(c, n);
    hide WellFormed, Decode;
    var runs := c.body.runs;
    var counts := DecodeChild(GatherRleCounts, c.body.runCounts, runs, false, level, scratch);
    offsets := OffsetsInto(counts, runs, level, scratch);
  }

  method OffsetsInto(counts: array<int>, runs: nat, level: nat, scratch: Scratch) returns (offsets: array<int>)
    requires scratch.Valid() && runs <= counts.Length && counts !in scratch.At(Slot(GatherRleOffsets, level))
    modifies scratch, scratch.At(Slot(GatherRleOffsets, level))
    ensures scratch.Evolved(level, false) && runs < offsets.Length
    ensures forall r: nat :: r <= runs ==> offsets[r] == Start(old(counts[..runs]), r)
  {
    offsets := scratch.GetLevelData(GatherRleOffsets, runs + 1, level);
    PrefixSum(offsets, counts, runs);
  }

  /** `offsets[r]` becomes the first row of run `r`. */
  method PrefixSum(offsets: array<int>, counts: array<int>, runs: nat)
    requires runs < offsets.Length && runs <= counts.Length && offsets != counts
    modifies offsets
    ensures forall r: nat :: r <= runs ==> offsets[r] == Start(old(counts[..runs]), r)
  {
    ghost var cs := counts[..runs];
    offsets[0] := 0;
    var run := 0;
    while run < runs
      invariant 0 <= run <= runs && counts[..runs] == cs
      invariant forall r: nat :: r <= run ==> offsets[r] == Start(cs, r)
    {
      assert counts[run] == cs[run];
      offsets[run + 1] := offsets[run] + counts[run];
      run := run + 1;
    }
  }

  method SearchAll(offsets: array<int>, runs: nat, ghost counts: seq<int>, positions: seq<nat>)
    returns (owners: seq<nat>)
    requires NonNegative(counts) && runs == |counts| < offsets.Length
    requires 0 <= Total(counts) && InRange(positions, Total(counts))
    requires forall r: nat :: r <= |counts| ==> offsets[r] == Start(counts, r)
    ensures |owners| == |positions|
    ensures forall i :: 0 <= i < |positions| ==> Owns(counts, owners[i], positions[i])
  {
    owners := [];
    while |owners| < |positions|
      invariant |owners| <= |positions|
      invariant forall i :: 0 <= i < |owners| ==> Owns(counts, owners[i], positions[i])
    {
      var run := SearchRun(offsets, runs, counts, positions[|owners|]);
      owners := owners + [run];
    }
  }

  /** The binary search lands on the run that owns the row, empty runs included. */
  method SearchRun(offsets: array<int>, runs: nat, ghost counts: seq<int>, row: nat) returns (lo: nat)
    requires NonNegative(counts) && runs == |counts| < offsets.Length && row < Total(counts)
    requires forall r: nat :: r <= |counts| ==> offsets[r] == Start(counts, r)
    ensures Owns(counts, lo, row)
  {
    lo := 0;
    var hi := runs;
    while lo < hi
      invariant 0 <= lo <= hi <= runs
      invariant Start(counts, lo) <= row && (hi < runs ==> row < Start(counts, hi + 1))
    {
      var mid := lo + (hi - lo) / 2;
      if offsets[mid + 1] <= row {
        lo := mid + 1;
      } else {
        hi := mid;
      }
    }
    assert lo < runs;
  }

  // Frequency gather

  method GatherFrequency(dest: array<int>, c: Column, n: nat, positions: seq<nat>, level: nat, scratch: Scratch)
    requires scratch.Valid() && dest !in scratch.From(level, false)
    requires c.scheme == FREQUENCY && WellFormed(c, n) && InRange(positions, n) && |positions| <= dest.Length
    modifies scratch, scratch.From(level, false), dest
    ensures scratch.Evolved(level, false)
    ensures dest[..|positions|] == Pick(Decode(c, n, false), positions)
    ensures forall i :: |positions| <= i < dest.Length ==> dest[i] == old(dest[i])
    decreases c, 3
  {
    var top, rows := c.body.top, c.body.rows;
    if |rows| == 0 {
      Fill(dest, top, |positions|);
      return;
    }
    AboutFrequency(c, n);
    hide WellFormed, Decode;
    ghost var ex := Decode(c.body.exceptions, |rows|, false);
    var ranks, slots := SplitPositions(dest, top, rows, positions, n);
    if |ranks| > 0 {
      var resolved := GatherChild(GatherFrequencyExceptions, c.body.exceptions, |rows|, false, ranks, level, scratch);
      assert forall k :: 0 <= k < |ranks| ==> resolved[k] == resolved[..|ranks|][k];
      Scatter(dest, slots, resolved);
    }
    OverlayPicked(dest[..|positions|], top, rows, ex, n, positions, ranks, slots);
  }

  lemma AboutFrequency(c: Column, n: nat)
    requires c.scheme == FREQUENCY && WellFormed(c, n) && |c.body.rows| > 0
    ensures Within(c.body.rows, n) && WellFormed(c.body.exceptions, |c.body.rows|)
    ensures Decode(c, n, false) == Overlay(c.body.top, c.body.rows, Decode(c.body.exceptions, |c.body.rows|, false), n)
  {
  }

  /** Rank minus one is the index at which the encoder stored the row's exception. */
  lemma OverlayPicked(got: seq<int>, top: int, rows: set<nat>, ex: seq<int>, n: nat, positions: seq<nat>,
                      ranks: seq<nat>, slots: seq<nat>)
    requires Within(rows, n) && |ex| == |rows| && InRange(positions, n) && |got| == |positions|
    requires Split(rows, positions, ranks, slots, |positions|)
    requires forall i :: 0 <= i < |positions| && positions[i] !in rows ==> got[i] == top
    requires forall k :: 0 <= k < |slots| ==> got[slots[k]] == ex[ranks[k]]
    ensures got == Pick(Overlay(top, rows, ex, n), positions)
  {
    forall i | 0 <= i < |positions| ensures got[i] == Overlay(top, rows, ex, n)[positions[i]] {
      if positions[i] in rows {
        var k :| 0 <= k < |slots| && slots[k] == i;
        assert got[slots[k]] == ex[ranks[k]];
      }
    }
  }

  /** The requested rows outside the bitmap are answered; the others are listed with their 0-based exception index. */
  ghost predicate Split(rows: set<nat>, positions: seq<nat>, ranks: seq<nat>, slots: seq<nat>, upto: nat)
    requires upto <= |positions|
  {
    && |ranks| == |slots|
    && (forall k :: 0 <= k < |slots| ==>
          slots[k] < upto && positions[slots[k]] in rows && ranks[k] + 1 == Rank(rows, positions[slots[k]]) <= |rows|)
    && (forall j, k :: 0 <= j < k < |slots| ==> slots[j] != slots[k])
    && (forall i :: 0 <= i < upto && positions[i] in rows ==> i in slots)
  }

  method SplitPositions(dest: array<int>, top: int, rows: set<nat>, positions: seq<nat>, ghost n: nat)
    returns (ranks: seq<nat>, slots: seq<nat>)
    requires |positions| <= dest.Length && InRange(positions, n) && Within(rows, n)
    modifies dest
    ensures Split(rows, positions, ranks, slots, |positions|)
    ensures forall i :: 0 <= i < |positions| && positions[i] !in rows ==> dest[i] == top
    ensures forall i :: |positions| <= i < dest.Length ==> dest[i] == old(dest[i])
  {
    ranks, slots := [], [];
    var i := 0;
    while i < |positions|
      invariant 0 <= i <= |positions| && Split(rows, positions, ranks, slots, i)
      invariant forall j :: 0 <= j < i && positions[j] !in rows ==> dest[j] == top
      invariant forall j :: |positions| <= j < dest.Length ==> dest[j] == old(dest[j])
    {
      if positions[i] in rows {
        RankIsPosition(rows, n, positions[i]);
        AscendingTotal(rows, n);
        ranks, slots := ranks + [Rank(rows, positions[i]) - 1], slots + [i];
      } else {
        dest[i] := top;
      }
      i := i + 1;
    }
  }

  method Scatter(dest: array<int>, slots: seq<nat>, values: array<int>)
    requires dest != values && |slots| <= values.Length
    requires forall k :: 0 <= k < |slots| ==> slots[k] < dest.Length
    requires forall j, k :: 0 <= j < k < |slots| ==> slots[j] != slots[k]
    modifies dest
    ensures forall k :: 0 <= k < |slots| ==> dest[slots[k]] == values[k]
    ensures forall i :: 0 <= i < dest.Length && i !in slots ==> dest[i] == old(dest[i])
  {
    var j := 0;
    while j < |slots|
      invariant 0 <= j <= |slots| && forall k :: 0 <= k < j ==> dest[slots[k]] == values[k]
      invariant forall i :: 0 <= i < dest.Length && i !in slots ==> dest[i] == old(dest[i])
    {
      dest[slots[j]] := values[j];
      j := j + 1;
    }
  }

  // Bit-packed gather

  /** Per block: the requested offsets inside it, each with its output slot. */
  type Groups = map<nat, seq<(nat, nat)>>

  /** Every block-packed request below `upto` is grouped under its block, and nothing else is. */
  ghost predicate Grouped(groups: Groups, positions: seq<nat>, packed: nat, upto: nat)
    requires upto <= |positions|
  {
    && (forall b :: b in groups ==> groups[b] != [])
    && (forall b, e :: b in groups && e in groups[b] ==>
          e.1 < upto && e.0 < Packing.BLOCK && positions[e.1] == Packing.BLOCK * b + e.0 && positions[e.1] < packed)
    && (forall i :: 0 <= i < upto && positions[i] < packed ==>
          positions[i] / Packing.BLOCK in groups
          && (positions[i] % Packing.BLOCK, i) in groups[positions[i] / Packing.BLOCK])
  }

  lemma AboutPacked(c: Column, n: nat)
    requires c.scheme == BP && WellFormed(c, n)
    ensures var words := c.body.words;
      && 1 <= |words| && words[0] % Packing.BLOCK == 0 && words[0] <= n
      && Packing.HasBlocks(words, 1, words[0] / Packing.BLOCK)
      && Decode(c, n, false)[..words[0]] == Signed(Packing.DecodeBlocks(words, 1, words[0] / Packing.BLOCK))
  {
  }

  method GatherPacked(dest: array<int>, c: Column, n: nat, positions: seq<nat>, level: nat, scratch: Scratch)
    requires scratch.Valid() && dest !in scratch.From(level, false)
    requires c.scheme == BP && WellFormed(c, n) && InRange(positions, n) && |positions| <= dest.Length
    modifies scratch, scratch.From(level, false), dest
    ensures scratch.Evolved(level, false)
    ensures dest[..|positions|] == Pick(Decode(c, n, false), positions)
    ensures forall i :: |positions| <= i < dest.Length ==> dest[i] == old(dest[i])
    decreases c, 3, 1
  {
    AboutPacked(c, n);
    var words := c.body.words;
    var packed := words[0];
    ghost var decoded := Decode(c, n, false);
    hide WellFormed, Decode, PackedStream;
    var tail := DecodeTail(c, n, positions, level, scratch);
    var groups := GroupByBlock(dest, tail, positions, packed, decoded);
    ghost var unpacked := UnpackGroups(dest, words, groups, positions, decoded);
  }

  /** The values behind the block-packed region are not addressable: one full decode, only when they are asked for. */
  method DecodeTail(c: Column, n: nat, positions: seq<nat>, level: nat, scratch: Scratch) returns (tail: array<int>)
    requires scratch.Valid() && c.scheme == BP && WellFormed(c, n)
    modifies scratch, scratch.From(level, true)
    ensures scratch.Evolved(level, true) && fresh(tail) && tail !in scratch.From(level, false)
    ensures (exists i :: 0 <= i < |positions| && c.body.words[0] <= positions[i]) ==>
      n <= tail.Length && tail[..n] == Decode(c, n, false)
    decreases c, 3
  {
    tail := new int[0];
    if exists i :: 0 <= i < |positions| && c.body.words[0] <= positions[i] {
      tail := new int[n + SIMD_EXTRA_INTS];
      Decompress(tail, c, n, false, level, scratch);
    }
  }

  method GroupByBlock(dest: array<int>, tail: array<int>, positions: seq<nat>, packed: nat, ghost decoded: seq<int>)
    returns (groups: Groups)
    requires dest != tail && |positions| <= dest.Length && InRange(positions, |decoded|)
    requires (exists i :: 0 <= i < |positions| && packed <= positions[i]) ==>
      |decoded| <= tail.Length && tail[..|decoded|] == decoded
    modifies dest
    ensures Grouped(groups, positions, packed, |positions|)
    ensures forall i :: 0 <= i < |positions| && packed <= positions[i] ==> dest[i] == decoded[positions[i]]
    ensures forall i :: |positions| <= i < dest.Length ==> dest[i] == old(dest[i])
  {
    groups := map[];
    var i := 0;
    while i < |positions|
      invariant 0 <= i <= |positions| && Grouped(groups, positions, packed, i)
      invariant forall j :: 0 <= j < tail.Length ==> tail[j] == old(tail[j])
      invariant forall j :: 0 <= j < i && packed <= positions[j] ==> dest[j] == decoded[positions[j]]
      invariant forall j :: |positions| <= j < dest.Length ==> dest[j] == old(dest[j])
    {
      if packed <= positions[i] {
        assert tail[positions[i]] == tail[..|decoded|][positions[i]];
        dest[i] := tail[positions[i]];
      } else {
        groups := AddRequest(groups, positions, packed, i);
      }
      i := i + 1;
    }
  }

  method AddRequest(groups: Groups, positions: seq<nat>, ghost packed: nat, i: nat) returns (more: Groups)
    requires i < |positions| && positions[i] < packed && Grouped(groups, positions, packed, i)
    ensures Grouped(more, positions, packed, i + 1)
  {
    var b, e := positions[i] / Packing.BLOCK, (positions[i] % Packing.BLOCK, i);
    more := groups[b := (if b in groups then groups[b] else []) + [e]];
    assert e in more[b];
    assert forall e' :: e' in more[b] ==> e' == e || (b in groups && e' in groups[b]);
    assert forall b', e' :: b' in groups && e' in groups[b'] ==> b' in more && e' in more[b'];
  }

  /** Each requested block is unpacked once, whatever the order in which the groups are visited. */
  method UnpackGroups(dest: array<int>, words: seq<nat>, groups: Groups, positions: seq<nat>, ghost decoded: seq<int>)
    returns (ghost unpacked: seq<nat>)
    requires 1 <= |words| && words[0] % Packing.BLOCK == 0 && Packing.HasBlocks(words, 1, words[0] / Packing.BLOCK)
    requires |positions| <= dest.Length && InRange(positions, |decoded|) && words[0] <= |decoded|
    requires decoded[..words[0]] == Signed(Packing.DecodeBlocks(words, 1, words[0] / Packing.BLOCK))
    requires Grouped(groups, positions, words[0], |positions|)
    requires forall i :: 0 <= i < |positions| && words[0] <= positions[i] ==> dest[i] == decoded[positions[i]]
    modifies dest
    ensures forall i :: 0 <= i < |positions| ==> dest[i] == decoded[positions[i]]
    ensures forall i :: |positions| <= i < dest.Length ==> dest[i] == old(dest[i])
    ensures forall b :: b in unpacked <==> b in groups
    ensures forall j, k :: 0 <= j < k < |unpacked| ==> unpacked[j] != unpacked[k]
  {
    var block := new int[Packing.BLOCK];
    var blocks := groups.Keys;
    unpacked := [];
    while blocks != {}
      invariant blocks <= groups.Keys && forall b :: b in unpacked <==> b in groups && b !in blocks
      invariant forall j, k :: 0 <= j < k < |unpacked| ==> unpacked[j] != unpacked[k]
      invariant forall i :: 0 <= i < |positions| && Answered(positions[i], words[0], blocks) ==>
        dest[i] == decoded[positions[i]]
      invariant forall i :: |positions| <= i < dest.Length ==> dest[i] == old(dest[i])
      decreases |blocks|
    {
      var b :| b in blocks;
      BlockInStream(groups, positions, words[0], b);
      Packing.DecompressBlock(words, b, words[0] / Packing.BLOCK, block);
      unpacked := unpacked + [b];
      BlockOfDecoded(words, b, block[..], decoded);
      AnswerBlock(dest, block, b, groups[b], positions, decoded);
      GroupDone(groups, positions, words[0], b, blocks);
      blocks := blocks - {b};
    }
    forall i | 0 <= i < |positions| ensures dest[i] == decoded[positions[i]] {
      assert Answered(positions[i], words[0], blocks);
    }
  }

  lemma BlockInStream(groups: Groups, positions: seq<nat>, packed: nat, b: nat)
    requires Grouped(groups, positions, packed, |positions|) && b in groups && packed % Packing.BLOCK == 0
    ensures b < packed / Packing.BLOCK
  {
    var e := groups[b][0];
    assert e in groups[b];
    assert packed == Packing.BLOCK * (packed / Packing.BLOCK);
    assert Packing.BLOCK * b <= positions[e.1] < packed;
  }

  /** Once block `b` is answered, a request still unanswered belongs to another block. */
  lemma GroupDone(groups: Groups, positions: seq<nat>, packed: nat, b: nat, blocks: set<nat>)
    requires Grouped(groups, positions, packed, |positions|) && b in groups
    ensures forall i :: 0 <= i < |positions| && Answered(positions[i], packed, blocks - {b}) ==>
      Answered(positions[i], packed, blocks) || exists e :: e in groups[b] && e.1 == i
  {
    forall i |
      0 <= i < |positions| && Answered(positions[i], packed, blocks - {b}) && !Answered(positions[i], packed, blocks)
      ensures exists e :: e in groups[b] && e.1 == i
    {
      assert (positions[i] % Packing.BLOCK, i) in groups[b];
    }
  }

  /** Requests outside the blocks still to be unpacked. */
  predicate Answered(position: nat, packed: nat, blocks: set<nat>) {
    packed <= position || position / Packing.BLOCK !in blocks
  }

  lemma BlockOfDecoded(words: seq<nat>, b: nat, block: seq<int>, decoded: seq<int>)
    requires 1 <= |words| && words[0] % Packing.BLOCK == 0 && Packing.HasBlocks(words, 1, words[0] / Packing.BLOCK)
    requires words[0] <= |decoded| && b < words[0] / Packing.BLOCK && |block| == Packing.BLOCK
    requires decoded[..words[0]] == Signed(Packing.DecodeBlocks(words, 1, words[0] / Packing.BLOCK))
    requires var from := Packing.BLOCK * b;
      block == Packing.DecodeBlocks(words, 1, words[0] / Packing.BLOCK)[from..from + Packing.BLOCK]
    ensures Packing.BLOCK * b + Packing.BLOCK <= |decoded|
    ensures forall k :: 0 <= k < Packing.BLOCK ==> S32(block[k]) == decoded[Packing.BLOCK * b + k]
  {
    hide Packing.HasBlocks, Packing.DecodeBlocks;
    forall k | 0 <= k < Packing.BLOCK ensures S32(block[k]) == decoded[Packing.BLOCK * b + k] {
      assert decoded[Packing.BLOCK * b + k] == decoded[..words[0]][Packing.BLOCK * b + k];
    }
  }

  method AnswerBlock(dest: array<int>, block: array<int>, b: nat, entries: seq<(nat, nat)>, positions: seq<nat>,
                     ghost decoded: seq<int>)
    requires dest != block && block.Length == Packing.BLOCK && |positions| <= dest.Length
    requires InRange(positions, |decoded|) && Packing.BLOCK * b + Packing.BLOCK <= |decoded|
    requires forall k :: 0 <= k < Packing.BLOCK ==> S32(block[k]) == decoded[Packing.BLOCK * b + k]
    requires forall e :: e in entries ==>
      e.1 < |positions| && e.0 < Packing.BLOCK && positions[e.1] == Packing.BLOCK * b + e.0
    modifies dest
    ensures forall e :: e in entries ==> dest[e.1] == decoded[positions[e.1]]
    ensures forall i :: 0 <= i < dest.Length && dest[i] != old(dest[i]) ==>
      i < |positions| && dest[i] == decoded[positions[i]]
  {
    var j := 0;
    while j < |entries|
      invariant 0 <= j <= |entries|
      invariant forall k :: 0 <= k < Packing.BLOCK ==> S32(block[k]) == decoded[Packing.BLOCK * b + k]
      invariant forall k :: 0 <= k < j ==> dest[entries[k].1] == decoded[positions[entries[k].1]]
      invariant forall i :: 0 <= i < dest.Length && dest[i] != old(dest[i]) ==>
        i < |positions| && dest[i] == decoded[positions[i]]
    {
      assert entries[j] in entries;
      dest[entries[j].1] := S32(block[entries[j].0]);
      j := j + 1;
    }
  }

  // ---------------------------------------------------------------- 64-bit columns

  /** BP64: the low and the high words of 64-bit values, each an ordinary integer column. */
  datatype Column64 = Column64(low: Column, high: Column)

  ghost predicate WellFormed64(c: Column64, n: nat) { WellFormed(c.low, n) && WellFormed(c.high, n) }

  function Combine(low: seq<int>, high: seq<int>): (s: seq<int>)
    requires |low| == |high|
    ensures |s| == |low| && forall i :: 0 <= i < |s| ==> s[i] == Combine64(low[i], high[i])
  {
    seq(|low|, i requires 0 <= i < |low| => Combine64(low[i], high[i]))
  }

  ghost function Decode64(c: Column64, n: nat, allNull: bool): (s: seq<int>)
    requires WellFormed64(c, n)
    ensures |s| == n
  {
    Combine(Decode(c.low, n, allNull), Decode(c.high, n, allNull))
  }

  method Decompress64(dest: array<int>, c: Column64, n: nat, allNull: bool, level: nat, scratch: Scratch)
    requires scratch.Valid() && dest !in scratch.From(level, true) && WellFormed64(c, n) && n <= dest.Length
    modifies scratch, scratch.From(level, true), dest
    ensures scratch.Evolved(level, true)
    ensures dest[..n] == Decode64(c, n, allNull)
  {
    hide WellFormed, Decode;
    var low := DecodeChild(Bp64DecodeLow, c.low, n, allNull, level, scratch);
    var high := DecodeChild(Bp64DecodeHigh, c.high, n, allNull, level, scratch);
    Recombine(dest, low, high, n);
  }

  method Gather64(dest: array<int>, c: Column64, n: nat, allNull: bool, positions: seq<nat>, level: nat,
                  scratch: Scratch)
    requires scratch.Valid() && dest !in scratch.From(level, false)
    requires WellFormed64(c, n) && InRange(positions, n) && |positions| <= dest.Length
    modifies scratch, scratch.From(level, false), dest
    ensures scratch.Evolved(level, false)
    ensures dest[..|positions|] == Pick(Decode64(c, n, allNull), positions)
    ensures forall i :: |positions| <= i < dest.Length ==> dest[i] == old(dest[i])
  {
    hide WellFormed, Decode;
    if n == 0 || |positions| == 0 {
      return;
    }
    var low := GatherChild(Bp64GatherLow, c.low, n, allNull, positions, level, scratch);
    var high := GatherChild(Bp64GatherHigh, c.high, n, allNull, positions, level, scratch);
    Recombine(dest, low, high, |positions|);
  }

  method Recombine(dest: array<int>, low: array<int>, high: array<int>, n: nat)
    requires n <= dest.Length && n <= low.Length && n <= high.Length && dest != low && dest != high
    modifies dest
    ensures dest[..n] == Combine(low[..n], high[..n])
    ensures forall i :: n <= i < dest.Length ==> dest[i] == old(dest[i])
  {
    var i := 0;
    while i < n
      invariant 0 <= i <= n
      invariant forall j :: 0 <= j < low.Length ==> low[j] == old(low[j])
      invariant forall j :: 0 <= j < high.Length ==> high[j] == old(high[j])
      invariant forall j :: 0 <= j < i ==> dest[j] == Combine64(low[j], high[j])
      invariant forall j :: n <= j < dest.Length ==> dest[j] == old(dest[j])
    {
      dest[i] := Combine64(low[i], high[i]);
      i := i + 1;
    }
  }
}
